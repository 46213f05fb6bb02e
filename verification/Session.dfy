/**
 * A target being read while it may be changing, by a caller that may ask for a stop.
 *
 * Each read answers as of its own moment, so two reads of one address need not agree. The halt
 * predicate is a stream that is used up as it is polled: a request that was answered once is gone.
 * `trace` records every look at the target, with its moment, and every poll, in order.
 */
module Session {
  import opened Machine

  type Answers = (nat, int, nat) -> Option<seq<byte>>
  type Memory = (int, nat) -> Option<seq<byte>>

  datatype Event = Read(tick: nat, at: u64, len: nat) | Described(tick: nat, body: u64) | Polled(answer: bool)

  /** Memory that answers the same at every moment. */
  ghost predicate Steady(answers: Answers, mem: Memory) {
    forall t: nat, a: int, n: nat :: answers(t, a, n) == mem(a, n)
  }

  /** Nothing at all follows the poll that asked for a stop, and `stopped` says whether it came. */
  ghost predicate Obeys(before: seq<Event>, after: seq<Event>, stopped: bool) {
    && before <= after
    && (stopped <==> |before| < |after| && after[|after| - 1] == Polled(true))
    && forall i :: |before| <= i < |after| - 1 ==> after[i] != Polled(true)
  }

  lemma ObeysThen(before: seq<Event>, middle: seq<Event>, after: seq<Event>, stopped: bool)
    requires Obeys(before, middle, false) && Obeys(middle, after, stopped)
    ensures Obeys(before, after, stopped)
  {
    assert forall i :: |before| <= i < |middle| ==> after[i] == middle[i] != Polled(true);
  }

  /** Memory as it stands at a moment. */
  function AsOf(answers: Answers, t: nat): Memory { (a: int, n: nat) => answers(t, a, n) }

  /** The looks at an object in a trace, in order. */
  ghost function Looks(trace: seq<Event>): seq<Event> {
    if trace == [] then []
    else Looks(trace[..|trace| - 1]) + if trace[|trace| - 1].Described? then [trace[|trace| - 1]] else []
  }

  lemma LooksAdd(trace: seq<Event>, event: Event)
    ensures Looks(trace + [event]) == Looks(trace) + if event.Described? then [event] else []
  {
    assert (trace + [event])[..|trace|] == trace;
  }

  /** What has been added to a trace since. */
  ghost function Since(before: seq<Event>, after: seq<Event>): seq<Event>
    requires before <= after
  {
    after[|before|..]
  }

  lemma SinceThen(before: seq<Event>, middle: seq<Event>, after: seq<Event>)
    requires before <= middle <= after
    ensures Since(before, after) == Since(before, middle) + Since(middle, after)
  {
  }

  class Target {
    const answers: Answers
    const halt: Option<nat -> bool>
    var ticks: nat
    var polls: nat
    ghost var trace: seq<Event>

    constructor (answers: Answers, halt: Option<nat -> bool>)
      ensures this.answers == answers && this.halt == halt && ticks == 0 && polls == 0 && trace == []
    {
      this.answers, this.halt := answers, halt;
      ticks, polls, trace := 0, 0, [];
    }

    /** The caller never asks for a stop. */
    ghost predicate NeverHalts() {
      halt.Some? ==> forall k :: !halt.value(k)
    }

    method ReadAt(at: u64, len: nat) returns (r: Option<seq<byte>>)
      modifies this
      ensures r == answers(old(ticks), at, len)
      ensures ticks == old(ticks) + 1 && polls == old(polls) && trace == old(trace) + [Read(old(ticks), at, len)]
      ensures Obeys(old(trace), trace, false) && Looks(trace) == old(Looks(trace))
    {
      hide Looks;
      LooksAdd(trace, Read(ticks, at, len));
      r := answers(ticks, at, len);
      trace := trace + [Read(ticks, at, len)];
      ticks := ticks + 1;
    }

    /** The several reads that describe one object, taken as one look: memory as it stands now. */
    method Look(body: u64) returns (now: Memory)
      modifies this
      ensures now == AsOf(answers, old(ticks))
      ensures ticks == old(ticks) + 1 && polls == old(polls) && trace == old(trace) + [Described(old(ticks), body)]
      ensures Obeys(old(trace), trace, false) && Looks(trace) == old(Looks(trace)) + [Described(old(ticks), body)]
    {
      hide Looks;
      LooksAdd(trace, Described(ticks, body));
      now := AsOf(answers, ticks);
      trace := trace + [Described(ticks, body)];
      ticks := ticks + 1;
    }

    /** `stopped`: asking uses up the answer. */
    method Stopped() returns (stop: bool)
      modifies this
      ensures Obeys(old(trace), trace, stop) && ticks == old(ticks) && Looks(trace) == old(Looks(trace))
      ensures NeverHalts() ==> !stop
      ensures halt.Some? ==> stop == halt.value(old(polls)) && polls == old(polls) + 1 && trace == old(trace) + [Polled(stop)]
      ensures halt.None? ==> !stop && polls == old(polls) && trace == old(trace)
    {
      hide Looks;
      if halt.None? {
        return false;
      }
      stop := halt.value(polls);
      LooksAdd(trace, Polled(stop));
      polls := polls + 1;
      trace := trace + [Polled(stop)];
    }
  }
}
