/**
 * The connection announcement in a debugger's output: a constant-space matcher fed in chunks.
 *
 * What it looks for is a property of the whole stream of normal output: some line begins with the
 * prefix. However the stream is cut up, and whatever other output comes between, the matcher
 * answers once, at the chunk that makes it so.
 */
module Announcement {
  import opened Machine

  const NEWLINE: byte := 0x0a

  /** `Connected to target `, in ASCII. */
  const PREFIX: seq<byte> := [0x43, 0x6f, 0x6e, 0x6e, 0x65, 0x63, 0x74, 0x65, 0x64, 0x20,
                              0x74, 0x6f, 0x20, 0x74, 0x61, 0x72, 0x67, 0x65, 0x74, 0x20]

  const DEBUG_OUTPUT_NORMAL: bv32 := 1

  /** A line begins at this position. */
  predicate StartsLine(stream: seq<byte>, at: nat) {
    at <= |stream| && (at == 0 || stream[at - 1] == NEWLINE)
  }

  predicate PrefixAt(stream: seq<byte>, at: nat) {
    StartsLine(stream, at) && at + |PREFIX| <= |stream| && stream[at..at + |PREFIX|] == PREFIX
  }

  /** Some line of the stream begins with the prefix. */
  ghost predicate Announced(stream: seq<byte>) {
    exists at: nat :: PrefixAt(stream, at)
  }

  /** The bytes of text below 0x80. */
  function Ascii(s: string): seq<byte>
    requires forall i :: 0 <= i < |s| ==> s[i] < 128 as char
  {
    seq(|s|, i requires 0 <= i < |s| => s[i] as int)
  }

  /** Which is to say: those words at the start of the stream, or straight after a line feed. */
  lemma AnnouncedInWords(stream: seq<byte>)
    ensures Announced(stream) <==>
      exists before, after ::
        stream == before + Ascii("Connected to target ") + after && (before == [] || before[|before| - 1] == 10)
  {
    WordsArePrefix();
    if at: nat :| PrefixAt(stream, at) {
      assert stream == stream[..at] + PREFIX + stream[at + |PREFIX|..];
    }
    if before, after :| stream == before + Ascii("Connected to target ") + after && (before == [] || before[|before| - 1] == 10) {
      assert stream[|before|..|before| + |PREFIX|] == PREFIX;
      assert before != [] ==> stream[|before| - 1] == before[|before| - 1];
      assert PrefixAt(stream, |before|);
    }
  }

  lemma WordsArePrefix()
    ensures Ascii("Connected to target ") == PREFIX
  {
  }

  /** Where the current line began. */
  function LineStart(stream: seq<byte>): (at: nat)
    ensures at <= |stream|
  {
    if stream == [] then 0
    else if stream[|stream| - 1] == NEWLINE then |stream|
    else LineStart(stream[..|stream| - 1])
  }

  lemma {:induction false} LineStartIsTheLast(stream: seq<byte>)
    ensures StartsLine(stream, LineStart(stream)) && NEWLINE !in stream[LineStart(stream)..]
  {
    if stream != [] && stream[|stream| - 1] != NEWLINE {
      var init := stream[..|stream| - 1];
      LineStartIsTheLast(init);
      assert stream[LineStart(init)..] == init[LineStart(init)..] + [stream[|stream| - 1]];
    }
  }

  function CurrentLine(stream: seq<byte>): seq<byte> { stream[LineStart(stream)..] }

  /** What the matcher's two fields say of the line so far, while nothing has been announced. */
  ghost predicate Tracks(stream: seq<byte>, matched: nat, skipLine: bool) {
    var line := CurrentLine(stream);
    if skipLine then matched == 0 && !(line <= PREFIX)
    else matched == |line| && matched < |PREFIX| && line == PREFIX[..matched]
  }

  lemma PrefixHasNoNewline()
    ensures |PREFIX| == 20 && NEWLINE !in PREFIX
  {
  }

  lemma {:induction false} LineGrows(stream: seq<byte>, b: byte)
    ensures CurrentLine(stream + [b]) == if b == NEWLINE then [] else CurrentLine(stream) + [b]
    ensures LineStart(stream + [b]) == if b == NEWLINE then |stream| + 1 else LineStart(stream)
  {
    var longer := stream + [b];
    assert longer[..|stream|] == stream;
    if b != NEWLINE {
      assert longer[LineStart(stream)..] == stream[LineStart(stream)..] + [b];
    }
  }

  /** Announcements are not withdrawn by more output. */
  lemma AnnouncedStays(stream: seq<byte>, more: seq<byte>)
    requires Announced(stream)
    ensures Announced(stream + more)
  {
    hide StartsLine;
    var at: nat :| PrefixAt(stream, at);
    assert (stream + more)[at..at + |PREFIX|] == stream[at..at + |PREFIX|];
    StillStartsLine(stream, more, at);
    assert PrefixAt(stream + more, at);
  }

  lemma StillStartsLine(stream: seq<byte>, more: seq<byte>, at: nat)
    requires StartsLine(stream, at)
    ensures StartsLine(stream + more, at)
  {
  }

  lemma AlreadyThere(stream: seq<byte>, b: byte, at: nat)
    requires PrefixAt(stream + [b], at) && at + |PREFIX| <= |stream|
    ensures Announced(stream)
  {
    assert stream[at..at + |PREFIX|] == (stream + [b])[at..at + |PREFIX|];
    assert PrefixAt(stream, at);
  }

  /** A byte announces exactly when it completes the prefix on the current line. */
  lemma ByteAnnounces(stream: seq<byte>, b: byte)
    requires !Announced(stream)
    ensures Announced(stream + [b]) <==> b != NEWLINE && CurrentLine(stream) + [b] == PREFIX
  {
    hide LineStart;
    var longer := stream + [b];
    LineGrows(stream, b);
    LineStartIsTheLast(longer);
    var start := LineStart(longer);
    if b != NEWLINE && CurrentLine(stream) + [b] == PREFIX {
      assert longer[start..start + |PREFIX|] == CurrentLine(longer);
      assert PrefixAt(longer, start);
    }
    if at: nat :| PrefixAt(longer, at) {
      if at + |PREFIX| <= |stream| {
        AlreadyThere(stream, b, at);
      }
      LastLine(longer, at);
    }
  }

  lemma LaterIsNoNewline(stream: seq<byte>, start: nat, at: nat)
    requires start <= at < |stream| && NEWLINE !in stream[start..]
    ensures stream[at] != NEWLINE
  {
    assert stream[at] == stream[start..][at - start];
  }

  /** A line with no end in it was not begun again. */
  lemma LinesStartOnce(stream: seq<byte>, start: nat, at: nat)
    requires start <= |stream| && NEWLINE !in stream[start..] && StartsLine(stream, at)
    ensures at <= start
  {
    forall i: nat | start <= i < |stream| ensures stream[i] != NEWLINE {
      LaterIsNoNewline(stream, start, i);
    }
  }

  /** A prefix that reaches the end of the stream is the current line. */
  lemma LastLine(stream: seq<byte>, at: nat)
    requires PrefixAt(stream, at) && at + |PREFIX| == |stream|
    ensures LineStart(stream) == at && CurrentLine(stream) == PREFIX && stream[|stream| - 1] != NEWLINE
  {
    PrefixHasNoNewline();
    assert stream[at..] == PREFIX;
    LaterIsNoNewline(stream, at, |stream| - 1);
    LineStartIsTheLast(stream);
    LinesStartOnce(stream, LineStart(stream), at);
    LinesStartOnce(stream, at, LineStart(stream));
  }

  /** One byte, as the matcher takes it. */
  lemma ByteTracked(stream: seq<byte>, matched: nat, skipLine: bool, b: byte)
    requires !Announced(stream) && Tracks(stream, matched, skipLine)
    ensures Announced(stream + [b]) <==> !skipLine && b == PREFIX[matched] && matched + 1 == |PREFIX|
    ensures b == NEWLINE ==> Tracks(stream + [b], 0, false)
    ensures b != NEWLINE && skipLine ==> Tracks(stream + [b], 0, true)
    ensures b != NEWLINE && !skipLine && b == PREFIX[matched] && matched + 1 < |PREFIX| ==> Tracks(stream + [b], matched + 1, false)
    ensures b != NEWLINE && !skipLine && b != PREFIX[matched] ==> Tracks(stream + [b], 0, true)
  {
    hide Announced, LineStart;
    PrefixHasNoNewline();
    ByteAnnounces(stream, b);
    LineGrows(stream, b);
    var line := CurrentLine(stream);
    if !skipLine {
      assert b == PREFIX[matched] ==> line + [b] == PREFIX[..matched + 1];
      assert b != PREFIX[matched] ==> (line + [b])[matched] != PREFIX[matched];
    }
    assert line + [b] <= PREFIX ==> line <= PREFIX;
  }

  class Notice {
    var matched: nat
    var skipLine: bool
    var fired: bool

    /** All the normal output so far, in order. */
    ghost var heard: seq<byte>

    ghost predicate Valid()
      reads this
    {
      (fired <==> Announced(heard)) && (!fired ==> Tracks(heard, matched, skipLine))
    }

    constructor ()
      ensures Valid() && heard == []
    {
      matched, skipLine, fired, heard := 0, false, false, [];
    }

    /** `feed`: true exactly at the chunk that completes the first announcement. */
    method Feed(mask: bv32, bytes: seq<byte>) returns (fire: bool)
      requires Valid()
      modifies this
      ensures Valid()
      ensures heard == old(heard) + if mask == DEBUG_OUTPUT_NORMAL then bytes else []
      ensures fire <==> !Announced(old(heard)) && Announced(heard)
    {
      hide Announced, Tracks;
      if mask != DEBUG_OUTPUT_NORMAL {
        return false;
      }
      ghost var before := heard;
      heard := heard + bytes;
      if fired {
        AnnouncedStays(before, bytes);
        return false;
      }
      assert before + bytes[..0] == before;
      for i := 0 to |bytes|
        invariant heard == before + bytes && !fired
        invariant !Announced(before + bytes[..i]) && Tracks(before + bytes[..i], matched, skipLine)
      {
        var b := bytes[i];
        ghost var sofar := before + bytes[..i];
        assert before + bytes[..i + 1] == sofar + [b];
        ByteTracked(sofar, matched, skipLine, b);
        TracksInside(sofar, matched, skipLine);
        if b == NEWLINE {
          PrefixHasNoNewline();
          matched, skipLine := 0, false;
        } else if !skipLine {
          if b == PREFIX[matched] {
            matched := matched + 1;
            if matched == |PREFIX| {
              fired := true;
              AnnouncedStays(sofar + [b], bytes[i + 1..]);
              assert sofar + [b] + bytes[i + 1..] == heard;
              return true;
            }
          } else {
            matched, skipLine := 0, true;
          }
        }
      }
      assert before + bytes[..|bytes|] == heard;
      return false;
    }
  }

  /** The matcher's index into the prefix is always in range. */
  lemma TracksInside(stream: seq<byte>, matched: nat, skipLine: bool)
    requires Tracks(stream, matched, skipLine)
    ensures matched < |PREFIX|
    ensures skipLine ==> matched == 0
  {
    PrefixHasNoNewline();
  }

  /** One callback: a mask, its text as bytes, and what asking for an interrupt would answer then. */
  datatype Output = Output(mask: bv32, text: seq<byte>, interrupt: bv32)

  const S_OK: bv32 := 0

  /** The normal output of a run of callbacks, joined up. */
  function Heard(outputs: seq<Output>): seq<byte> {
    if outputs == [] then []
    else
      var last := outputs[|outputs| - 1];
      Heard(outputs[..|outputs| - 1]) + if last.mask == DEBUG_OUTPUT_NORMAL then last.text else []
  }

  /** The announcement is complete with callback `n`, and was not before it. */
  ghost predicate CompletedAt(outputs: seq<Output>, n: nat) {
    n < |outputs| && !Announced(Heard(outputs[..n])) && Announced(Heard(outputs[..n + 1]))
  }

  lemma {:induction false} HeardGrows(outputs: seq<Output>, n: nat)
    requires n <= |outputs| && Announced(Heard(outputs[..n]))
    ensures Announced(Heard(outputs))
  {
    hide Announced;
    if n < |outputs| {
      var init := outputs[..|outputs| - 1];
      assert init[..n] == outputs[..n];
      HeardGrows(init, n);
      var last := outputs[|outputs| - 1];
      AnnouncedStays(Heard(init), if last.mask == DEBUG_OUTPUT_NORMAL then last.text else []);
    } else {
      assert outputs[..n] == outputs;
    }
  }

  lemma HeardGrowsTo(outputs: seq<Output>, n: nat, m: nat)
    requires n <= m <= |outputs| && Announced(Heard(outputs[..n]))
    ensures Announced(Heard(outputs[..m]))
  {
    assert outputs[..m][..n] == outputs[..n];
    HeardGrows(outputs[..m], n);
  }

  lemma {:induction false} SomeCallbackCompletes(outputs: seq<Output>)
    requires Announced(Heard(outputs))
    ensures exists n: nat :: CompletedAt(outputs, n)
  {
    hide Announced;
    if outputs == [] {
      NothingAnnouncesNothing();
    } else {
      var last := |outputs| - 1;
      var init := outputs[..last];
      assert outputs[..last + 1] == outputs;
      if Announced(Heard(init)) {
        SomeCallbackCompletes(init);
        var n: nat :| CompletedAt(init, n);
        assert init[..n] == outputs[..n] && init[..n + 1] == outputs[..n + 1];
        assert CompletedAt(outputs, n);
      } else {
        assert CompletedAt(outputs, last);
      }
    }
  }

  lemma NothingAnnouncesNothing()
    ensures !Announced([])
  {
    PrefixHasNoNewline();
  }

  /** Over any run of callbacks, at most one completes the announcement. */
  lemma OneCallbackAtMost(outputs: seq<Output>, n: nat, m: nat)
    requires CompletedAt(outputs, n) && CompletedAt(outputs, m)
    ensures n == m
  {
    hide Announced, Heard;
    if n < m {
      HeardGrowsTo(outputs, n + 1, m);
    } else if m < n {
      HeardGrowsTo(outputs, m + 1, n);
    }
  }

  /** However the same normal output is cut up and interleaved, it completes in both runs or neither. */
  lemma ChunksDoNotMatter(one: seq<Output>, other: seq<Output>)
    requires Heard(one) == Heard(other)
    ensures (exists n: nat :: CompletedAt(one, n)) <==> exists n: nat :: CompletedAt(other, n)
  {
    CompletesWhenAnnounced(one);
    CompletesWhenAnnounced(other);
  }

  lemma CompletesWhenAnnounced(outputs: seq<Output>)
    ensures Announced(Heard(outputs)) <==> exists n: nat :: CompletedAt(outputs, n)
  {
    hide Announced, Heard;
    if n: nat :| CompletedAt(outputs, n) {
      HeardGrows(outputs, n + 1);
    }
    if Announced(Heard(outputs)) {
      SomeCallbackCompletes(outputs);
    }
  }

  lemma LongerRun(outputs: seq<Output>, next: Output, n: nat)
    ensures n < |outputs| ==> (CompletedAt(outputs + [next], n) <==> CompletedAt(outputs, n))
    ensures CompletedAt(outputs + [next], |outputs|) <==> !Announced(Heard(outputs)) && Announced(Heard(outputs + [next]))
  {
    hide Announced, Heard;
    var longer := outputs + [next];
    assert longer[..|outputs|] == outputs && longer[..|outputs| + 1] == longer;
    if n < |outputs| {
      assert longer[..n] == outputs[..n] && longer[..n + 1] == outputs[..n + 1];
    }
  }

  datatype AttachError = InterruptRequestFailed | AnnouncementNotObserved

  /** The one interrupt asked for, if any, was at the completing callback, and its answer is kept. */
  ghost predicate Recorded(outputs: seq<Output>, requested: Option<bv32>, interrupts: seq<nat>) {
    && (requested.Some? <==> Announced(Heard(outputs)))
    && (forall n: nat :: CompletedAt(outputs, n) ==> requested == Some(outputs[n].interrupt))
    && (forall n: nat :: n in interrupts <==> CompletedAt(outputs, n))
    && NoDuplicates(interrupts)
  }

  lemma NextRecorded(outputs: seq<Output>, requested: Option<bv32>, interrupts: seq<nat>, next: Output)
    requires Recorded(outputs, requested, interrupts)
    ensures CompletedAt(outputs + [next], |outputs|) ==> Recorded(outputs + [next], Some(next.interrupt), interrupts + [|outputs|])
    ensures !CompletedAt(outputs + [next], |outputs|) ==> Recorded(outputs + [next], requested, interrupts)
  {
    hide Announced, Heard;
    var longer := outputs + [next];
    forall n: nat | n < |outputs| ensures CompletedAt(longer, n) <==> CompletedAt(outputs, n) {
      LongerRun(outputs, next, n);
    }
    LongerRun(outputs, next, 0);
    CompletesWhenAnnounced(outputs);
    CompletesWhenAnnounced(longer);
    assert |outputs| !in interrupts;
  }

  /** The callback object and what it has recorded. */
  class Observer {
    const notice: Notice
    const hasPrevious: bool
    const previousMask: bv32
    var requested: Option<bv32>
    ghost var outputs: seq<Output>
    ghost var interrupts: seq<nat>

    ghost predicate Valid()
      reads this, notice
    {
      notice.Valid() && notice.heard == Heard(outputs) && Recorded(outputs, requested, interrupts)
    }

    constructor (hasPrevious: bool, previousMask: bv32)
      ensures Valid() && outputs == [] && interrupts == [] && fresh(notice)
      ensures this.hasPrevious == hasPrevious && this.previousMask == previousMask
    {
      notice := new Notice();
      this.hasPrevious, this.previousMask := hasPrevious, previousMask;
      requested, outputs, interrupts := None, [], [];
      new;
      NothingAnnouncesNothing();
    }

    /** `Output`: whether the text is then passed on to the callback that was there before. */
    method Receive(next: Output) returns (forwarded: bool)
      requires Valid()
      modifies this, notice
      ensures Valid() && outputs == old(outputs) + [next]
      ensures forwarded <==> hasPrevious && next.mask & previousMask != 0
    {
      hide Announced, Heard, Recorded, CompletedAt;
      var fire := notice.Feed(next.mask, next.text);
      HeardNext(outputs, next);
      LongerRun(outputs, next, 0);
      NextRecorded(outputs, requested, interrupts, next);
      ghost var position := |outputs|;
      outputs := outputs + [next];
      if fire {
        requested := Some(next.interrupt);
        interrupts := interrupts + [position];
      }
      forwarded := next.mask & previousMask != 0 && hasPrevious;
    }

    /** `validate_observation`: success is an announcement whose interrupt was accepted. */
    method Validate() returns (r: Result<(), AttachError>)
      requires Valid()
      ensures r.Ok? <==> exists n: nat :: CompletedAt(outputs, n) && outputs[n].interrupt == S_OK
      ensures r == Err(AnnouncementNotObserved) <==> !Announced(Heard(outputs))
    {
      hide Announced, Heard;
      CompletesWhenAnnounced(outputs);
      match requested {
        case Some(code) =>
          return if code == S_OK then Ok(()) else Err(InterruptRequestFailed);
        case None =>
          return Err(AnnouncementNotObserved);
      }
    }

    /** Whatever is written, an interrupt is asked for at most once, and exactly when announced. */
    lemma OneInterrupt()
      requires Valid()
      ensures |interrupts| == if Announced(Heard(outputs)) then 1 else 0
    {
      hide Announced, Heard;
      CompletesWhenAnnounced(outputs);
      if |interrupts| > 0 {
        assert interrupts[0] in interrupts;
      }
      if |interrupts| > 1 {
        assert interrupts[1] in interrupts;
        OneCallbackAtMost(outputs, interrupts[0], interrupts[1]);
      }
    }
  }

  lemma HeardNext(outputs: seq<Output>, next: Output)
    ensures Heard(outputs + [next]) == Heard(outputs) + if next.mask == DEBUG_OUTPUT_NORMAL then next.text else []
  {
    assert (outputs + [next])[..|outputs|] == outputs;
  }
}
