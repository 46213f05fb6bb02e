/** The pool snapshot cache, over every run of lookups, refreshes, failures and invalidations. */
module PoolCache {
  import opened Machine
  import opened PoolIndexing

  datatype SessionKey = SessionKey(image: u64, session: u64, target: u64)

  datatype CacheEvent =
    | Built(key: SessionKey, index: PoolIndex)
    | BuildFailed(key: SessionKey)
    | Served(key: SessionKey, index: PoolIndex)
    | Invalidated

  predicate CutShort(index: PoolIndex) { index.budgetExpired || index.stoppedAfterMatches.Some? }

  /** What a run leaves cached. */
  function Kept(history: seq<CacheEvent>): Option<(SessionKey, PoolIndex)> {
    if history == [] then None
    else
      match history[|history| - 1]
      case Built(key, index) => if CutShort(index) then None else Some((key, index))
      case Invalidated => None
      case BuildFailed(_) => Kept(history[..|history| - 1])
      case Served(_, _) => Kept(history[..|history| - 1])
  }

  /** The build at `n` is the latest to succeed, and nothing since has dropped its result. */
  ghost predicate IsLatestBuild(history: seq<CacheEvent>, n: nat, key: SessionKey, index: PoolIndex) {
    && n < |history| && history[n] == Built(key, index) && !CutShort(index)
    && forall m :: n < m < |history| ==> history[m].BuildFailed? || history[m].Served?
  }

  /**
   * What is cached is the index of the most recent successful build, made under its key, not cut
   * short, with no refresh or invalidation since; and when there is such a build, it is cached.
   */
  lemma {:induction false} KeptIsTheLatestBuild(history: seq<CacheEvent>, key: SessionKey, index: PoolIndex)
    ensures Kept(history) == Some((key, index)) <==> exists n: nat :: IsLatestBuild(history, n, key, index)
  {
    if history != [] {
      var last := |history| - 1;
      var init := history[..last];
      KeptIsTheLatestBuild(init, key, index);
      if Kept(history) == Some((key, index)) {
        if history[last].Built? {
          assert IsLatestBuild(history, last, key, index);
        } else {
          var n: nat :| IsLatestBuild(init, n, key, index);
          assert IsLatestBuild(history, n, key, index);
        }
      }
      if n: nat :| IsLatestBuild(history, n, key, index) && n < last {
        assert IsLatestBuild(init, n, key, index);
      }
    }
  }

  ghost function Refreshed(history: seq<CacheEvent>, refresh: bool): seq<CacheEvent> {
    if refresh then history + [Invalidated] else history
  }

  ghost function Outcome<E>(key: SessionKey, r: Result<PoolIndex, E>): CacheEvent {
    if r.Ok? then Built(key, r.value) else BuildFailed(key)
  }

  class SnapshotCache {
    var entry: Option<(SessionKey, PoolIndex)>
    ghost var history: seq<CacheEvent>

    ghost predicate Valid()
      reads this
    {
      entry == Kept(history)
    }

    constructor ()
      ensures Valid() && history == [] && entry == None
    {
      entry, history := None, [];
    }

    method Invalidate()
      requires Valid()
      modifies this
      ensures Valid() && entry == None && history == old(history) + [Invalidated]
    {
      entry := None;
      history := history + [Invalidated];
    }

    /** `get_or_refresh`. `build` is what building would answer; `built` says whether it was asked. */
    method GetOrRefresh<E>(key: SessionKey, refresh: bool, build: Result<PoolSnapshot, E>)
      returns (r: Result<PoolIndex, E>, built: bool)
      requires Valid()
      modifies this
      ensures Valid()
      ensures !built <==> !refresh && old(entry).Some? && old(entry).value.0 == key
      ensures !built ==> r == Ok(old(entry).value.1) && entry == old(entry) && history == old(history) + [Served(key, r.value)]
      ensures !built ==> exists n: nat :: IsLatestBuild(old(history), n, key, r.value)
      ensures built && build.Err? ==> r == Err(build.error) && entry == if refresh then None else old(entry)
      ensures built && build.Ok? ==> r.Ok? && Indexes(build.value, r.value)
      ensures built && build.Ok? ==> entry == if build.value.CutShort() then None else Some((key, r.value))
      ensures built ==> history == Refreshed(old(history), refresh) + [Outcome(key, r)]
    {
      hide Indexes;
      if refresh {
        Invalidate();
      }
      if !refresh && entry.Some? && entry.value.0 == key {
        KeptIsTheLatestBuild(history, key, entry.value.1);
        r, built := Ok(entry.value.1), false;
        history := history + [Served(key, entry.value.1)];
        assert history[..|history| - 1] == old(history);
        return;
      }
      built := true;
      ghost var before := history;
      if build.Err? {
        history := history + [BuildFailed(key)];
        assert history[..|history| - 1] == before;
        return Err(build.error), built;
      }
      var index := Build(build.value);
      SameEnding(build.value, index);
      if !build.value.CutShort() {
        entry := Some((key, index));
      } else {
        entry := None;
      }
      history := history + [Built(key, index)];
      r := Ok(index);
    }
  }

  lemma SameEnding(snapshot: PoolSnapshot, index: PoolIndex)
    requires Indexes(snapshot, index)
    ensures CutShort(index) <==> snapshot.CutShort()
  {
    hide Posted;
  }
}
