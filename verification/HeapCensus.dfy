/** `census_of`: allocations aggregated by heap, backend, state and size class. */
module HeapCensus {
  import opened Machine
  import opened Sorting
  import opened HeapSnapshots

  datatype CensusKey = CensusKey(heap: u64, backend: HeapBackend, state: HeapState, sizeClass: u32)

  datatype CensusRow = CensusRow(key: CensusKey, chunks: nat, totalCapacity: u64)

  function KeyOf(a: HeapAllocation): CensusKey {
    CensusKey(a.heap, a.backend, a.state, a.sizeClass)
  }

  function BackendRank(b: HeapBackend): int {
    match b case Lfh => 0 case Vs => 1 case Segment => 2 case Large => 3
  }

  function StateRank(s: HeapState): int {
    match s case Allocated => 0 case ReusableFree => 1 case CachedFree => 2 case Unreadable => 3 case Uncommitted => 4
  }

  /** Largest capacity first, then most chunks, then the key's own order. */
  function RowOrder(row: CensusRow): (r: seq<int>)
    ensures |r| == 6
  {
    [-(row.totalCapacity as int), -(row.chunks as int), row.key.heap, BackendRank(row.key.backend), StateRank(row.key.state), row.key.sizeClass]
  }

  predicate RowLe(a: CensusRow, b: CensusRow) { LexLe(RowOrder(a), RowOrder(b)) }

  lemma RowLeIsTotal()
    ensures TotalPreorder(RowLe) && Antisymmetric(RowLe)
  {
    forall a, b ensures RowLe(a, b) || RowLe(b, a) {
      LexIsTotal(RowOrder(a), RowOrder(b));
    }
    forall a, b | RowLe(a, b) && RowLe(b, a) ensures a == b {
      LexIsTotal(RowOrder(a), RowOrder(b));
      assert forall i :: 0 <= i < 6 ==> RowOrder(a)[i] == RowOrder(b)[i];
    }
    forall a, b, c | RowLe(a, b) && RowLe(b, c) ensures RowLe(a, c) {
      LexIsTransitive(RowOrder(a), RowOrder(b), RowOrder(c));
    }
  }

  // ----- What the census says

  function Chunks(allocations: seq<HeapAllocation>, key: CensusKey): nat {
    if allocations == [] then 0
    else Chunks(allocations[..|allocations| - 1], key) + (if KeyOf(allocations[|allocations| - 1]) == key then 1 else 0)
  }

  /** The true sum of a key's capacities, whatever its size. */
  function Capacity(allocations: seq<HeapAllocation>, key: CensusKey): nat {
    if allocations == [] then 0
    else
      var last := allocations[|allocations| - 1];
      Capacity(allocations[..|allocations| - 1], key) + (if KeyOf(last) == key then last.capacity else 0)
  }

  function RowFor(allocations: seq<HeapAllocation>, key: CensusKey): CensusRow {
    var sum := Capacity(allocations, key);
    CensusRow(key, Chunks(allocations, key), if sum > MAX_U64 then MAX_U64 else sum)
  }

  ghost function Keys(allocations: seq<HeapAllocation>): set<CensusKey> {
    set i | 0 <= i < |allocations| :: KeyOf(allocations[i])
  }

  ghost function RowSet(allocations: seq<HeapAllocation>): set<CensusRow> {
    set key | key in Keys(allocations) :: RowFor(allocations, key)
  }

  /** One row for each key that occurs, each once, in order. */
  ghost predicate IsCensus(allocations: seq<HeapAllocation>, rows: seq<CensusRow>) {
    SortedBy(rows, RowLe) && multiset(rows) == multiset(RowSet(allocations))
  }

  // ----- What its rows are, field by field

  /** The allocation is one of those a row is of. */
  predicate Belongs(a: HeapAllocation, row: CensusRow) {
    a.heap == row.key.heap && a.backend == row.key.backend && a.state == row.key.state && a.sizeClass == row.key.sizeClass
  }

  function Members(allocations: seq<HeapAllocation>, row: CensusRow): seq<HeapAllocation> {
    if allocations == [] then []
    else
      var last := allocations[|allocations| - 1];
      Members(allocations[..|allocations| - 1], row) + if Belongs(last, row) then [last] else []
  }

  function Total(allocations: seq<HeapAllocation>): nat {
    if allocations == [] then 0 else Total(allocations[..|allocations| - 1]) + allocations[|allocations| - 1].capacity
  }

  predicate BackendNoLater(a: HeapBackend, b: HeapBackend) { a == b || a.Lfh? || b.Large? || (a.Vs? && b.Segment?) }

  predicate StateNoLater(a: HeapState, b: HeapState) {
    a == b || a.Allocated? || b.Uncommitted? || (a.ReusableFree? && !b.Allocated?) || (a.CachedFree? && b.Unreadable?)
  }

  /** The larger first, then the one of more chunks, then by heap, backend, state and size class. */
  predicate NoSmaller(a: CensusRow, b: CensusRow) {
    if a.totalCapacity != b.totalCapacity then a.totalCapacity > b.totalCapacity
    else if a.chunks != b.chunks then a.chunks > b.chunks
    else if a.key.heap != b.key.heap then a.key.heap < b.key.heap
    else if a.key.backend != b.key.backend then BackendNoLater(a.key.backend, b.key.backend)
    else if a.key.state != b.key.state then StateNoLater(a.key.state, b.key.state)
    else a.key.sizeClass <= b.key.sizeClass
  }

  /** Each allocation is counted in one row, each row counts its own allocations, and the largest comes first. */
  ghost predicate Tallies(allocations: seq<HeapAllocation>, rows: seq<CensusRow>) {
    && (forall a :: a in allocations ==> exists row :: row in rows && Belongs(a, row))
    && (forall i, j, a :: 0 <= i < j < |rows| && Belongs(a, rows[i]) ==> !Belongs(a, rows[j]))
    && (forall row :: row in rows ==> RowTallies(allocations, row))
    && forall i, j :: 0 <= i < j < |rows| ==> NoSmaller(rows[i], rows[j])
  }

  ghost predicate RowTallies(allocations: seq<HeapAllocation>, row: CensusRow) {
    var members := Members(allocations, row);
    row.chunks == |members| > 0 && row.totalCapacity == if Total(members) > MAX_U64 then MAX_U64 else Total(members)
  }

  lemma {:induction false} MembersAreCounted(allocations: seq<HeapAllocation>, row: CensusRow)
    ensures |Members(allocations, row)| == Chunks(allocations, row.key) && Total(Members(allocations, row)) == Capacity(allocations, row.key)
  {
    if allocations != [] {
      var n := |allocations| - 1;
      MembersAreCounted(allocations[..n], row);
      var members := Members(allocations[..n], row);
      assert (members + [allocations[n]])[..|members|] == members;
      assert members + [] == members;
      assert Belongs(allocations[n], row) <==> KeyOf(allocations[n]) == row.key;
      assert Belongs(allocations[n], row) ==> Total(members + [allocations[n]]) == Total(members) + allocations[n].capacity;
    }
  }

  lemma {:induction false} KeyIsCounted(allocations: seq<HeapAllocation>, key: CensusKey)
    requires key in Keys(allocations)
    ensures Chunks(allocations, key) > 0
  {
    var n := |allocations| - 1;
    if KeyOf(allocations[n]) != key {
      var i :| 0 <= i < |allocations| && KeyOf(allocations[i]) == key;
      assert allocations[..n][i] == allocations[i];
      KeyIsCounted(allocations[..n], key);
    }
  }

  lemma OrderedIsNoSmaller(a: CensusRow, b: CensusRow)
    requires RowLe(a, b)
    ensures NoSmaller(a, b)
  {
    var x, y := RowOrder(a), RowOrder(b);
    var k := Decided(x, y);
    assert x[1] + a.chunks == 0 && y[1] + b.chunks == 0 && x[2] == a.key.heap && y[2] == b.key.heap;
    assert x[3] == BackendRank(a.key.backend) && y[3] == BackendRank(b.key.backend);
    assert x[4] == StateRank(a.key.state) && y[4] == StateRank(b.key.state) && x[5] == a.key.sizeClass && y[5] == b.key.sizeClass;
  }

  lemma CensusTallies(allocations: seq<HeapAllocation>, rows: seq<CensusRow>)
    requires IsCensus(allocations, rows)
    ensures Tallies(allocations, rows)
  {
    hide RowLe, NoSmaller, Chunks, Capacity, Members, Total;
    forall row ensures row in rows <==> row in RowSet(allocations) {
      assert row in multiset(rows) <==> row in multiset(RowSet(allocations));
    }
    forall a | a in allocations ensures exists row :: row in rows && Belongs(a, row) {
      var row := RowFor(allocations, KeyOf(a));
      assert KeyOf(a) in Keys(allocations);
      assert row in rows && Belongs(a, row);
    }
    forall row | row in rows ensures RowTallies(allocations, row) {
      MembersAreCounted(allocations, row);
      KeyIsCounted(allocations, row.key);
    }
    forall i, j, a | 0 <= i < j < |rows| && Belongs(a, rows[i]) ensures !Belongs(a, rows[j]) {
      RowsAreApart(allocations, rows, i, j);
    }
    forall i, j | 0 <= i < j < |rows| ensures NoSmaller(rows[i], rows[j]) {
      OrderedIsNoSmaller(rows[i], rows[j]);
    }
  }

  lemma RowsAreApart(allocations: seq<HeapAllocation>, rows: seq<CensusRow>, i: nat, j: nat)
    requires IsCensus(allocations, rows) && i < j < |rows|
    ensures rows[i].key != rows[j].key
  {
    hide RowLe, Chunks, Capacity;
    assert rows == rows[..i] + [rows[i]] + rows[i + 1..j] + [rows[j]] + rows[j + 1..];
    assert rows[i] in multiset(rows) && rows[j] in multiset(rows);
    assert multiset(rows)[rows[i]] <= 1;
    assert rows[i] == rows[j] ==> multiset(rows)[rows[i]] >= 2;
  }

  // ----- The census does not depend on order

  lemma {:induction false} TakingOneOut(s: seq<HeapAllocation>, i: nat, key: CensusKey)
    requires i < |s|
    ensures Chunks(s, key) == Chunks(s[..i] + s[i + 1..], key) + (if KeyOf(s[i]) == key then 1 else 0)
    ensures Capacity(s, key) == Capacity(s[..i] + s[i + 1..], key) + (if KeyOf(s[i]) == key then s[i].capacity else 0)
  {
    hide Chunks, Capacity, KeyOf;
    var n := |s| - 1;
    LastIsCounted(s, key);
    if i == n {
      assert s[..i] + s[i + 1..] == s[..n];
    } else {
      TakingOneOut(s[..n], i, key);
      var rest := s[..i] + s[i + 1..];
      assert rest[..n - 1] == s[..n][..i] + s[..n][i + 1..];
      assert rest[n - 1] == s[n];
      LastIsCounted(rest, key);
    }
  }

  lemma LastIsCounted(s: seq<HeapAllocation>, key: CensusKey)
    requires s != []
    ensures var n := |s| - 1;
      && Chunks(s, key) == Chunks(s[..n], key) + (if KeyOf(s[n]) == key then 1 else 0)
      && Capacity(s, key) == Capacity(s[..n], key) + (if KeyOf(s[n]) == key then s[n].capacity else 0)
  {
  }

  lemma OneOut<T>(s: seq<T>, i: nat)
    requires i < |s|
    ensures multiset(s[..i] + s[i + 1..]) == multiset(s) - multiset{s[i]}
  {
    assert s == s[..i] + [s[i]] + s[i + 1..];
  }

  lemma {:induction false} SumsIgnoreOrder(a: seq<HeapAllocation>, b: seq<HeapAllocation>, key: CensusKey)
    requires multiset(a) == multiset(b)
    ensures RowFor(a, key) == RowFor(b, key)
    ensures Chunks(a, key) == Chunks(b, key) && Capacity(a, key) == Capacity(b, key)
  {
    if a == [] {
      assert |multiset(b)| == 0;
    } else {
      var n := |a| - 1;
      assert a[n] in multiset(b);
      var i :| 0 <= i < |b| && b[i] == a[n];
      OneOut(a, n);
      OneOut(b, i);
      assert a[..n] + a[n + 1..] == a[..n];
      SumsIgnoreOrder(a[..n], b[..i] + b[i + 1..], key);
      TakingOneOut(b, i, key);
    }
  }

  lemma KeysIgnoreOrder(a: seq<HeapAllocation>, b: seq<HeapAllocation>)
    requires multiset(a) == multiset(b)
    ensures Keys(a) <= Keys(b)
  {
    forall key | key in Keys(a) ensures key in Keys(b) {
      var i :| 0 <= i < |a| && KeyOf(a[i]) == key;
      assert a[i] in multiset(b);
      var j :| 0 <= j < |b| && b[j] == a[i];
    }
  }

  /** Permuting the allocations, or visiting the table in another order, gives the same rows. */
  lemma CensusIsUnique(a: seq<HeapAllocation>, b: seq<HeapAllocation>, rowsA: seq<CensusRow>, rowsB: seq<CensusRow>)
    requires multiset(a) == multiset(b) && IsCensus(a, rowsA) && IsCensus(b, rowsB)
    ensures rowsA == rowsB
  {
    hide RowLe;
    KeysIgnoreOrder(a, b);
    KeysIgnoreOrder(b, a);
    forall key ensures RowFor(a, key) == RowFor(b, key) {
      SumsIgnoreOrder(a, b, key);
    }
    assert RowSet(a) == RowSet(b);
    RowLeIsTotal();
    SortedIsUnique(rowsA, rowsB, RowLe);
  }

  // ----- The census loses and invents nothing

  function SumOfChunks(rows: seq<CensusRow>): nat {
    if rows == [] then 0 else rows[0].chunks + SumOfChunks(rows[1..])
  }

  function RowKeys(rows: seq<CensusRow>): seq<CensusKey> {
    seq(|rows|, i requires 0 <= i < |rows| => rows[i].key)
  }

  function CountOver(allocations: seq<HeapAllocation>, keys: seq<CensusKey>): nat {
    if keys == [] then 0 else Chunks(allocations, keys[0]) + CountOver(allocations, keys[1..])
  }

  lemma {:induction false} OneMore(allocations: seq<HeapAllocation>, keys: seq<CensusKey>)
    requires allocations != [] && NoDuplicates(keys)
    ensures CountOver(allocations, keys) ==
      CountOver(allocations[..|allocations| - 1], keys) + (if KeyOf(allocations[|allocations| - 1]) in keys then 1 else 0)
  {
    if keys != [] {
      OneMore(allocations, keys[1..]);
    }
  }

  lemma {:induction false} EveryOneCounted(allocations: seq<HeapAllocation>, keys: seq<CensusKey>)
    requires NoDuplicates(keys) && forall i :: 0 <= i < |allocations| ==> KeyOf(allocations[i]) in keys
    ensures CountOver(allocations, keys) == |allocations|
  {
    if allocations == [] {
      NothingCounted(keys);
    } else {
      OneMore(allocations, keys);
      EveryOneCounted(allocations[..|allocations| - 1], keys);
    }
  }

  lemma {:induction false} NothingCounted(keys: seq<CensusKey>)
    ensures CountOver([], keys) == 0
  {
    if keys != [] {
      NothingCounted(keys[1..]);
    }
  }

  lemma {:induction false} RowsCount(allocations: seq<HeapAllocation>, rows: seq<CensusRow>)
    requires forall i :: 0 <= i < |rows| ==> rows[i] == RowFor(allocations, rows[i].key)
    ensures SumOfChunks(rows) == CountOver(allocations, RowKeys(rows))
  {
    if rows != [] {
      RowsCount(allocations, rows[1..]);
      assert RowKeys(rows)[1..] == RowKeys(rows[1..]);
    }
  }

  /** A sequence holding each element of a set once has no duplicates. */
  lemma OnceEach<T>(s: seq<T>, elements: set<T>)
    requires multiset(s) == multiset(elements)
    ensures NoDuplicates(s) && forall x :: x in s <==> x in elements
  {
    forall i, j | 0 <= i < j < |s| ensures s[i] != s[j] {
      assert s == s[..i] + [s[i]] + s[i + 1..j] + [s[j]] + s[j + 1..];
      assert multiset(s) == multiset(s[..i]) + multiset{s[i]} + multiset(s[i + 1..j]) + multiset{s[j]} + multiset(s[j + 1..]);
      assert multiset(elements)[s[i]] <= 1;
    }
    forall x ensures x in s <==> x in elements {
      assert x in s <==> x in multiset(s);
    }
  }

  /** Every row is the true total of its key, no key has two rows, and the chunks add up. */
  lemma CensusConserves(allocations: seq<HeapAllocation>, rows: seq<CensusRow>)
    requires IsCensus(allocations, rows)
    ensures forall row :: row in rows ==> row == RowFor(allocations, row.key) && row.key in Keys(allocations)
    ensures forall i, j :: 0 <= i < j < |rows| ==> rows[i].key != rows[j].key
    ensures SumOfChunks(rows) == |allocations|
  {
    hide RowFor, SumOfChunks, CountOver, RowLe, Keys, RowSet;
    OnceEach(rows, RowSet(allocations));
    var keys := RowKeys(rows);
    forall row | row in rows ensures row == RowFor(allocations, row.key) && row.key in Keys(allocations) {
      RowKnowsItsKey(allocations, row);
    }
    forall i | 0 <= i < |allocations| ensures KeyOf(allocations[i]) in keys {
      KeyHasItsRow(allocations, rows, i);
    }
    forall i, j | 0 <= i < j < |keys| ensures keys[i] != keys[j] {
      assert rows[i] in rows && rows[j] in rows;
    }
    RowsCount(allocations, rows);
    EveryOneCounted(allocations, keys);
  }

  lemma KeyHasItsRow(allocations: seq<HeapAllocation>, rows: seq<CensusRow>, i: nat)
    requires i < |allocations| && forall row :: row in RowSet(allocations) ==> row in rows
    ensures KeyOf(allocations[i]) in RowKeys(rows)
  {
    var key := KeyOf(allocations[i]);
    assert key in Keys(allocations);
    assert RowFor(allocations, key) in RowSet(allocations);
    var j :| 0 <= j < |rows| && rows[j] == RowFor(allocations, key);
    assert RowKeys(rows)[j] == key;
  }

  lemma RowForHasKey(allocations: seq<HeapAllocation>, key: CensusKey)
    ensures RowFor(allocations, key).key == key
  {
  }

  lemma RowKnowsItsKey(allocations: seq<HeapAllocation>, row: CensusRow)
    requires row in RowSet(allocations)
    ensures row == RowFor(allocations, row.key) && row.key in Keys(allocations)
  {
  }

  // ----- The aggregation

  /** The table part-way: a row for each key met, holding its totals so far. */
  ghost predicate Tabulates(allocations: seq<HeapAllocation>, table: map<CensusKey, CensusRow>) {
    && table.Keys == Keys(allocations)
    && forall key :: key in table ==> table[key] == RowFor(allocations, key)
  }

  lemma TableGrows(allocations: seq<HeapAllocation>, n: nat, table: map<CensusKey, CensusRow>, row: CensusRow)
    requires n < |allocations| && Tabulates(allocations[..n], table)
    requires
      var key := KeyOf(allocations[n]);
      var soFar := if key in table then table[key] else CensusRow(key, 0, 0);
      row == CensusRow(key, soFar.chunks + 1, SaturatingAdd(soFar.totalCapacity, allocations[n].capacity))
    ensures Tabulates(allocations[..n + 1], table[KeyOf(allocations[n]) := row])
  {
    var before, after := allocations[..n], allocations[..n + 1];
    assert after[..n] == before && after[n] == allocations[n];
    var key := KeyOf(allocations[n]);
    if key !in table {
      AbsentCountsNothing(before, key);
    }
    forall other | other in Keys(after) && other != key ensures other in Keys(before) {
      var i :| 0 <= i < |after| && KeyOf(after[i]) == other;
      assert before[i] == after[i];
    }
    forall other | other in Keys(before) ensures other in Keys(after) {
      var i :| 0 <= i < |before| && KeyOf(before[i]) == other;
      assert before[i] == after[i];
    }
  }

  lemma {:induction false} AbsentCountsNothing(allocations: seq<HeapAllocation>, key: CensusKey)
    requires key !in Keys(allocations)
    ensures Chunks(allocations, key) == 0 && Capacity(allocations, key) == 0
  {
    if allocations != [] {
      var n := |allocations| - 1;
      assert KeyOf(allocations[n]) in Keys(allocations);
      forall i | 0 <= i < n ensures KeyOf(allocations[..n][i]) != key {
        assert KeyOf(allocations[i]) in Keys(allocations);
      }
      AbsentCountsNothing(allocations[..n], key);
    }
  }

  /** `census_of`. The table's rows come out of it in no particular order. */
  method CensusOf(allocations: seq<HeapAllocation>) returns (rows: seq<CensusRow>)
    ensures IsCensus(allocations, rows) && Tallies(allocations, rows)
  {
    var table: map<CensusKey, CensusRow> := map[];
    hide RowFor, RowLe, Tallies;
    for n := 0 to |allocations|
      invariant Tabulates(allocations[..n], table)
    {
      var key := KeyOf(allocations[n]);
      var row := if key in table then table[key] else CensusRow(key, 0, 0);
      row := row.(chunks := row.chunks + 1, totalCapacity := SaturatingAdd(row.totalCapacity, allocations[n].capacity));
      if key in table {
        RowForHasKey(allocations[..n], key);
      }
      TableGrows(allocations, n, table, row);
      table := table[key := row];
    }
    assert allocations[..|allocations|] == allocations;
    var keys, values := table.Keys, [];
    while keys != {}
      invariant keys <= table.Keys
      invariant multiset(values) == multiset(set key | key in table.Keys - keys :: RowFor(allocations, key))
      decreases keys
    {
      var key :| key in keys;
      DrawRow(allocations, table.Keys - keys, key);
      values := values + [table[key]];
      keys := keys - {key};
      assert table.Keys - keys == (table.Keys - (keys + {key})) + {key};
    }
    assert table.Keys - keys == Keys(allocations);
    RowLeIsTotal();
    SortSorts(values, RowLe);
    SortKeeps(values, RowLe);
    rows := Sort(values, RowLe);
    CensusTallies(allocations, rows);
  }

  lemma DrawRow(allocations: seq<HeapAllocation>, drawn: set<CensusKey>, key: CensusKey)
    requires key !in drawn
    ensures multiset(set k | k in drawn + {key} :: RowFor(allocations, k))
         == multiset(set k | k in drawn :: RowFor(allocations, k)) + multiset{RowFor(allocations, key)}
  {
    hide Chunks, Capacity;
    var before := set k | k in drawn :: RowFor(allocations, k);
    assert RowFor(allocations, key) !in before;
    assert (set k | k in drawn + {key} :: RowFor(allocations, k)) == before + {RowFor(allocations, key)};
  }
}
