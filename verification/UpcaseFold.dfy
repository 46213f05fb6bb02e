/**
 * The name fold of the object manager, over whichever machine's upcase table answers.
 *
 * The target's table is an 8-4-4 trie read lazily, three elements for each code unit, and every
 * fold is remembered. `Upcase` is that memo over a target that may be changing under it.
 */
module UpcaseFold {
  import opened Machine
  import opened Session

  /** Where a target keeps its table. */
  datatype UpcaseTable = UpcaseTable(siloGlobals: u64, nlsState: u32, upcaseTable: u32) {
    function PointerAt(): u64 { Wrap(Wrap(siloGlobals + nlsState) + upcaseTable) }
  }

  datatype UpcaseFrom = FromTarget(at: u64) | Mixed(at: u64) | FromHost

  // ----- The trie

  /** One 16-bit element of the table, as the target answers for it at a moment. */
  function Element(answers: Answers, t: nat, base: u64, index: nat): Option<u16> {
    var bytes := answers(t, Wrap(base + 2 * index), 2);
    if bytes.Some? && |bytes.value| >= 2 then Some(U16(bytes.value)) else None
  }

  /** One code unit through the trie, its three reads made at successive moments. */
  function FromTrie(answers: Answers, t: nat, base: u64, unit: u16): Option<u16> {
    match Element(answers, t, base, unit / 0x100)
    case None => None
    case Some(level1) =>
      match Element(answers, t + 1, base, level1 + (unit / 0x10) % 0x10)
      case None => None
      case Some(level2) =>
        match Element(answers, t + 2, base, level2 + unit % 0x10)
        case None => None
        case Some(delta) => Some((unit + delta) % 0x1_0000)
  }

  /** The reads of such a walk, as far as it went, are among those made. */
  ghost predicate WalkMade(answers: Answers, made: seq<Event>, t: nat, base: u64, unit: u16) {
    var level1 := Element(answers, t, base, unit / 0x100);
    && Read(t, Wrap(base + 2 * (unit / 0x100)), 2) in made
    && (level1.Some? ==>
          var level2 := Element(answers, t + 1, base, level1.value + (unit / 0x10) % 0x10);
          && Read(t + 1, Wrap(base + 2 * (level1.value + (unit / 0x10) % 0x10)), 2) in made
          && (level2.Some? ==> Read(t + 2, Wrap(base + 2 * (level2.value + unit % 0x10)), 2) in made))
  }

  lemma WalkStaysMade(answers: Answers, made: seq<Event>, more: seq<Event>, t: nat, base: u64, unit: u16)
    requires WalkMade(answers, made, t, base, unit)
    ensures WalkMade(answers, made + more, t, base, unit)
  {
    hide Element;
  }

  lemma LaterWalkMade(answers: Answers, made: seq<Event>, more: seq<Event>, t: nat, base: u64, unit: u16)
    requires WalkMade(answers, more, t, base, unit)
    ensures WalkMade(answers, made + more, t, base, unit)
  {
    hide Element;
  }

  function AlwaysAnswers(mem: Memory): Answers { (t: nat, a: int, n: nat) => mem(a, n) }

  /** `from_table` over memory that holds still. */
  function FromTable(mem: Memory, base: u64, unit: u16): Option<u16> {
    FromTrie(AlwaysAnswers(mem), 0, base, unit)
  }

  lemma SteadyTrie(answers: Answers, mem: Memory, t: nat, base: u64, unit: u16)
    requires Steady(answers, mem)
    ensures FromTrie(answers, t, base, unit) == FromTable(mem, base, unit)
  {
  }

  /** The table's address, as the target answers for the pointer to it. */
  function BaseAt(answers: Answers, t: nat, table: UpcaseTable, pointer: nat): Option<u64> {
    var bytes := answers(t, table.PointerAt(), pointer);
    if pointer == 4 then
      if bytes.Some? && |bytes.value| >= 4 then Some(U32(bytes.value)) else None
    else if pointer == 8 then
      if bytes.Some? && |bytes.value| >= 8 then Some(U64(bytes.value)) else None
    else None
  }

  /** The two bands that consult no table. */
  predicate BelowTheTable(unit: u16) { unit < 0xc0 }

  function FoldBelow(unit: u16): u16
    requires BelowTheTable(unit)
  {
    if 0x61 <= unit <= 0x7a then unit - 0x20 else unit
  }

  /** One character, or the two cases of one Latin letter. */
  predicate SameLetter(one: u16, other: u16) {
    one == other || (0x61 <= one <= 0x7a && other == one - 0x20) || (0x61 <= other <= 0x7a && one == other - 0x20)
  }

  /** Below the table's floor two units fold alike exactly when they are one letter, and no lower case is left. */
  lemma LettersFold(one: u16, other: u16)
    requires one < 0xc0 && other < 0xc0
    ensures BelowTheTable(one) && BelowTheTable(other)
    ensures FoldBelow(one) == FoldBelow(other) <==> SameLetter(one, other)
    ensures !(0x61 <= FoldBelow(one) <= 0x7a)
  {
  }

  predicate Plain(name: seq<u16>) { forall i :: 0 <= i < |name| ==> name[i] < 0xc0 }

  /** Equal up to the case of Latin letters. */
  predicate SameButCase(one: seq<u16>, other: seq<u16>) {
    |one| == |other| && forall i :: 0 <= i < |one| ==> SameLetter(one[i], other[i])
  }

  lemma PlainNamesFold(one: seq<u16>, other: seq<u16>, left: seq<u16>, right: seq<u16>)
    requires Plain(one) && Plain(other) && |left| == |one| && |right| == |other|
    requires forall i :: 0 <= i < |one| ==> BelowTheTable(one[i]) && left[i] == FoldBelow(one[i])
    requires forall i :: 0 <= i < |other| ==> BelowTheTable(other[i]) && right[i] == FoldBelow(other[i])
    ensures left == right <==> SameButCase(one, other)
  {
    hide FoldBelow, SameLetter;
    forall i | 0 <= i < |one| && i < |other| ensures left[i] == right[i] <==> SameLetter(one[i], other[i]) {
      LettersFold(one[i], other[i]);
    }
  }

  // ----- The memo

  /** Which tables a fold may answer from: the target's, where it says one is, and the host's. */
  datatype Tables = Tables(answers: Answers, table: Option<UpcaseTable>, pointer: nat, host: u16 -> u16)

  /** What has been resolved so far. A `base` not yet asked for differs from one that did not answer. */
  datatype Known = Known(base: Option<Option<u64>>, units: map<u16, u16>, hostFolded: bool)

  /** How a remembered unit came to be folded. */
  datatype Origin = TableAnswered(tick: nat) | TableIsNull | TableMissed(tick: nat) | NoTable

  /** The account kept beside the memo: when and from where each answer came, every fold given, and every read made for them. */
  datatype Ledger = Ledger(baseTick: nat, origins: map<u16, Origin>, history: seq<(u16, u16)>, made: seq<Event>)

  ghost predicate HasTable(k: Known) {
    k.base.Some? && k.base.value.Some? && k.base.value.value != 0
  }

  /** A remembered fold is what its origin says it is, and the walk its origin names is one that was made. */
  ghost predicate Explained(f: Tables, k: Known, made: seq<Event>, unit: u16, folded: u16, origin: Origin) {
    match origin
    case TableAnswered(t) => HasTable(k) && WalkFound(f, made, t, k.base.value.value, unit, Some(folded))
    case TableIsNull => k.base == Some(Some(0)) && folded == unit
    case TableMissed(t) => HasTable(k) && k.hostFolded && WalkFound(f, made, t, k.base.value.value, unit, None) && folded == f.host(unit)
    case NoTable => (f.table.None? || k.base == Some(None)) && folded == f.host(unit)
  }

  /** A walk of the table was made at this moment, and this is what it found. */
  ghost predicate WalkFound(f: Tables, made: seq<Event>, t: nat, base: u64, unit: u16, found: Option<u16>) {
    WalkMade(f.answers, made, t, base, unit) && FromTrie(f.answers, t, base, unit) == found
  }

  /** The answer every fold of a unit gives, once it has been folded. */
  ghost predicate Gives(k: Known, unit: u16, folded: u16) {
    if BelowTheTable(unit) then folded == FoldBelow(unit) else unit in k.units && k.units[unit] == folded
  }

  ghost predicate UnitsExplained(f: Tables, k: Known, made: seq<Event>, origins: map<u16, Origin>) {
    && origins.Keys == k.units.Keys
    && (forall u :: u in k.units ==> !BelowTheTable(u) && Explained(f, k, made, u, k.units[u], origins[u]))
    && (k.hostFolded ==> exists u :: u in origins && origins[u].TableMissed?)
  }

  /** The distinct units a run has folded in the table's band. */
  ghost function TableUnits(history: seq<(u16, u16)>): set<u16> {
    set i | 0 <= i < |history| && !BelowTheTable(history[i].0) :: history[i].0
  }

  ghost predicate HistoryHolds(k: Known, history: seq<(u16, u16)>) {
    && (forall i :: 0 <= i < |history| ==> Gives(k, history[i].0, history[i].1))
    && k.units.Keys == TableUnits(history)
  }

  /** The pointer to the table was read at the moment its answer is kept from, if its width is one that can be. */
  ghost predicate BaseMade(f: Tables, l: Ledger)
    requires f.table.Some?
  {
    f.pointer == 4 || f.pointer == 8 ==> Read(l.baseTick, f.table.value.PointerAt(), f.pointer) in l.made
  }

  ghost predicate BaseHolds(f: Tables, k: Known, l: Ledger) {
    && (f.table.None? ==> k.base.None?)
    && (k.base.Some? ==> f.table.Some? && k.base.value == BaseAt(f.answers, l.baseTick, f.table.value, f.pointer) && BaseMade(f, l))
  }

  /** Three reads for each distinct unit in the table's band, and one for the table itself. */
  ghost predicate WithinBudget(k: Known, l: Ledger) {
    |l.made| <= (if k.base.Some? then 1 else 0) + 3 * |TableUnits(l.history)|
  }

  ghost predicate Sound(f: Tables, k: Known, l: Ledger) {
    UnitsExplained(f, k, l.made, l.origins) && HistoryHolds(k, l.history) && BaseHolds(f, k, l) && WithinBudget(k, l)
  }

  /** What no later fold undoes: the table's address, the host's part in it, and every answer given. */
  ghost predicate Grew(k: Known, k': Known) {
    && (k.base.Some? ==> k'.base == k.base)
    && (k.hostFolded ==> k'.hostFolded)
    && (forall u :: u in k.units ==> u in k'.units && k'.units[u] == k.units[u])
  }

  lemma HistoryGrows(k: Known, k': Known, history: seq<(u16, u16)>, unit: u16, folded: u16)
    requires Grew(k, k') && HistoryHolds(k, history) && Gives(k', unit, folded)
    requires k'.units.Keys == k.units.Keys + (if BelowTheTable(unit) then {} else {unit})
    ensures HistoryHolds(k', history + [(unit, folded)])
    ensures TableUnits(history + [(unit, folded)]) == TableUnits(history) + (if BelowTheTable(unit) then {} else {unit})
  {
    var longer := history + [(unit, folded)];
    assert longer[|history|].0 == unit;
    forall u | u in TableUnits(history) ensures u in TableUnits(longer) {
      var i :| 0 <= i < |history| && !BelowTheTable(history[i].0) && history[i].0 == u;
      assert longer[i].0 == u;
    }
  }

  lemma BaseResolved(f: Tables, k: Known, l: Ledger, tick: nat, more: seq<Event>)
    requires Sound(f, k, l) && k.base.None? && f.table.Some? && |more| <= 1
    requires f.pointer == 4 || f.pointer == 8 ==> more == [Read(tick, f.table.value.PointerAt(), f.pointer)]
    ensures
      var k' := k.(base := Some(BaseAt(f.answers, tick, f.table.value, f.pointer)));
      Sound(f, k', l.(baseTick := tick, made := l.made + more)) && Grew(k, k')
  {
    hide WalkFound, BaseAt;
  }

  lemma StillExplained(f: Tables, k: Known, k': Known, made: seq<Event>, more: seq<Event>, unit: u16, folded: u16, origin: Origin)
    requires Explained(f, k, made, unit, folded, origin) && k'.base == k.base && (k.hostFolded ==> k'.hostFolded)
    ensures Explained(f, k', made + more, unit, folded, origin)
  {
    hide FromTrie, WalkMade;
    match origin
    case TableAnswered(t) => WalkStaysMade(f.answers, made, more, t, k.base.value.value, unit);
    case TableMissed(t) => WalkStaysMade(f.answers, made, more, t, k.base.value.value, unit);
    case TableIsNull =>
    case NoTable =>
  }

  lemma UnitsStillExplained(f: Tables, k: Known, made: seq<Event>, more: seq<Event>, origins: map<u16, Origin>, unit: u16, folded: u16, origin: Origin)
    requires UnitsExplained(f, k, made, origins) && !BelowTheTable(unit) && unit !in k.units
    requires Explained(f, k.(hostFolded := k.hostFolded || origin.TableMissed?), made + more, unit, folded, origin)
    ensures UnitsExplained(f, Known(k.base, k.units[unit := folded], k.hostFolded || origin.TableMissed?), made + more, origins[unit := origin])
  {
    hide Explained;
    var k' := Known(k.base, k.units[unit := folded], k.hostFolded || origin.TableMissed?);
    var longer := origins[unit := origin];
    forall u | u in k'.units ensures Explained(f, k', made + more, u, k'.units[u], longer[u]) {
      if u == unit {
        assert made + more + [] == made + more;
        StillExplained(f, k.(hostFolded := k'.hostFolded), k', made + more, [], unit, folded, origin);
      } else {
        StillExplained(f, k, k', made, more, u, k.units[u], origins[u]);
      }
    }
    if k.hostFolded {
      var u :| u in origins && origins[u].TableMissed?;
      assert longer[u].TableMissed?;
    } else if origin.TableMissed? {
      assert longer[unit].TableMissed?;
    }
  }

  lemma UnitLearned(f: Tables, k: Known, l: Ledger, unit: u16, folded: u16, origin: Origin, more: seq<Event>)
    requires Sound(f, k, l) && !BelowTheTable(unit) && unit !in k.units && |more| <= 3
    requires Explained(f, k.(hostFolded := k.hostFolded || origin.TableMissed?), l.made + more, unit, folded, origin)
    ensures
      var k' := Known(k.base, k.units[unit := folded], k.hostFolded || origin.TableMissed?);
      Sound(f, k', l.(origins := l.origins[unit := origin], history := l.history + [(unit, folded)], made := l.made + more)) && Grew(k, k')
  {
    hide Explained, UnitsExplained, HistoryHolds, BaseHolds, WithinBudget, TableUnits;
    var k' := Known(k.base, k.units[unit := folded], k.hostFolded || origin.TableMissed?);
    UnitsStillExplained(f, k, l.made, more, l.origins, unit, folded, origin);
    HistoryGrows(k, k', l.history, unit, folded);
    FreshUnit(k, l.history, unit);
    AccountGrows(f, k, k', l, l.(origins := l.origins[unit := origin], history := l.history + [(unit, folded)], made := l.made + more), more);
  }

  lemma AccountGrows(f: Tables, k: Known, k': Known, l: Ledger, l': Ledger, more: seq<Event>)
    requires BaseHolds(f, k, l) && WithinBudget(k, l) && k'.base == k.base && l'.baseTick == l.baseTick
    requires l'.made == l.made + more && |more| <= 3 && |TableUnits(l'.history)| == |TableUnits(l.history)| + 1
    ensures BaseHolds(f, k', l') && WithinBudget(k', l')
  {
    hide BaseAt, TableUnits;
  }

  lemma FreshUnit(k: Known, history: seq<(u16, u16)>, unit: u16)
    requires HistoryHolds(k, history) && unit !in k.units
    ensures |TableUnits(history) + {unit}| == |TableUnits(history)| + 1
  {
  }

  lemma FoldRecorded(f: Tables, k: Known, l: Ledger, unit: u16, folded: u16)
    requires Sound(f, k, l) && Gives(k, unit, folded)
    ensures Sound(f, k, l.(history := l.history + [(unit, folded)]))
  {
    hide UnitsExplained, BaseAt, HistoryHolds;
    if !BelowTheTable(unit) {
      KnownUnit(k, l.history, unit, folded);
    }
    HistoryGrows(k, k, l.history, unit, folded);
  }

  lemma KnownUnit(k: Known, history: seq<(u16, u16)>, unit: u16, folded: u16)
    requires HistoryHolds(k, history) && Gives(k, unit, folded) && !BelowTheTable(unit)
    ensures k.units.Keys + {unit} == k.units.Keys && TableUnits(history) + {unit} == TableUnits(history)
  {
  }

  // ----- What the account is worth

  /** Across a whole run, over memory that may change throughout, a unit folds to one value. */
  lemma OneValueForever(f: Tables, k: Known, l: Ledger, i: nat, j: nat)
    requires Sound(f, k, l) && i < |l.history| && j < |l.history| && l.history[i].0 == l.history[j].0
    ensures l.history[i].1 == l.history[j].1
  {
    assert Gives(k, l.history[i].0, l.history[i].1);
  }

  /** Which machine's table the folds so far came from, read off the memo. */
  function SourceOf(k: Known): UpcaseFrom {
    if k.base.Some? && k.base.value.Some? then
      if k.hostFolded then Mixed(k.base.value.value) else FromTarget(k.base.value.value)
    else FromHost
  }

  /** Across a whole run of folds, no more is read than one pointer and three elements for each distinct unit in the table's band. */
  lemma ReadsAreBounded(f: Tables, k: Known, l: Ledger)
    requires Sound(f, k, l)
    ensures |l.made| <= 1 + 3 * |TableUnits(l.history)|
    ensures f.table.None? ==> |l.made| <= 3 * |TableUnits(l.history)|
  {
    hide UnitsExplained, HistoryHolds, BaseAt;
  }

  /**
   * Provenance is exact: `FromTarget` means every fold in the table's band is what a walk of that
   * table found when it was made, `Mixed` that at least one came from the host because a walk of the
   * table was made and found nothing, and `FromHost` that every one came from the host.
   */
  lemma ProvenanceIsExact(f: Tables, k: Known, l: Ledger)
    requires Sound(f, k, l)
    ensures SourceOf(k).FromTarget? ==> forall u :: u in k.units ==>
      if SourceOf(k).at == 0 then k.units[u] == u
      else exists t: nat :: WalkFound(f, l.made, t, SourceOf(k).at, u, Some(k.units[u]))
    ensures SourceOf(k).Mixed? ==> SourceOf(k).at != 0 && exists u, t: nat ::
      u in k.units && WalkFound(f, l.made, t, SourceOf(k).at, u, None) && k.units[u] == f.host(u)
    ensures SourceOf(k).FromHost? ==> forall u :: u in k.units ==> k.units[u] == f.host(u)
  {
    hide WalkFound, BaseAt;
    forall u | u in k.units
      ensures SourceOf(k).FromTarget? && SourceOf(k).at != 0 ==>
        exists t: nat :: WalkFound(f, l.made, t, SourceOf(k).at, u, Some(k.units[u]))
    {
      assert Explained(f, k, l.made, u, k.units[u], l.origins[u]);
    }
    if SourceOf(k).Mixed? {
      var u :| u in l.origins && l.origins[u].TableMissed?;
      assert Explained(f, k, l.made, u, k.units[u], l.origins[u]);
    }
  }

  /** Once mixed, always mixed; and a source once found is never lost. */
  lemma MixedStaysMixed(k: Known, k': Known)
    requires Grew(k, k') && SourceOf(k).Mixed?
    ensures SourceOf(k') == SourceOf(k)
  {
  }

  /** The fold over memory that holds still. */
  function SteadyFold(mem: Memory, table: Option<UpcaseTable>, pointer: nat, host: u16 -> u16, unit: u16): u16 {
    if BelowTheTable(unit) then FoldBelow(unit)
    else if table.None? then host(unit)
    else
      match BaseAt(AlwaysAnswers(mem), 0, table.value, pointer)
      case None => host(unit)
      case Some(base) =>
        if base == 0 then unit
        else
          match FromTable(mem, base, unit)
          case None => host(unit)
          case Some(folded) => folded
  }

  /** A name folded unit by unit, over memory that holds still. */
  function SteadyName(mem: Memory, table: Option<UpcaseTable>, pointer: nat, host: u16 -> u16, name: seq<u16>): seq<u16> {
    seq(|name|, i requires 0 <= i < |name| => SteadyFold(mem, table, pointer, host, name[i]))
  }

  ghost predicate GivesName(k: Known, name: seq<u16>, folded: seq<u16>) {
    |folded| == |name| && forall i :: 0 <= i < |name| ==> Gives(k, name[i], folded[i])
  }

  /** In the two bands below the table, which table answers decides nothing. */
  lemma PlainNamesMatch(mem: Memory, table: Option<UpcaseTable>, pointer: nat, host: u16 -> u16, one: seq<u16>, other: seq<u16>)
    requires Plain(one) && Plain(other)
    ensures SteadyName(mem, table, pointer, host, one) == SteadyName(mem, table, pointer, host, other) <==> SameButCase(one, other)
  {
    PlainNamesFold(one, other, SteadyName(mem, table, pointer, host, one), SteadyName(mem, table, pointer, host, other));
  }

  lemma SteadyNameMemo(f: Tables, k: Known, l: Ledger, mem: Memory, name: seq<u16>, folded: seq<u16>)
    requires Sound(f, k, l) && Steady(f.answers, mem) && GivesName(k, name, folded)
    ensures folded == SteadyName(mem, f.table, f.pointer, f.host, name)
  {
    hide Sound, SteadyFold, Steady;
    forall i | 0 <= i < |name| ensures folded[i] == SteadyFold(mem, f.table, f.pointer, f.host, name[i]) {
      SteadyMemo(f, k, l, mem, name[i], folded[i]);
    }
  }

  lemma SteadyMemo(f: Tables, k: Known, l: Ledger, mem: Memory, unit: u16, folded: u16)
    requires Sound(f, k, l) && Steady(f.answers, mem) && Gives(k, unit, folded)
    ensures folded == SteadyFold(mem, f.table, f.pointer, f.host, unit)
  {
    hide FromTrie, WalkMade, Steady, U32, U64;
    if !BelowTheTable(unit) {
      assert Explained(f, k, l.made, unit, folded, l.origins[unit]);
      if f.table.Some? {
        SteadyBase(f.answers, mem, l.baseTick, f.table.value, f.pointer);
      }
      match l.origins[unit]
      case TableAnswered(t) => SteadyTrie(f.answers, mem, t, k.base.value.value, unit);
      case TableMissed(t) => SteadyTrie(f.answers, mem, t, k.base.value.value, unit);
      case TableIsNull =>
      case NoTable =>
    }
  }

  lemma SteadyBase(answers: Answers, mem: Memory, t: nat, table: UpcaseTable, pointer: nat)
    requires Steady(answers, mem)
    ensures BaseAt(answers, t, table, pointer) == BaseAt(AlwaysAnswers(mem), 0, table, pointer)
  {
    hide U32, U64;
  }

  /** What a name folds to, once every unit of it has been folded. */
  ghost function FoldedBy(k: Known, name: seq<u16>): seq<u16>
    requires NeedsNoTable(k, name)
  {
    seq(|name|, i requires 0 <= i < |name| => if BelowTheTable(name[i]) then FoldBelow(name[i]) else k.units[name[i]])
  }

  ghost function Pairs(name: seq<u16>, folded: seq<u16>): seq<(u16, u16)>
    requires |name| == |folded|
  {
    seq(|name|, i requires 0 <= i < |name| => (name[i], folded[i]))
  }

  /** The folds a name adds to a run. */
  ghost function FoldsOf(k: Known, name: seq<u16>): seq<(u16, u16)>
    requires NeedsNoTable(k, name)
  {
    Pairs(name, FoldedBy(k, name))
  }

  /** Nothing of the name has to be looked up. */
  ghost predicate NeedsNoTable(k: Known, name: seq<u16>) {
    forall i :: 0 <= i < |name| ==> BelowTheTable(name[i]) || name[i] in k.units
  }

  /** What was done to the target between two moments is entered in the account, read for read, and none of it was a stop. */
  ghost predicate Entered(before: seq<Event>, after: seq<Event>, ticks: int, made: seq<Event>, made': seq<Event>) {
    && Obeys(before, after, false) && Looks(after) == Looks(before)
    && made' == made + Since(before, after) && ticks == |Since(before, after)|
  }

  lemma Traced(before: seq<Event>, after: seq<Event>, more: seq<Event>)
    requires after == before + more && forall e :: e in more ==> e.Read?
    ensures before <= after && Since(before, after) == more && Obeys(before, after, false) && Looks(after) == Looks(before)
  {
    ReadsAreNoLooks(before, more);
    assert forall i :: |before| <= i < |after| ==> after[i] == more[i - |before|] && after[i] in more;
  }

  lemma {:induction false} ReadsAreNoLooks(before: seq<Event>, more: seq<Event>)
    requires forall e :: e in more ==> e.Read?
    ensures Looks(before + more) == Looks(before)
  {
    if more == [] {
      assert before + more == before;
    } else {
      var init, last := more[..|more| - 1], more[|more| - 1];
      ReadsAreNoLooks(before, init);
      LooksAdd(before + init, last);
      assert last in more;
      assert before + more == before + init + [last];
    }
  }

  lemma WalkEntered(before: seq<Event>, after: seq<Event>, ticks: int, made: seq<Event>)
    requires Obeys(before, after, false) && Looks(after) == Looks(before) && ticks == |Since(before, after)|
    ensures Entered(before, after, ticks, made, made + Since(before, after))
  {
  }

  lemma GrewNot(k: Known)
    ensures Grew(k, k)
  {
  }

  lemma GrewThen(k: Known, k': Known, k'': Known)
    requires Grew(k, k')
    ensures Grew(k', k'') ==> Grew(k, k'')
  {
  }

  lemma NothingEntered(trace: seq<Event>, made: seq<Event>)
    ensures Entered(trace, trace, 0, made, made)
  {
  }

  lemma EnteredThen(before: seq<Event>, middle: seq<Event>, after: seq<Event>, some: int, more: int,
                    made: seq<Event>, made': seq<Event>, made'': seq<Event>)
    requires Entered(before, middle, some, made, made') && Entered(middle, after, more, made', made'')
    ensures Entered(before, after, some + more, made, made'')
  {
    ObeysThen(before, middle, after, false);
    SinceThen(before, middle, after);
  }

  class Upcase {
    const target: Target
    const table: Option<UpcaseTable>
    const pointer: nat
    const host: u16 -> u16
    var known: Known
    ghost var ledger: Ledger

    constructor (target: Target, table: Option<UpcaseTable>, pointer: nat, host: u16 -> u16)
      ensures Valid() && this.target == target && this.table == table && this.pointer == pointer && this.host == host
      ensures ledger.history == [] && ledger.made == [] && known == Known(None, map[], false)
    {
      this.target, this.table, this.pointer, this.host := target, table, pointer, host;
      known, ledger := Known(None, map[], false), Ledger(0, map[], [], []);
    }

    ghost function Sources(): Tables {
      Tables(target.answers, table, pointer, host)
    }

    ghost predicate Valid()
      reads this
    {
      Sound(Sources(), known, ledger)
    }

    /** What every operation keeps: the account is sound, nothing known is lost, and every look at the target is entered in it. */
    twostate predicate Kept()
      reads this, target
    {
      && Valid() && Grew(old(known), known)
      && Entered(old(target.trace), target.trace, target.ticks - old(target.ticks), old(ledger.made), ledger.made)
    }

    /** `base`: the pointer to the table, read once and remembered. */
    method Base() returns (r: Option<u64>)
      requires Valid()
      modifies this, target
      ensures Kept()
      ensures known.units == old(known.units) && known.hostFolded == old(known.hostFolded)
      ensures ledger.history == old(ledger.history)
      ensures target.ticks - old(target.ticks) <= if old(known.base).None? && table.Some? then 1 else 0
      ensures if table.Some? then known.base == Some(r) else r.None? && known.base.None?
    {
      hide UnitsExplained, HistoryHolds, WithinBudget, U32, U64, Looks;
      NothingEntered(target.trace, ledger.made);
      if known.base.Some? {
        return known.base.value;
      }
      if table.None? {
        return None;
      }
      ghost var tick := target.ticks;
      r := None;
      if pointer == 4 || pointer == 8 {
        var bytes := target.ReadAt(table.value.PointerAt(), pointer);
        if bytes.Some? && |bytes.value| >= pointer {
          r := Some(if pointer == 4 then U32(bytes.value) else U64(bytes.value));
        }
      }
      ghost var more := Since(old(target.trace), target.trace);
      BaseResolved(Sources(), known, ledger, tick, more);
      known := known.(base := Some(r));
      ledger := ledger.(baseTick := tick, made := ledger.made + more);
    }

    method ReadElement(at: u64, index: nat) returns (r: Option<u16>)
      requires index <= 0x1000e
      modifies target
      ensures r == Element(target.answers, old(target.ticks), at, index)
      ensures target.ticks == old(target.ticks) + 1
      ensures target.trace == old(target.trace) + [Read(old(target.ticks), Wrap(at + 2 * index), 2)]
      ensures InTable(target.trace[|target.trace| - 1], at)
    {
      var bytes := target.ReadAt(Wrap(at + 2 * index), 2);
      r := if bytes.Some? && |bytes.value| >= 2 then Some(U16(bytes.value)) else None;
    }

    /** `from_table` on a live target. A corrupt table cannot send a read outside its own 128 KiB. */
    method ReadTrie(at: u64, unit: u16) returns (r: Option<u16>)
      modifies target
      ensures r == FromTrie(target.answers, old(target.ticks), at, unit)
      ensures old(target.trace) <= target.trace && Looks(target.trace) == old(Looks(target.trace))
      ensures Obeys(old(target.trace), target.trace, false)
      ensures target.ticks - old(target.ticks) == |Since(old(target.trace), target.trace)| <= 3
      ensures WalkMade(target.answers, Since(old(target.trace), target.trace), old(target.ticks), at, unit)
      ensures forall i :: |old(target.trace)| <= i < |target.trace| ==> InTable(target.trace[i], at)
    {
      hide Element, InTable, Obeys, Since, Looks;
      ghost var before, tick := target.trace, target.ticks;
      var level1 := ReadElement(at, unit / 0x100);
      ghost var first := Read(tick, Wrap(at + 2 * (unit / 0x100)), 2);
      if level1.None? {
        Traced(before, target.trace, [first]);
        return None;
      }
      var level2 := ReadElement(at, level1.value + (unit / 0x10) % 0x10);
      ghost var second := Read(tick + 1, Wrap(at + 2 * (level1.value + (unit / 0x10) % 0x10)), 2);
      if level2.None? {
        Traced(before, target.trace, [first, second]);
        return None;
      }
      var delta := ReadElement(at, level2.value + unit % 0x10);
      ghost var third := Read(tick + 2, Wrap(at + 2 * (level2.value + unit % 0x10)), 2);
      Traced(before, target.trace, [first, second, third]);
      r := if delta.None? then None else Some((unit + delta.value) % 0x1_0000);
    }

    /** `unit`: one code unit in the three bands, remembered once it has been looked up. */
    method Unit(unit: u16) returns (folded: u16)
      requires Valid()
      modifies this, target
      ensures Kept() && Gives(known, unit, folded)
      ensures ledger.history == old(ledger.history) + [(unit, folded)]
      ensures BelowTheTable(unit) || unit in old(known.units) ==> target.trace == old(target.trace) && known == old(known)
    {
      hide Sound, Entered;
      NothingEntered(target.trace, ledger.made);
      if BelowTheTable(unit) {
        folded := FoldBelow(unit);
      } else if unit in known.units {
        folded := known.units[unit];
      } else {
        folded := Uncached(unit);
        return;
      }
      FoldRecorded(Sources(), known, ledger, unit, folded);
      ledger := ledger.(history := ledger.history + [(unit, folded)]);
    }

    /** `uncached`: from whichever table answers, recording which did. */
    method Uncached(unit: u16) returns (folded: u16)
      requires Valid() && !BelowTheTable(unit) && unit !in known.units
      modifies this, target
      ensures Kept() && known.units == old(known.units)[unit := folded]
      ensures ledger.history == old(ledger.history) + [(unit, folded)]
    {
      hide Sound, FromTrie, WalkMade, Entered, Obeys, Since, Grew, Looks;
      var at := Base();
      ghost var origin, more: seq<Event> := NoTable, [];
      var missed := false;
      label asking:
      if at.None? {
        folded := host(unit);
      } else if at.value == 0 {
        folded, origin := unit, TableIsNull;
      } else {
        ghost var tick := target.ticks;
        var found := ReadTrie(at.value, unit);
        more := Since(old@asking(target.trace), target.trace);
        WalkEntered(old@asking(target.trace), target.trace, target.ticks - old@asking(target.ticks), ledger.made);
        EnteredThen(old(target.trace), old@asking(target.trace), target.trace, old@asking(target.ticks) - old(target.ticks),
                    target.ticks - old@asking(target.ticks), old(ledger.made), ledger.made, ledger.made + more);
        LaterWalkMade(target.answers, ledger.made, more, tick, at.value, unit);
        if found.Some? {
          folded, origin := found.value, TableAnswered(tick);
        } else {
          missed := true;
          folded, origin := host(unit), TableMissed(tick);
        }
      }
      if more == [] {
        assert ledger.made + more == ledger.made;
      }
      GrewThen(old(known), known, Known(known.base, known.units[unit := folded], known.hostFolded || missed));
      UnitLearned(Sources(), known, ledger, unit, folded, origin, more);
      known := Known(known.base, known.units[unit := folded], known.hostFolded || missed);
      ledger := ledger.(origins := ledger.origins[unit := origin], history := ledger.history + [(unit, folded)], made := ledger.made + more);
    }

    /** `fold`: one code unit in, one out. */
    method FoldName(name: seq<u16>) returns (folded: seq<u16>)
      requires Valid()
      modifies this, target
      ensures Kept() && GivesName(known, name, folded)
      ensures ledger.history == old(ledger.history) + Pairs(name, folded)
      ensures NeedsNoTable(old(known), name) ==> target.trace == old(target.trace) && known == old(known)
    {
      hide Sound, Gives, Entered, Grew;
      folded := [];
      NothingEntered(target.trace, ledger.made);
      GrewNot(known);
      for i := 0 to |name|
        invariant Kept() && GivesName(known, name[..i], folded)
        invariant ledger.history == old(ledger.history) + Pairs(name[..i], folded)
        invariant NeedsNoTable(old(known), name) ==> target.trace == old(target.trace) && known == old(known)
      {
        label folding:
        var unit := Unit(name[i]);
        NameGrows(old@folding(known), known, name, i, folded, unit);
        GrewThen(old(known), old@folding(known), known);
        EnteredThen(old(target.trace), old@folding(target.trace), target.trace, old@folding(target.ticks) - old(target.ticks),
                    target.ticks - old@folding(target.ticks), old(ledger.made), old@folding(ledger.made), ledger.made);
        PairsGrow(name, i, folded, unit);
        folded := folded + [unit];
      }
      assert name[..|name|] == name;
    }

    /** `same_name`: whether two names fold alike. `mem` is the target's memory, where it holds still. */
    method SameName(one: seq<u16>, other: seq<u16>, ghost mem: Memory) returns (same: bool)
      requires Valid()
      modifies this, target
      ensures Kept() && NeedsNoTable(known, one) && NeedsNoTable(known, other)
      ensures same <==> FoldedBy(known, one) == FoldedBy(known, other)
      ensures ledger.history == old(ledger.history) + FoldsOf(known, one) + FoldsOf(known, other)
      ensures NeedsNoTable(old(known), one) && NeedsNoTable(old(known), other) ==> target.trace == old(target.trace)
      ensures Steady(target.answers, mem) ==>
        (same <==> SteadyName(mem, table, pointer, host, one) == SteadyName(mem, table, pointer, host, other))
      ensures Plain(one) && Plain(other) ==> (same <==> SameButCase(one, other))
    {
      hide Sound, Gives, GivesName, SteadyName, Steady, Entered, Grew, Pairs, FoldedBy, NeedsNoTable;
      var left := FoldName(one);
      label folded:
      var right := FoldName(other);
      GrewThen(old(known), old@folded(known), known);
      EnteredThen(old(target.trace), old@folded(target.trace), target.trace, old@folded(target.ticks) - old(target.ticks),
                  target.ticks - old@folded(target.ticks), old(ledger.made), old@folded(ledger.made), ledger.made);
      NameStillGiven(old@folded(known), known, one, left);
      GivenIsFolded(known, one, left);
      GivenIsFolded(known, other, right);
      if Steady(target.answers, mem) {
        SteadyNameMemo(Sources(), known, ledger, mem, one, left);
        SteadyNameMemo(Sources(), known, ledger, mem, other, right);
      }
      if Plain(one) && Plain(other) {
        PlainNamesGiven(known, one, other, left, right);
      }
      same := left == right;
    }

    /** `source`: which machine's table the folds so far came from. */
    method Source() returns (from: UpcaseFrom)
      requires Valid()
      modifies this, target
      ensures Kept() && from == SourceOf(known) && known.units == old(known.units)
      ensures ledger.history == old(ledger.history)
      ensures target.ticks - old(target.ticks) <= if old(known.base).None? && table.Some? then 1 else 0
      ensures from.FromHost? <==> table.None? || known.base == Some(None)
    {
      hide Sound, Entered;
      var at := Base();
      from := if at.Some? then (if known.hostFolded then Mixed(at.value) else FromTarget(at.value)) else FromHost;
    }
  }

  lemma PairsGrow(name: seq<u16>, i: nat, folded: seq<u16>, unit: u16)
    requires i < |name| && |folded| == i
    ensures Pairs(name[..i + 1], folded + [unit]) == Pairs(name[..i], folded) + [(name[i], unit)]
  {
  }

  lemma GivenIsFolded(k: Known, name: seq<u16>, folded: seq<u16>)
    requires GivesName(k, name, folded)
    ensures NeedsNoTable(k, name) && folded == FoldedBy(k, name)
  {
  }

  lemma PlainNamesGiven(k: Known, one: seq<u16>, other: seq<u16>, left: seq<u16>, right: seq<u16>)
    requires Plain(one) && Plain(other) && GivesName(k, one, left) && GivesName(k, other, right)
    ensures left == right <==> SameButCase(one, other)
  {
    PlainNamesFold(one, other, left, right);
  }

  lemma NameStillGiven(k: Known, k': Known, name: seq<u16>, folded: seq<u16>)
    requires GivesName(k, name, folded) && Grew(k, k')
    ensures GivesName(k', name, folded)
  {
  }

  lemma NameGrows(k: Known, k': Known, name: seq<u16>, i: nat, folded: seq<u16>, unit: u16)
    requires i < |name| && GivesName(k, name[..i], folded) && Grew(k, k') && Gives(k', name[i], unit)
    ensures GivesName(k', name[..i + 1], folded + [unit])
  {
    NameStillGiven(k, k', name[..i], folded);
    assert name[..i + 1] == name[..i] + [name[i]];
  }

  /** The reads of one element: inside the table, whatever the table holds. */
  ghost predicate InTable(event: Event, at: u64) {
    exists index: nat :: index <= 0x1000e && event.Read? && event.at == Wrap(at + 2 * index) && event.len == 2
  }
}
