/**
 * An encoder for the 8-4-4 trie, and the round trip: what it lays out, the fold's walk reads back.
 *
 * Blocks are appended and shared, never moved, so an index written early stays good. Indices are 16
 * bits, which is why the whole table has to fit 65,536 elements. How large it is can be told from the
 * fold: a block for each different run of sixteen deltas, and one for each different row of them.
 */
module UpcaseTrie {
  import opened Machine
  import opened Session
  import opened UpcaseFold

  const LEVEL_ONE: nat := 0x100

  /** The deltas of sixteen units that share their upper twelve bits. */
  function Deltas(fold: u16 -> u16, high: nat, middle: nat): (r: seq<u16>)
    requires high < 0x100 && middle < 0x10
    ensures |r| == 0x10
  {
    seq<u16>(0x10, low requires 0 <= low < 0x10 => Delta(fold, 0x100 * high + 0x10 * middle + low))
  }

  /** What is added to a unit, modulo 2^16, to fold it. */
  function Delta(fold: u16 -> u16, unit: u16): u16 {
    (fold(unit) - unit) % 0x1_0000
  }

  // ----- How large the table is

  function RowDeltas(fold: u16 -> u16, high: nat): (r: seq<seq<u16>>)
    requires high < 0x100
    ensures |r| == 0x10
  {
    seq(0x10, middle requires 0 <= middle < 0x10 => Deltas(fold, high, middle))
  }

  /** The different runs of sixteen deltas, in the rows below `rows` and the first `middles` of the next, */
  ghost function LeavesBelow(fold: u16 -> u16, rows: nat, middles: nat): set<seq<u16>>
    requires rows <= 0x100 && middles <= 0x10 && (rows == 0x100 ==> middles == 0)
  {
    set high: nat, middle: nat | high < 0x100 && middle < 0x10 && (high < rows || (high == rows && middle < middles)) :: Deltas(fold, high, middle)
  }

  /** and the different rows. */
  ghost function RowsBelow(fold: u16 -> u16, rows: nat): set<seq<seq<u16>>>
    requires rows <= 0x100
  {
    set high: nat | high < rows :: RowDeltas(fold, high)
  }

  ghost function SizeBelow(fold: u16 -> u16, rows: nat): nat
    requires rows <= 0x100
  {
    LEVEL_ONE + 0x10 * (|LeavesBelow(fold, rows, 0)| + |RowsBelow(fold, rows)|)
  }

  /** The number of elements that encode a fold. */
  ghost function TableSize(fold: u16 -> u16): nat {
    SizeBelow(fold, 0x100)
  }

  lemma LeafAdded(fold: u16 -> u16, rows: nat, middle: nat)
    requires rows < 0x100 && middle < 0x10
    ensures LeavesBelow(fold, rows, middle + 1) == LeavesBelow(fold, rows, middle) + {Deltas(fold, rows, middle)}
  {
    hide Deltas;
  }

  lemma LeavesRowDone(fold: u16 -> u16, rows: nat)
    requires rows < 0x100
    ensures LeavesBelow(fold, rows, 0x10) == LeavesBelow(fold, rows + 1, 0)
    ensures LeavesBelow(fold, rows, 0) <= LeavesBelow(fold, rows + 1, 0)
  {
    hide Deltas;
  }

  lemma RowAdded(fold: u16 -> u16, rows: nat)
    requires rows < 0x100
    ensures RowsBelow(fold, rows + 1) == RowsBelow(fold, rows) + {RowDeltas(fold, rows)}
  {
    hide RowDeltas;
  }

  predicate HoldsBlock(elements: seq<u16>, at: nat, block: seq<u16>) {
    LEVEL_ONE <= at && at + |block| <= |elements| && elements[at..at + |block|] == block
  }

  /** Appended to, and rewritten only in the first level. */
  predicate Extends(elements: seq<u16>, more: seq<u16>) {
    |elements| <= |more| && forall i :: LEVEL_ONE <= i < |elements| ==> more[i] == elements[i]
  }

  lemma BlockStays(elements: seq<u16>, more: seq<u16>, at: nat, block: seq<u16>)
    requires Extends(elements, more) && HoldsBlock(elements, at, block)
    ensures HoldsBlock(more, at, block)
  {
    forall i | 0 <= i < |block| ensures more[at..at + |block|][i] == block[i] {
      assert elements[at..at + |block|][i] == block[i];
    }
  }

  /** Every shared block is where the index says, so long as the table still fits. */
  ghost predicate Indexes(elements: seq<u16>, blocks: map<seq<u16>, u16>) {
    |elements| <= 0x1_0000 ==> forall block :: block in blocks ==> HoldsBlock(elements, blocks[block], block)
  }

  lemma IndexesStay(elements: seq<u16>, more: seq<u16>, blocks: map<seq<u16>, u16>)
    requires Extends(elements, more) && Indexes(elements, blocks)
    ensures Indexes(more, blocks)
  {
    if |more| <= 0x1_0000 {
      forall block | block in blocks ensures HoldsBlock(more, blocks[block], block) {
        BlockStays(elements, more, blocks[block], block);
      }
    }
  }

  /** One block, shared with an equal one already laid out or appended. */
  method Share(elements: seq<u16>, blocks: map<seq<u16>, u16>, block: seq<u16>)
    returns (more: seq<u16>, index: map<seq<u16>, u16>, at: u16)
    requires LEVEL_ONE <= |elements| && |block| == 0x10 && Indexes(elements, blocks)
    ensures elements <= more && Indexes(more, index)
    ensures index.Keys == blocks.Keys + {block} && Agrees(blocks, index) && index[block] == at
    ensures block in blocks ==> more == elements && at == blocks[block]
    ensures block !in blocks ==> more == elements + block && |index| == |blocks| + 1
    ensures |more| <= 0x1_0000 ==> HoldsBlock(more, at, block)
  {
    hide Indexes, HoldsBlock, Agrees;
    more, index := elements, blocks;
    if block in blocks {
      at := blocks[block];
      AlreadyShared(elements, blocks, block);
    } else {
      at := |elements| % 0x1_0000;
      more := elements + block;
      index := blocks[block := at];
      BlockAppended(elements, blocks, block, at);
      KeyAdded(blocks, block, at);
    }
  }

  lemma AlreadyShared(elements: seq<u16>, blocks: map<seq<u16>, u16>, block: seq<u16>)
    requires block in blocks && Indexes(elements, blocks)
    ensures blocks.Keys == blocks.Keys + {block} && Agrees(blocks, blocks)
    ensures |elements| <= 0x1_0000 ==> HoldsBlock(elements, blocks[block], block)
  {
    hide HoldsBlock;
  }

  lemma KeyAdded(blocks: map<seq<u16>, u16>, block: seq<u16>, at: u16)
    requires block !in blocks
    ensures var index := blocks[block := at]; index.Keys == blocks.Keys + {block} && |index| == |blocks| + 1 && Agrees(blocks, index)
  {
  }

  lemma BlockAppended(elements: seq<u16>, blocks: map<seq<u16>, u16>, block: seq<u16>, at: u16)
    requires LEVEL_ONE <= |elements| && |block| == 0x10 && Indexes(elements, blocks) && at == |elements| % 0x1_0000
    ensures Indexes(elements + block, blocks[block := at])
    ensures |elements + block| <= 0x1_0000 ==> HoldsBlock(elements + block, at, block)
  {
    hide HoldsBlock;
    IndexesStay(elements, elements + block, blocks);
    if |elements + block| <= 0x1_0000 {
      BlockIsLast(elements, block);
    }
  }

  lemma BlockIsLast(elements: seq<u16>, block: seq<u16>)
    requires LEVEL_ONE <= |elements|
    ensures HoldsBlock(elements + block, |elements|, block)
  {
  }

  /** What was indexed stays indexed where it was. */
  ghost predicate Agrees(blocks: map<seq<u16>, u16>, index: map<seq<u16>, u16>) {
    forall block :: block in blocks ==> block in index && index[block] == blocks[block]
  }

  /** The sixteen leaves of a row are laid out, and `block` says where. */
  ghost predicate RowLeaves(elements: seq<u16>, fold: u16 -> u16, high: nat, block: seq<u16>)
    requires high < 0x100 && |block| <= 0x10
  {
    |elements| <= 0x1_0000 ==>
      forall middle :: 0 <= middle < |block| ==> HoldsBlock(elements, block[middle], Deltas(fold, high, middle))
  }

  lemma RowLeavesStay(elements: seq<u16>, more: seq<u16>, fold: u16 -> u16, high: nat, block: seq<u16>)
    requires high < 0x100 && |block| <= 0x10 && RowLeaves(elements, fold, high, block) && Extends(elements, more)
    ensures RowLeaves(more, fold, high, block)
  {
    hide Deltas;
    if |more| <= 0x1_0000 {
      forall middle | 0 <= middle < |block| ensures HoldsBlock(more, block[middle], Deltas(fold, high, middle)) {
        BlockStays(elements, more, block[middle], Deltas(fold, high, middle));
      }
    }
  }

  /** The rows below `rows` are reachable from the first level, two links down. */
  ghost predicate RowsDone(elements: seq<u16>, fold: u16 -> u16, rows: nat)
    requires rows <= 0x100 <= |elements|
  {
    |elements| <= 0x1_0000 ==> forall high :: 0 <= high < rows ==> RowDone(elements, fold, high)
  }

  ghost predicate RowDone(elements: seq<u16>, fold: u16 -> u16, high: nat)
    requires high < 0x100 <= |elements|
  {
    forall middle :: 0 <= middle < 0x10 ==> LeafDone(elements, fold, high, middle)
  }

  ghost predicate LeafDone(elements: seq<u16>, fold: u16 -> u16, high: nat, middle: nat)
    requires high < 0x100 <= |elements| && middle < 0x10
  {
    && LEVEL_ONE <= elements[high] && elements[high] + middle < |elements|
    && HoldsBlock(elements, elements[elements[high] + middle], Deltas(fold, high, middle))
  }

  lemma RowStays(elements: seq<u16>, more: seq<u16>, fold: u16 -> u16, high: nat)
    requires high < 0x100 <= |elements| && RowDone(elements, fold, high)
    requires Extends(elements, more) && more[high] == elements[high]
    ensures RowDone(more, fold, high)
  {
    hide Deltas;
    forall middle: nat | middle < 0x10 ensures LeafDone(more, fold, high, middle) {
      assert LeafDone(elements, fold, high, middle);
      assert more[elements[high] + middle] == elements[elements[high] + middle];
      BlockStays(elements, more, elements[elements[high] + middle], Deltas(fold, high, middle));
    }
  }

  lemma RowLinked(elements: seq<u16>, fold: u16 -> u16, high: nat, at: u16, block: seq<u16>)
    requires high < 0x100 <= |elements| <= 0x1_0000 && |block| == 0x10
    requires HoldsBlock(elements, at, block) && RowLeaves(elements, fold, high, block)
    ensures RowDone(elements[high := at], fold, high)
  {
    hide Deltas;
    var linked := elements[high := at];
    forall middle: nat | middle < 0x10 ensures LeafDone(linked, fold, high, middle) {
      assert elements[at..at + 0x10][middle] == block[middle];
      BlockStays(elements, linked, block[middle], Deltas(fold, high, middle));
    }
  }

  /** A second-level block is the places of a row's leaves. */
  ghost predicate Places(leaves: map<seq<u16>, u16>, row: seq<seq<u16>>, block: seq<u16>) {
    |block| <= |row| && forall m :: 0 <= m < |block| ==> row[m] in leaves && block[m] == leaves[row[m]]
  }

  method EncodeRow(fold: u16 -> u16, high: nat, elements: seq<u16>, leaves: map<seq<u16>, u16>)
    returns (more: seq<u16>, index: map<seq<u16>, u16>, block: seq<u16>)
    requires high < 0x100 && LEVEL_ONE <= |elements| && Indexes(elements, leaves)
    requires leaves.Keys == LeavesBelow(fold, high, 0)
    ensures elements <= more && Indexes(more, index)
    ensures |block| == 0x10 && RowLeaves(more, fold, high, block)
    ensures index.Keys == LeavesBelow(fold, high + 1, 0) && Agrees(leaves, index)
    ensures |more| - |elements| == 0x10 * (|index| - |leaves|)
    ensures Places(index, RowDeltas(fold, high), block)
  {
    hide Deltas, Indexes, HoldsBlock, LeavesBelow, RowLeaves, Places, Agrees, RowDeltas;
    more, index, block := elements, leaves, [];
    NoLeavesYet(elements, leaves, fold, high);
    for middle := 0 to 0x10
      invariant elements <= more && Indexes(more, index)
      invariant |block| == middle && RowLeaves(more, fold, high, block)
      invariant index.Keys == LeavesBelow(fold, high, middle) && Agrees(leaves, index)
      invariant |more| - |elements| == 0x10 * (|index| - |leaves|)
      invariant Places(index, RowDeltas(fold, high), block)
    {
      var before := more;
      ghost var indexed := index;
      var at;
      more, index, at := Share(before, index, Deltas(fold, high, middle));
      RowLeafAdded(before, more, fold, high, block, at);
      LeafAdded(fold, high, middle);
      if Deltas(fold, high, middle) in indexed {
        SameIndex(indexed, index, Deltas(fold, high, middle));
      }
      PlaceAdded(leaves, indexed, index, fold, high, block, at);
      block := block + [at];
    }
    LeavesRowDone(fold, high);
  }

  lemma NoLeavesYet(elements: seq<u16>, leaves: map<seq<u16>, u16>, fold: u16 -> u16, high: nat)
    requires high < 0x100
    ensures RowLeaves(elements, fold, high, []) && Places(leaves, RowDeltas(fold, high), []) && Agrees(leaves, leaves)
  {
  }

  lemma PlaceAdded(leaves: map<seq<u16>, u16>, indexed: map<seq<u16>, u16>, index: map<seq<u16>, u16>,
                   fold: u16 -> u16, high: nat, block: seq<u16>, at: u16)
    requires high < 0x100 && |block| < 0x10 && Agrees(leaves, indexed) && Agrees(indexed, index)
    requires Places(indexed, RowDeltas(fold, high), block)
    requires Deltas(fold, high, |block|) in index && index[Deltas(fold, high, |block|)] == at
    ensures Places(index, RowDeltas(fold, high), block + [at]) && Agrees(leaves, index)
  {
    hide Deltas;
    PlacesStay(indexed, index, RowDeltas(fold, high), block);
  }

  lemma RowLeafAdded(elements: seq<u16>, more: seq<u16>, fold: u16 -> u16, high: nat, block: seq<u16>, at: u16)
    requires high < 0x100 && |block| < 0x10 && RowLeaves(elements, fold, high, block) && Extends(elements, more)
    requires |more| <= 0x1_0000 ==> HoldsBlock(more, at, Deltas(fold, high, |block|))
    ensures RowLeaves(more, fold, high, block + [at])
  {
    hide Deltas, HoldsBlock;
    RowLeavesStay(elements, more, fold, high, block);
  }

  lemma RowsStay(elements: seq<u16>, more: seq<u16>, fold: u16 -> u16, rows: nat)
    requires rows <= 0x100 <= |elements| && RowsDone(elements, fold, rows)
    requires Extends(elements, more) && forall high :: 0 <= high < rows ==> more[high] == elements[high]
    ensures RowsDone(more, fold, rows)
  {
    hide RowDone;
    if |more| <= 0x1_0000 {
      forall high: nat | high < rows ensures RowDone(more, fold, high) {
        RowStays(elements, more, fold, high);
      }
    }
  }

  /** The second-level blocks are the places of the rows so far, and of nothing else. */
  ghost predicate RowsIndexed(fold: u16 -> u16, rows: nat, leaves: map<seq<u16>, u16>, levelTwos: map<seq<u16>, u16>)
    requires rows <= 0x100
  {
    && (forall block :: block in levelTwos ==> |block| == 0x10 && IsPlaced(RowsBelow(fold, rows), leaves, block))
    && (forall row :: row in RowsBelow(fold, rows) ==> HasPlace(leaves, levelTwos, row))
    && |levelTwos| == |RowsBelow(fold, rows)|
  }

  ghost predicate IsPlaced(rows: set<seq<seq<u16>>>, leaves: map<seq<u16>, u16>, block: seq<u16>) {
    exists row :: row in rows && Places(leaves, row, block)
  }

  ghost predicate HasPlace(leaves: map<seq<u16>, u16>, levelTwos: map<seq<u16>, u16>, row: seq<seq<u16>>) {
    exists block :: block in levelTwos && |block| == 0x10 && Places(leaves, row, block)
  }

  /** While the table fits, different leaves are in different places, so places tell rows apart. */
  lemma PlacesTellRowsApart(elements: seq<u16>, leaves: map<seq<u16>, u16>, one: seq<seq<u16>>, other: seq<seq<u16>>, block: seq<u16>)
    requires |elements| <= 0x1_0000 && Indexes(elements, leaves)
    requires forall leaf :: leaf in leaves ==> |leaf| == 0x10
    requires |one| == |other| == |block| && Places(leaves, one, block) && Places(leaves, other, block)
    ensures one == other
  {
    forall m | 0 <= m < |one| ensures one[m] == other[m] {
      assert HoldsBlock(elements, leaves[one[m]], one[m]) && HoldsBlock(elements, leaves[other[m]], other[m]);
    }
  }

  lemma PlacesStay(leaves: map<seq<u16>, u16>, index: map<seq<u16>, u16>, row: seq<seq<u16>>, block: seq<u16>)
    requires Places(leaves, row, block) && Agrees(leaves, index)
    ensures Places(index, row, block)
  {
  }

  lemma OnePlacing(leaves: map<seq<u16>, u16>, row: seq<seq<u16>>, one: seq<u16>, other: seq<u16>)
    requires Places(leaves, row, one) && Places(leaves, row, other) && |one| == |other|
    ensures one == other
  {
  }

  lemma StaysPlaced(rows: set<seq<seq<u16>>>, more: set<seq<seq<u16>>>, leaves: map<seq<u16>, u16>, index: map<seq<u16>, u16>, block: seq<u16>)
    requires IsPlaced(rows, leaves, block) && Agrees(leaves, index) && rows <= more
    ensures IsPlaced(more, index, block)
  {
    hide Places, Agrees;
    var row :| row in rows && Places(leaves, row, block);
    PlacesStay(leaves, index, row, block);
  }

  lemma StillHasPlace(leaves: map<seq<u16>, u16>, index: map<seq<u16>, u16>, levelTwos: map<seq<u16>, u16>, row: seq<seq<u16>>)
    requires HasPlace(leaves, levelTwos, row) && Agrees(leaves, index)
    ensures HasPlace(index, levelTwos, row)
  {
    hide Places, Agrees;
    var block :| block in levelTwos && |block| == 0x10 && Places(leaves, row, block);
    PlacesStay(leaves, index, row, block);
  }

  lemma RowsStayIndexed(fold: u16 -> u16, rows: nat, leaves: map<seq<u16>, u16>, index: map<seq<u16>, u16>, levelTwos: map<seq<u16>, u16>)
    requires rows <= 0x100 && RowsIndexed(fold, rows, leaves, levelTwos) && Agrees(leaves, index)
    ensures RowsIndexed(fold, rows, index, levelTwos)
  {
    hide RowsBelow, IsPlaced, HasPlace, Agrees;
    forall block | block in levelTwos ensures IsPlaced(RowsBelow(fold, rows), index, block) {
      StaysPlaced(RowsBelow(fold, rows), RowsBelow(fold, rows), leaves, index, block);
    }
    forall row | row in RowsBelow(fold, rows) ensures HasPlace(index, levelTwos, row) {
      StillHasPlace(leaves, index, levelTwos, row);
    }
  }

  lemma RowsHaveSixteen(fold: u16 -> u16, rows: nat, row: seq<seq<u16>>)
    requires rows <= 0x100 && row in RowsBelow(fold, rows)
    ensures |row| == 0x10
  {
  }

  lemma LeavesHaveSixteen(fold: u16 -> u16, rows: nat, leaf: seq<u16>)
    requires rows <= 0x100 && leaf in LeavesBelow(fold, rows, 0)
    ensures |leaf| == 0x10
  {
  }

  /** A row's block is new exactly when the row is. */
  lemma NewBlockNewRow(elements: seq<u16>, fold: u16 -> u16, rows: nat, leaves: map<seq<u16>, u16>, levelTwos: map<seq<u16>, u16>, block: seq<u16>)
    requires rows < 0x100 && RowsIndexed(fold, rows, leaves, levelTwos) && |elements| <= 0x1_0000 && Indexes(elements, leaves)
    requires leaves.Keys == LeavesBelow(fold, rows + 1, 0)
    requires |block| == 0x10 && Places(leaves, RowDeltas(fold, rows), block)
    ensures block in levelTwos <==> RowDeltas(fold, rows) in RowsBelow(fold, rows)
  {
    hide Places, Indexes, RowDeltas, RowsBelow, LeavesBelow;
    var row := RowDeltas(fold, rows);
    if block in levelTwos {
      assert IsPlaced(RowsBelow(fold, rows), leaves, block);
      var same :| same in RowsBelow(fold, rows) && Places(leaves, same, block);
      RowsHaveSixteen(fold, rows, same);
      forall leaf | leaf in leaves ensures |leaf| == 0x10 {
        LeavesHaveSixteen(fold, rows + 1, leaf);
      }
      PlacesTellRowsApart(elements, leaves, row, same, block);
    }
    if row in RowsBelow(fold, rows) {
      assert HasPlace(leaves, levelTwos, row);
      var same :| same in levelTwos && |same| == 0x10 && Places(leaves, row, same);
      OnePlacing(leaves, row, same, block);
    }
  }

  lemma RowIndexed(elements: seq<u16>, fold: u16 -> u16, rows: nat, leaves: map<seq<u16>, u16>,
                   levelTwos: map<seq<u16>, u16>, index: map<seq<u16>, u16>, block: seq<u16>)
    requires rows < 0x100 && RowsIndexed(fold, rows, leaves, levelTwos) && |elements| <= 0x1_0000 && Indexes(elements, leaves)
    requires leaves.Keys == LeavesBelow(fold, rows + 1, 0)
    requires |block| == 0x10 && Places(leaves, RowDeltas(fold, rows), block)
    requires index.Keys == levelTwos.Keys + {block} && |index| == |levelTwos| + if block in levelTwos then 0 else 1
    ensures RowsIndexed(fold, rows + 1, leaves, index)
  {
    hide Places, Indexes, RowDeltas, RowsBelow, LeavesBelow, IsPlaced, HasPlace;
    NewBlockNewRow(elements, fold, rows, leaves, levelTwos, block);
    SizesGrow(fold, rows);
    RowAdded(fold, rows);
    AgreesWithItself(leaves);
    var all := RowsBelow(fold, rows + 1);
    forall other | other in index ensures |other| == 0x10 && IsPlaced(all, leaves, other) {
      if other in levelTwos {
        StaysPlaced(RowsBelow(fold, rows), all, leaves, leaves, other);
      } else {
        RowIsPlaced(all, leaves, RowDeltas(fold, rows), block);
      }
    }
    forall row | row in all ensures HasPlace(leaves, index, row) {
      if row in RowsBelow(fold, rows) {
        PlaceStays(leaves, levelTwos, index, row);
      } else {
        PlaceIs(leaves, index, row, block);
      }
    }
  }

  lemma AgreesWithItself(leaves: map<seq<u16>, u16>)
    ensures Agrees(leaves, leaves)
  {
  }

  lemma RowIsPlaced(rows: set<seq<seq<u16>>>, leaves: map<seq<u16>, u16>, row: seq<seq<u16>>, block: seq<u16>)
    requires row in rows && Places(leaves, row, block)
    ensures IsPlaced(rows, leaves, block)
  {
  }

  lemma PlaceIs(leaves: map<seq<u16>, u16>, index: map<seq<u16>, u16>, row: seq<seq<u16>>, block: seq<u16>)
    requires block in index && |block| == 0x10 && Places(leaves, row, block)
    ensures HasPlace(leaves, index, row)
  {
  }

  lemma PlaceStays(leaves: map<seq<u16>, u16>, levelTwos: map<seq<u16>, u16>, index: map<seq<u16>, u16>, row: seq<seq<u16>>)
    requires HasPlace(leaves, levelTwos, row) && levelTwos.Keys <= index.Keys
    ensures HasPlace(leaves, index, row)
  {
    hide Places;
    var block :| block in levelTwos && |block| == 0x10 && Places(leaves, row, block);
    assert block in levelTwos.Keys;
  }

  /** The table is as large as the fold says, so long as either fits. */
  ghost predicate RightSize(elements: seq<u16>, fold: u16 -> u16, rows: nat)
    requires rows <= 0x100
  {
    |elements| <= 0x1_0000 || SizeBelow(fold, rows) <= 0x1_0000 ==> |elements| == SizeBelow(fold, rows)
  }

  /** What the two indexes say of the table so far. */
  ghost predicate Counted(elements: seq<u16>, fold: u16 -> u16, rows: nat, leaves: map<seq<u16>, u16>, levelTwos: map<seq<u16>, u16>)
    requires rows <= 0x100
  {
    && leaves.Keys == LeavesBelow(fold, rows, 0) && |elements| == LEVEL_ONE + 0x10 * (|leaves| + |levelTwos|)
    && (|elements| <= 0x1_0000 ==> RowsIndexed(fold, rows, leaves, levelTwos))
    && RightSize(elements, fold, rows)
  }

  lemma CountStarts(elements: seq<u16>, fold: u16 -> u16)
    requires |elements| == LEVEL_ONE
    ensures Counted(elements, fold, 0, map[], map[])
  {
    hide Deltas;
    var noLeaves: map<seq<u16>, u16> := map[];
    assert noLeaves.Keys == {} && LeavesBelow(fold, 0, 0) == {} && RowsBelow(fold, 0) == {};
  }

  lemma SizesGrow(fold: u16 -> u16, rows: nat)
    requires rows < 0x100
    ensures |LeavesBelow(fold, rows, 0)| <= |LeavesBelow(fold, rows + 1, 0)|
    ensures |RowsBelow(fold, rows + 1)| == |RowsBelow(fold, rows)| + if RowDeltas(fold, rows) in RowsBelow(fold, rows) then 0 else 1
  {
    hide LeavesBelow, RowsBelow;
    LeavesRowDone(fold, rows);
    Cardinality(LeavesBelow(fold, rows, 0), LeavesBelow(fold, rows + 1, 0));
    RowAdded(fold, rows);
  }

  lemma Cardinality<T>(some: set<T>, all: set<T>)
    requires some <= all
    ensures |some| <= |all|
  {
    assert all == some + (all - some);
  }

  /** Encoding a row keeps the count. `row` is the table with the row's leaves, `linked` with its block too. */
  lemma CountGrows(elements: seq<u16>, row: seq<u16>, linked: seq<u16>, fold: u16 -> u16, rows: nat, leaves: map<seq<u16>, u16>,
                   more: map<seq<u16>, u16>, levelTwos: map<seq<u16>, u16>, index: map<seq<u16>, u16>, block: seq<u16>)
    requires rows < 0x100 && Counted(elements, fold, rows, leaves, levelTwos)
    requires |elements| <= |row| <= |linked| && Indexes(row, more) && more.Keys == LeavesBelow(fold, rows + 1, 0) && Agrees(leaves, more)
    requires |row| - |elements| == 0x10 * (|more| - |leaves|)
    requires |block| == 0x10 && Places(more, RowDeltas(fold, rows), block)
    requires index.Keys == levelTwos.Keys + {block}
    requires |linked| == |row| + (if block in levelTwos then 0 else 0x10) && |index| == |levelTwos| + if block in levelTwos then 0 else 1
    ensures Counted(linked, fold, rows + 1, more, index)
  {
    hide Indexes, LeavesBelow, RowsBelow, RowDeltas, Places, Agrees, RowsIndexed;
    SizesGrow(fold, rows);
    assert |leaves| == |leaves.Keys| && |more| == |more.Keys|;
    if |row| <= 0x1_0000 {
      RowsStayIndexed(fold, rows, leaves, more, levelTwos);
      RowsCounted(fold, rows, more, levelTwos);
      NewBlockNewRow(row, fold, rows, more, levelTwos, block);
      RowIndexed(row, fold, rows, more, levelTwos, index, block);
      RowsCounted(fold, rows + 1, more, index);
    }
  }

  lemma RowsCounted(fold: u16 -> u16, rows: nat, leaves: map<seq<u16>, u16>, levelTwos: map<seq<u16>, u16>)
    requires rows <= 0x100 && RowsIndexed(fold, rows, leaves, levelTwos)
    ensures |levelTwos| == |RowsBelow(fold, rows)|
  {
  }

  /** `trie_encoding`: the table that encodes a fold, blocks shared as they repeat. Its size is the fold's own. */
  method TrieEncoding(fold: u16 -> u16) returns (elements: seq<u16>)
    ensures |elements| >= LEVEL_ONE && RowsDone(elements, fold, 0x100)
    ensures |elements| <= 0x1_0000 <==> TableSize(fold) <= 0x1_0000
    ensures TableSize(fold) <= 0x1_0000 ==> |elements| == TableSize(fold)
  {
    hide RowDone, RowLeaves, Indexes, HoldsBlock, RowsDone, LeavesBelow, RowDeltas, Places, Agrees, RowsIndexed, SizeBelow, Counted, TableSize;
    elements := seq(LEVEL_ONE, i => 0);
    var leaves, levelTwos: map<seq<u16>, u16> := map[], map[];
    NoBlocksYet(elements);
    NoRowsYet(elements, fold);
    CountStarts(elements, fold);
    for high := 0 to 0x100
      invariant LEVEL_ONE <= |elements| && RowsDone(elements, fold, high)
      invariant Indexes(elements, leaves) && Indexes(elements, levelTwos)
      invariant Counted(elements, fold, high, leaves, levelTwos)
    {
      ghost var leavesBefore, twosBefore := leaves, levelTwos;
      EncodedStarts(elements, fold, leaves, levelTwos, high);
      var row, linked, at, block;
      row, leaves, block := EncodeRow(fold, high, elements, leaves);
      IndexesStay(elements, row, levelTwos);
      linked, levelTwos, at := Share(row, levelTwos, block);
      if block in twosBefore {
        SameIndex(twosBefore, levelTwos, block);
      }
      CountGrows(elements, row, linked, fold, high, leavesBefore, leaves, twosBefore, levelTwos, block);
      IndexesStay(row, linked, leaves);
      RowLeavesStay(row, linked, fold, high, block);
      var after := linked[high := at];
      IndexesStay(linked, after, leaves);
      IndexesStay(linked, after, levelTwos);
      RowsStay(elements, after, fold, high);
      NextRowDone(linked, after, fold, high, at, block);
      SameLengthCounted(linked, after, fold, high + 1, leaves, levelTwos);
      elements := after;
    }
    WholeIsCounted(elements, fold, leaves, levelTwos);
  }

  lemma SameLengthCounted(linked: seq<u16>, after: seq<u16>, fold: u16 -> u16, rows: nat, leaves: map<seq<u16>, u16>, levelTwos: map<seq<u16>, u16>)
    requires rows <= 0x100 && Counted(linked, fold, rows, leaves, levelTwos) && |after| == |linked|
    ensures Counted(after, fold, rows, leaves, levelTwos)
  {
    hide LeavesBelow, RowsIndexed, SizeBelow;
  }

  lemma WholeIsCounted(elements: seq<u16>, fold: u16 -> u16, leaves: map<seq<u16>, u16>, levelTwos: map<seq<u16>, u16>)
    requires Counted(elements, fold, 0x100, leaves, levelTwos)
    ensures |elements| <= 0x1_0000 <==> TableSize(fold) <= 0x1_0000
    ensures TableSize(fold) <= 0x1_0000 ==> |elements| == TableSize(fold)
  {
    hide LeavesBelow, RowsIndexed, SizeBelow;
  }

  lemma EncodedStarts(elements: seq<u16>, fold: u16 -> u16, leaves: map<seq<u16>, u16>, levelTwos: map<seq<u16>, u16>, rows: nat)
    requires rows <= 0x100 && Counted(elements, fold, rows, leaves, levelTwos)
    ensures leaves.Keys == LeavesBelow(fold, rows, 0)
  {
  }

  lemma SameIndex(blocks: map<seq<u16>, u16>, index: map<seq<u16>, u16>, block: seq<u16>)
    requires block in blocks && index.Keys == blocks.Keys + {block}
    ensures |index| == |blocks|
  {
    assert index.Keys == blocks.Keys && |index| == |index.Keys| && |blocks| == |blocks.Keys|;
  }

  lemma NoRowsYet(elements: seq<u16>, fold: u16 -> u16)
    requires LEVEL_ONE <= |elements|
    ensures RowsDone(elements, fold, 0)
  {
  }

  lemma NextRowDone(linked: seq<u16>, after: seq<u16>, fold: u16 -> u16, high: nat, at: u16, block: seq<u16>)
    requires high < 0x100 <= |linked| && after == linked[high := at] && |block| == 0x10
    requires |linked| <= 0x1_0000 ==> HoldsBlock(linked, at, block)
    requires RowLeaves(linked, fold, high, block) && RowsDone(after, fold, high)
    ensures RowsDone(after, fold, high + 1)
  {
    hide RowDone, RowLeaves, HoldsBlock;
    if |linked| <= 0x1_0000 {
      RowLinked(linked, fold, high, at, block);
    }
  }

  lemma NoBlocksYet(elements: seq<u16>)
    ensures Indexes(elements, map[])
  {
  }

  // ----- The round trip

  /** Memory in which the table sits at `base`, an element every two bytes. */
  ghost predicate Lays(mem: Memory, base: u64, elements: seq<u16>) {
    forall i :: 0 <= i < |elements| ==> Element(AlwaysAnswers(mem), 0, base, i) == Some(elements[i])
  }

  lemma UndoDelta(fold: u16 -> u16, unit: u16)
    ensures (unit + Delta(fold, unit)) % 0x1_0000 == fold(unit)
  {
  }

  /** Two links down from the first level is the unit's own delta. */
  lemma DeltaIsThere(fold: u16 -> u16, elements: seq<u16>, high: nat, middle: nat, low: nat)
    requires 0x100 <= |elements| <= 0x1_0000 && RowsDone(elements, fold, 0x100)
    requires high < 0x100 && middle < 0x10 && low < 0x10
    ensures elements[high] + middle < |elements| && elements[elements[high] + middle] + low < |elements|
    ensures elements[elements[elements[high] + middle] + low] == Delta(fold, 0x100 * high + 0x10 * middle + low)
  {
    hide Delta;
    assert RowDone(elements, fold, high) && LeafDone(elements, fold, high, middle);
    var at := elements[elements[high] + middle];
    assert elements[at..at + 0x10][low] == Deltas(fold, high, middle)[low];
  }

  /** Laying a fold out and walking it back gives the fold, for every code unit there is. */
  lemma RoundTrip(fold: u16 -> u16, elements: seq<u16>, mem: Memory, base: u64, unit: u16)
    requires 0x100 <= |elements| <= 0x1_0000 && RowsDone(elements, fold, 0x100) && Lays(mem, base, elements)
    ensures FromTable(mem, base, unit) == Some(fold(unit))
  {
    hide Element, RowsDone, Delta;
    var high, middle, low := unit / 0x100, (unit / 0x10) % 0x10, unit % 0x10;
    assert unit == 0x100 * high + 0x10 * middle + low;
    DeltaIsThere(fold, elements, high, middle, low);
    StillElement(mem, base, high);
    StillElement(mem, base, elements[high] + middle);
    StillElement(mem, base, elements[elements[high] + middle] + low);
    UndoDelta(fold, unit);
  }

  lemma StillElement(mem: Memory, base: u64, index: nat)
    ensures forall t: nat :: Element(AlwaysAnswers(mem), t, base, index) == Element(AlwaysAnswers(mem), 0, base, index)
  {
  }

  /** The table as bytes at `base`, and nothing anywhere else. */
  function TableMemory(base: u64, elements: seq<u16>): Memory {
    (at: int, len: nat) =>
      var offset := Wrap(at - base);
      if len == 2 && offset % 2 == 0 && offset / 2 < |elements| then
        Some(LE16(elements[offset / 2]))
      else None
  }

  lemma TableIsLaid(base: u64, elements: seq<u16>)
    requires |elements| <= 0x1_0000
    ensures Lays(TableMemory(base, elements), base, elements)
  {
    forall i | 0 <= i < |elements|
      ensures Element(AlwaysAnswers(TableMemory(base, elements)), 0, base, i) == Some(elements[i])
    {
      assert Wrap(Wrap(base + 2 * i) - base) == 2 * i;
      assert TableMemory(base, elements)(Wrap(base + 2 * i), 2) == Some(LE16(elements[i]));
      assert U16(LE16(elements[i])) == elements[i];
    }
  }

  /** Encoder and walk together: any fold whose size fits is laid out in that size and read back exactly. */
  method EncodeTable(fold: u16 -> u16, base: u64) returns (elements: seq<u16>, mem: Memory)
    ensures mem == TableMemory(base, elements)
    ensures |elements| <= 0x1_0000 <==> TableSize(fold) <= 0x1_0000
    ensures TableSize(fold) <= 0x1_0000 ==> |elements| == TableSize(fold) && forall unit: u16 :: FromTable(mem, base, unit) == Some(fold(unit))
  {
    hide RowsDone, FromTable, TableMemory, TableSize;
    elements := TrieEncoding(fold);
    mem := TableMemory(base, elements);
    if |elements| <= 0x1_0000 {
      TableIsLaid(base, elements);
      forall unit: u16 ensures FromTable(mem, base, unit) == Some(fold(unit)) {
        RoundTrip(fold, elements, mem, base, unit);
      }
    }
  }

  // ----- Which folds fit

  function Block(fold: u16 -> u16, unit: u16): seq<u16> {
    Deltas(fold, unit / 0x100, unit / 0x10 % 0x10)
  }

  function Row(fold: u16 -> u16, unit: u16): seq<seq<u16>> {
    RowDeltas(fold, unit / 0x100)
  }

  ghost predicate MovesOnly(fold: u16 -> u16, moved: set<u16>) {
    forall unit: u16 :: unit !in moved ==> fold(unit) == unit
  }

  const STILL: seq<u16> := seq(0x10, i => 0)

  lemma StillOrMoved(fold: u16 -> u16, moved: set<u16>, high: nat, middle: nat)
    requires MovesOnly(fold, moved) && high < 0x100 && middle < 0x10
    ensures Deltas(fold, high, middle) == STILL || exists unit :: unit in moved && unit / 0x100 == high && unit / 0x10 % 0x10 == middle
  {
    if Deltas(fold, high, middle) != STILL {
      var low :| 0 <= low < 0x10 && Deltas(fold, high, middle)[low] != STILL[low];
      var unit: u16 := 0x100 * high + 0x10 * middle + low;
      if unit !in moved {
        StaysPut(fold, unit);
      }
      UnitParts(high, middle, low);
    }
  }

  lemma StaysPut(fold: u16 -> u16, unit: u16)
    requires fold(unit) == unit
    ensures Delta(fold, unit) == 0
  {
  }

  lemma UnitParts(high: nat, middle: nat, low: nat)
    requires middle < 0x10 && low < 0x10
    ensures var unit := 0x100 * high + 0x10 * middle + low; unit / 0x100 == high && unit / 0x10 % 0x10 == middle
  {
  }

  ghost function Image<T>(f: u16 -> T, units: set<u16>): set<T> {
    set unit | unit in units :: f(unit)
  }

  lemma {:induction false} ImageIsNoLarger<T>(f: u16 -> T, units: set<u16>)
    ensures |Image(f, units)| <= |units|
  {
    if units != {} {
      var unit :| unit in units;
      ImageIsNoLarger(f, units - {unit});
      assert Image(f, units) == Image(f, units - {unit}) + {f(unit)};
    }
  }

  lemma WithOneMore<T>(some: set<T>, all: set<T>, one: T)
    requires some <= all + {one}
    ensures |some| <= |all| + 1
  {
    Cardinality(some, all + {one});
  }

  lemma LeavesOfFewMoves(fold: u16 -> u16, moved: set<u16>)
    requires MovesOnly(fold, moved)
    ensures |LeavesBelow(fold, 0x100, 0)| <= |moved| + 1
  {
    hide Deltas;
    var block := (unit: u16) => Block(fold, unit);
    forall leaf | leaf in LeavesBelow(fold, 0x100, 0) ensures leaf in Image(block, moved) + {STILL} {
      var high: nat, middle: nat :| high < 0x100 && middle < 0x10 && leaf == Deltas(fold, high, middle);
      StillOrMoved(fold, moved, high, middle);
      if leaf != STILL {
        var unit :| unit in moved && unit / 0x100 == high && unit / 0x10 % 0x10 == middle;
        assert block(unit) in Image(block, moved);
      }
    }
    WithOneMore(LeavesBelow(fold, 0x100, 0), Image(block, moved), STILL);
    ImageIsNoLarger(block, moved);
  }

  lemma RowsOfFewMoves(fold: u16 -> u16, moved: set<u16>)
    requires MovesOnly(fold, moved)
    ensures |RowsBelow(fold, 0x100)| <= |moved| + 1
  {
    hide Deltas;
    var rowOf := (unit: u16) => Row(fold, unit);
    var still := seq(0x10, m => STILL);
    forall row | row in RowsBelow(fold, 0x100) ensures row in Image(rowOf, moved) + {still} {
      var high: nat :| high < 0x100 && row == RowDeltas(fold, high);
      if row != still {
        var middle :| 0 <= middle < 0x10 && row[middle] != still[middle];
        StillOrMoved(fold, moved, high, middle);
        var unit :| unit in moved && unit / 0x100 == high;
        assert rowOf(unit) in Image(rowOf, moved);
      }
    }
    WithOneMore(RowsBelow(fold, 0x100), Image(rowOf, moved), still);
    ImageIsNoLarger(rowOf, moved);
  }

  /** A fold that moves no more than 2,039 units fits. Windows' own moves 973. */
  lemma FewMovesFit(fold: u16 -> u16, moved: set<u16>)
    requires MovesOnly(fold, moved) && |moved| <= 2039
    ensures TableSize(fold) <= 0x1_0000
  {
    hide LeavesBelow, RowsBelow, MovesOnly;
    LeavesOfFewMoves(fold, moved);
    RowsOfFewMoves(fold, moved);
  }
}
