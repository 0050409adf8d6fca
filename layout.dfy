/**
 * How a block list lays out the pool: the blocks tile `[0, total)` in
 * address order, each block is free exactly when it has no owner, and the
 * allocator's block objects are distinct and show exactly these views.
 */
module Layout {
  import opened Lists
  import opened Blocks

  function End(v: BlockView): int {
    v.offset + v.size
  }

  /** Each block starts where the one before it ends. */
  ghost predicate Adjacent(vs: seq<BlockView>) {
    forall i, j {:trigger vs[i], vs[j]} :: 0 <= i && j == i + 1 && j < |vs| ==> vs[j].offset == End(vs[i])
  }

  /** The block list partitions `[0, total)`: no gaps, no overlaps, no empty blocks. */
  ghost predicate Tiles(vs: seq<BlockView>, total: int) {
    && |vs| >= 1
    && vs[0].offset == 0
    && (forall k :: 0 <= k < |vs| ==> vs[k].size >= 1)
    && Adjacent(vs)
    && End(vs[|vs| - 1]) == total
  }

  /** A block is free exactly when it has no owner. */
  ghost predicate OwnedIffOccupied(vs: seq<BlockView>) {
    forall k :: 0 <= k < |vs| ==> (vs[k].isFree <==> vs[k].owner == null)
  }

  function TotalSize(vs: seq<BlockView>): int {
    if vs == [] then 0 else vs[0].size + TotalSize(vs[1..])
  }

  /** The sizes of a tiling sum to the pool size. */
  lemma TilesTotal(vs: seq<BlockView>, total: int)
    requires Tiles(vs, total)
    ensures TotalSize(vs) == total
  {
    SuffixSize(vs, 0);
  }

  lemma {:induction false} SuffixSize(vs: seq<BlockView>, k: nat)
    requires |vs| >= 1 && Adjacent(vs) && k < |vs|
    ensures TotalSize(vs[k..]) == End(vs[|vs| - 1]) - vs[k].offset
    decreases |vs| - k
  {
    if k == |vs| - 1 {
      assert vs[k..][1..] == [];
    } else {
      SuffixSize(vs, k + 1);
      assert vs[k..][1..] == vs[k + 1..];
      assert vs[k + 1].offset == End(vs[k]);
    }
  }

  /** Blocks further along the list lie strictly after earlier ones: no two blocks overlap. */
  lemma {:induction false} TilesOrdered(vs: seq<BlockView>, total: int, i: nat, j: nat)
    requires Tiles(vs, total) && i < j < |vs|
    ensures End(vs[i]) <= vs[j].offset
  {
    if i + 1 < j {
      TilesOrdered(vs, total, i, j - 1);
      assert vs[j].offset == End(vs[j - 1]);
    }
  }

  ghost predicate Covers(v: BlockView, a: int) {
    v.offset <= a < End(v)
  }

  /** Every address of the pool lies in exactly one block. */
  lemma TilesCoverOnce(vs: seq<BlockView>, total: int, a: int)
    requires Tiles(vs, total) && 0 <= a < total
    ensures exists k :: 0 <= k < |vs| && Covers(vs[k], a)
    ensures forall i, j :: 0 <= i < |vs| && 0 <= j < |vs| && Covers(vs[i], a) && Covers(vs[j], a) ==> i == j
  {
    CoverFrom(vs, total, a, 0);
    forall i, j | 0 <= i < |vs| && 0 <= j < |vs| && Covers(vs[i], a) && Covers(vs[j], a)
      ensures i == j
    {
      if i < j {
        TilesOrdered(vs, total, i, j);
      } else if j < i {
        TilesOrdered(vs, total, j, i);
      }
    }
  }

  lemma {:induction false} CoverFrom(vs: seq<BlockView>, total: int, a: int, k: nat)
    requires Tiles(vs, total) && k < |vs| && vs[k].offset <= a < total
    ensures exists m :: k <= m < |vs| && Covers(vs[m], a)
    decreases |vs| - k
  {
    if !Covers(vs[k], a) {
      assert k + 1 < |vs|;
      assert vs[k + 1].offset == End(vs[k]);
      CoverFrom(vs, total, a, k + 1);
    }
  }

  /** The allocator's invariant over its block objects, their views and its footprint `repr`. */
  ghost predicate Sound(blocks: seq<MemoryBlock>, views: seq<BlockView>, repr: set<MemoryBlock>, total: int)
    reads blocks
  {
    && Distinct(blocks)
    && (forall i :: 0 <= i < |blocks| ==> blocks[i] in repr)
    && views == ViewsOf(blocks)
    && Tiles(views, total)
    && OwnedIffOccupied(views)
  }
}
