/**
 * The first-fit allocator over a linear pool of `totalMemory` units. Its
 * ordered block list always tiles `[0, totalMemory)`: the first block starts
 * at 0, each block starts where the previous one ends, the last one ends at
 * the total. Allocation splits the first free block that is large enough;
 * freeing marks a block free in place and never merges neighbours.
 */
module Memory {
  import opened Common
  import opened Lists
  import opened Tasks
  import opened Blocks
  import opened Layout

  /** The pool size of a new manager. */
  const DefaultTotalMemory: UShort := 1000

  /** A block can take a request of `size` units. */
  predicate Fits(v: BlockView, size: int) {
    v.isFree && v.size >= size
  }

  /** First fit: the lowest index of a block that fits, or None when none does. */
  function FirstFit(vs: seq<BlockView>, size: int): (r: Option<nat>)
    ensures r.Some? ==> r.value < |vs| && Fits(vs[r.value], size)
    ensures r.Some? ==> forall j :: 0 <= j < r.value ==> !Fits(vs[j], size)
    ensures r.None? ==> forall j :: 0 <= j < |vs| ==> !Fits(vs[j], size)
  {
    if vs == [] then None
    else if Fits(vs[0], size) then Some(0)
    else
      match FirstFit(vs[1..], size)
      case None => None
      case Some(k) => Some(k + 1)
  }

  /** A successful allocation: where the blocks were split, and the new block list. */
  datatype Allocation = NoFit | Placed(index: nat, views: seq<BlockView>)

  /** What `Allocate` does, on values. */
  function AllocateResult(vs: seq<BlockView>, size: UShort, owner: TaskItem): (r: Outcome<Allocation>)
    ensures r == Ok(NoFit) <==> FirstFit(vs, size).None?
    ensures r.Ok? && r.value.Placed? ==>
      var i := r.value.index;
      var nvs := r.value.views;
      && FirstFit(vs, size) == Some(i)
      && |nvs| == |vs| + (if size < vs[i].size then 1 else 0)
      && i < |nvs| && nvs[..i] == vs[..i]
      && nvs[i] == BlockView(vs[i].offset, size, false, owner)
      && (size == vs[i].size ==> nvs[i + 1..] == vs[i + 1..])
      && (size < vs[i].size ==>
            && nvs[i + 1] == BlockView((vs[i].offset + size) % 0x1_0000, vs[i].size - size, true, null)
            && nvs[i + 2..] == vs[i + 1..])
  {
    match FirstFit(vs, size)
    case None => Ok(NoFit)
    case Some(i) =>
      match SplitResult(vs[i], size, owner)
      case Fault(e) => Fault(e)
      case Ok(pieces) =>
        var nvs := vs[..i] + pieces + vs[i + 1..];
        assert nvs[i + |pieces|..] == vs[i + 1..];
        Ok(Placed(i, nvs))
  }

  /** Allocation only throws for a request of 0, and then only when some block is free. */
  lemma AllocateFaultOnlyForZero(vs: seq<BlockView>, total: int, size: UShort, owner: TaskItem)
    requires Tiles(vs, total)
    ensures AllocateResult(vs, size, owner).Fault? <==> size == 0 && FirstFit(vs, 0).Some?
  {
  }

  /** Replacing one block of a tiling by pieces that tile the same range gives a tiling. */
  lemma ReplaceTiles(vs: seq<BlockView>, total: int, i: nat, p: seq<BlockView>)
    requires Tiles(vs, total) && i < |vs|
    requires |p| >= 1 && Adjacent(p) && (forall k :: 0 <= k < |p| ==> p[k].size >= 1)
    requires p[0].offset == vs[i].offset && End(p[|p| - 1]) == End(vs[i])
    ensures Tiles(vs[..i] + p + vs[i + 1..], total)
  {
    var nvs := vs[..i] + p + vs[i + 1..];
    var n := |p|;
    assert |nvs| == |vs| + n - 1;
    assert forall k :: 0 <= k < i ==> nvs[k] == vs[k];
    assert forall k :: i <= k < i + n ==> nvs[k] == p[k - i];
    assert forall k :: i + n <= k < |nvs| ==> nvs[k] == vs[k - n + 1];
    forall k | 0 < k < |nvs| ensures nvs[k].offset == End(nvs[k - 1]) {
      if k < i {
      } else if k == i {
        assert nvs[k - 1] == vs[i - 1];
      } else if k < i + n {
        assert nvs[k - 1] == p[k - 1 - i];
      } else if k == i + n {
        assert nvs[k - 1] == p[n - 1];
        assert nvs[k] == vs[i + 1];
      } else {
        assert nvs[k - 1] == vs[k - n];
        assert nvs[k] == vs[k - n + 1];
      }
    }
    assert nvs[0].offset == 0 by {
      if i == 0 { assert nvs[0] == p[0]; } else { assert nvs[0] == vs[0]; }
    }
    assert End(nvs[|nvs| - 1]) == total by {
      if i == |vs| - 1 { assert nvs[|nvs| - 1] == p[n - 1]; } else { assert nvs[|nvs| - 1] == vs[|vs| - 1]; }
    }
  }

  /** Replacing one block by pieces that are free exactly when unowned keeps that property. */
  lemma ReplaceOwned(vs: seq<BlockView>, i: nat, p: seq<BlockView>)
    requires OwnedIffOccupied(vs) && OwnedIffOccupied(p) && i < |vs|
    ensures OwnedIffOccupied(vs[..i] + p + vs[i + 1..])
  {
    var nvs := vs[..i] + p + vs[i + 1..];
    forall k | 0 <= k < |nvs| ensures nvs[k].isFree <==> nvs[k].owner == null {
      if k < i {
        assert nvs[k] == vs[k];
      } else if k < i + |p| {
        assert nvs[k] == p[k - i];
      } else {
        assert nvs[k] == vs[k - |p| + 1];
      }
    }
  }

  /** Allocation keeps the block list a tiling of the pool and keeps "free iff unowned". */
  lemma AllocatePreservesTiles(vs: seq<BlockView>, total: UShort, size: UShort, owner: TaskItem)
    requires Tiles(vs, total) && OwnedIffOccupied(vs)
    requires AllocateResult(vs, size, owner).Ok? && AllocateResult(vs, size, owner).value.Placed?
    ensures Tiles(AllocateResult(vs, size, owner).value.views, total)
    ensures OwnedIffOccupied(AllocateResult(vs, size, owner).value.views)
  {
    var i := FirstFit(vs, size).value;
    var pieces := SplitResult(vs[i], size, owner).value;
    assert AllocateResult(vs, size, owner).value.views == vs[..i] + pieces + vs[i + 1..];
    assert 0 <= vs[i].offset by {
      if 0 < i { TilesOrdered(vs, total, 0, i); }
    }
    assert End(vs[i]) <= total by {
      if i < |vs| - 1 { TilesOrdered(vs, total, i, |vs| - 1); }
    }
    SplitTilesRange(vs[i], size, owner);
    ReplaceTiles(vs, total, i, pieces);
    ReplaceOwned(vs, i, pieces);
  }

  /** Allocation at the first fit `i` is the split of block `i`, and when it succeeds the result still tiles. */
  lemma AllocateAt(vs: seq<BlockView>, total: UShort, size: UShort, owner: TaskItem, i: nat)
    requires Tiles(vs, total) && OwnedIffOccupied(vs) && FirstFit(vs, size) == Some(i)
    ensures var sp := SplitResult(vs[i], size, owner);
      && (sp.Fault? ==> AllocateResult(vs, size, owner) == Fault(sp.error))
      && (sp.Ok? ==>
            var nvs := vs[..i] + sp.value + vs[i + 1..];
            && AllocateResult(vs, size, owner) == Ok(Placed(i, nvs))
            && Tiles(nvs, total) && OwnedIffOccupied(nvs))
  {
    if SplitResult(vs[i], size, owner).Ok? {
      AllocatePreservesTiles(vs, total, size, owner);
    }
  }

  /**
   * What `Free` does, on values, given the index `IndexOf` found (-1 when the
   * block is not in the list): whether it freed, and the new block list.
   */
  function FreeResult(vs: seq<BlockView>, k: int): (r: (bool, seq<BlockView>))
    requires -1 <= k < |vs|
    ensures r.0 <==> 0 <= k && !vs[k].isFree
    ensures |r.1| == |vs|
    ensures forall j :: 0 <= j < |vs| ==> r.1[j].offset == vs[j].offset && r.1[j].size == vs[j].size
    ensures forall j :: 0 <= j < |vs| && j != k ==> r.1[j] == vs[j]
    ensures r.0 ==> r.1[k].isFree && r.1[k].owner == null
    ensures !r.0 ==> r.1 == vs
  {
    if k == -1 || vs[k].isFree then (false, vs)
    else (true, vs[k := vs[k].(isFree := true, owner := null)])
  }

  /** Freeing keeps the tiling (and never merges blocks); freeing the same block again does nothing. */
  lemma FreePreservesTiles(vs: seq<BlockView>, total: int, k: int)
    requires Tiles(vs, total) && OwnedIffOccupied(vs) && -1 <= k < |vs|
    ensures Tiles(FreeResult(vs, k).1, total) && OwnedIffOccupied(FreeResult(vs, k).1)
    ensures !FreeResult(FreeResult(vs, k).1, k).0
    ensures FreeResult(FreeResult(vs, k).1, k).1 == FreeResult(vs, k).1
  {
  }

  /** The views of a sequence with one position replaced are the old views with that position replaced. */
  lemma ViewsOfReplace(bs: seq<MemoryBlock>, i: nat, p: seq<MemoryBlock>)
    requires i < |bs|
    ensures ViewsOf(bs[..i] + p + bs[i + 1..]) == ViewsOf(bs)[..i] + ViewsOf(p) + ViewsOf(bs)[i + 1..]
  {
    var r := bs[..i] + p + bs[i + 1..];
    var w := ViewsOf(bs)[..i] + ViewsOf(p) + ViewsOf(bs)[i + 1..];
    forall j | 0 <= j < |r| ensures ViewsOf(r)[j] == w[j] {
      if j < i {
        assert r[j] == bs[j];
      } else if j < i + |p| {
        assert r[j] == p[j - i];
      } else {
        assert r[j] == bs[j - |p| + 1];
      }
    }
  }

  class MemoryManager {
    var totalMemory: UShort
    var blocks: seq<MemoryBlock>
    /** The block list as values: what the blocks look like now, in list order. */
    ghost var views: seq<BlockView>
    /** Every block object the manager has made: a frame for the blocks it may change. */
    ghost var repr: set<MemoryBlock>

    /** The allocator's invariant: distinct block objects whose views tile the pool. */
    ghost predicate Valid()
      reads this, blocks
    {
      Sound(blocks, views, repr, totalMemory)
    }

    /** A new manager: a pool of 1000 units held by one free block. */
    constructor ()
      ensures Valid() && totalMemory == DefaultTotalMemory
      ensures |blocks| == 1 && fresh(blocks[0]) && repr == {blocks[0]}
      ensures views == [BlockView(0, DefaultTotalMemory, true, null)]
    {
      totalMemory := DefaultTotalMemory;
      var b := new MemoryBlock(0, DefaultTotalMemory, true);
      blocks := [b];
      views := [b.View()];
      repr := {b};
    }

    /**
     * `Allocate(sizeTask, owner)`: scans in list order, splits the first free
     * block that is large enough, puts the occupied piece in its place and
     * the remainder right after it. Returns null when nothing fits.
     */
    method Allocate(sizeTask: UShort, owner: TaskItem) returns (r: Outcome<MemoryBlock?>)
      requires Valid()
      modifies this`blocks, this`views, this`repr, repr`isFree, repr`owner
      ensures Valid() && totalMemory == old(totalMemory)
      ensures match AllocateResult(old(views), sizeTask, owner)
        case Fault(e) => r == Fault(e) && blocks == old(blocks) && views == old(views)
        case Ok(NoFit) => r == Ok(null) && blocks == old(blocks) && views == old(views)
        case Ok(Placed(i, nvs)) =>
          && r.Ok? && r.value != null && i < |blocks| && blocks[i] == r.value && views == nvs
          && !r.value.isFree && r.value.owner == owner && r.value.size == sizeTask
          && (sizeTask == old(views)[i].size ==> blocks == old(blocks))
          && (sizeTask < old(views)[i].size ==>
                && |blocks| == |old(blocks)| + 1
                && blocks == old(blocks)[..i] + [r.value, blocks[i + 1]] + old(blocks)[i + 1..]
                && fresh(r.value) && fresh(blocks[i + 1]) && unchanged(old(blocks)[i]))
      ensures fresh(repr - old(repr))
      ensures forall b {:trigger b in blocks} :: b in blocks ==> b in old(blocks) || fresh(b)
      ensures forall b {:trigger b in old(blocks)} :: b in old(blocks) && !old(b.isFree) ==> b in blocks && unchanged(b)
      ensures forall b {:trigger b in blocks} :: b in blocks && !b.isFree ==> (b in old(blocks) && !old(b.isFree)) || (r.Ok? && b == r.value)
    {
      ghost var vs := views;
      var i := 0;
      while i < |blocks|
        invariant 0 <= i <= |blocks|
        invariant forall j :: 0 <= j < i ==> !Fits(vs[j], sizeTask)
      {
        var block := blocks[i];
        if !block.isFree {
          i := i + 1;
          continue;
        }
        if block.size < sizeTask {
          i := i + 1;
          continue;
        }
        assert blocks[i].View() == vs[i];
        AllocateAt(vs, totalMemory, sizeTask, owner, i);
        r := SplitAt(i, sizeTask, owner);
        assert r.Ok? ==> views[i] == blocks[i].View();
        return;
      }
      assert FirstFit(vs, sizeTask).None?;
      return Ok(null);
    }

    /** The body of `Allocate` once block `i` is the first fit: split it and put the pieces in its place. */
    method SplitAt(i: nat, sizeTask: UShort, owner: TaskItem) returns (r: Outcome<MemoryBlock?>)
      requires Valid() && i < |blocks| && FirstFit(views, sizeTask) == Some(i)
      modifies this`blocks, this`views, this`repr, repr`isFree, repr`owner
      ensures Valid() && totalMemory == old(totalMemory)
      ensures var sp := SplitResult(old(views)[i], sizeTask, owner);
        && (sp.Fault? ==> r == Fault(sp.error) && blocks == old(blocks) && views == old(views))
        && (sp.Ok? ==>
              && r.Ok? && r.value != null && i < |blocks| && blocks[i] == r.value
              && views == old(views)[..i] + sp.value + old(views)[i + 1..])
        && (sp.Ok? && |sp.value| == 1 ==> blocks == old(blocks))
        && (sp.Ok? && |sp.value| == 2 ==>
              && |blocks| == |old(blocks)| + 1
              && blocks == old(blocks)[..i] + [r.value, blocks[i + 1]] + old(blocks)[i + 1..]
              && fresh(r.value) && fresh(blocks[i + 1]) && unchanged(old(blocks)[i]))
      ensures fresh(repr - old(repr))
      ensures forall b {:trigger b in blocks} :: b in blocks ==> b in old(blocks) || fresh(b)
      ensures forall b {:trigger b in old(blocks)} :: b in old(blocks) && !old(b.isFree) ==> b in blocks && unchanged(b)
      ensures forall b {:trigger b in blocks} :: b in blocks && !b.isFree ==> (b in old(blocks) && !old(b.isFree)) || (r.Ok? && b == r.value)
    {
      ghost var vs := views;
      assert blocks[i].View() == vs[i];
      AllocateAt(vs, totalMemory, sizeTask, owner, i);
      ghost var sp := SplitResult(vs[i], sizeTask, owner);
      views := if sp.Ok? then vs[..i] + sp.value + vs[i + 1..] else vs;
      r := ReplaceBySplit(i, sizeTask, owner);
    }

    /** Splits block `i` and puts the pieces `Split` returns in its place in the list. */
    method ReplaceBySplit(i: nat, sizeTask: UShort, owner: TaskItem) returns (r: Outcome<MemoryBlock?>)
      requires Distinct(blocks) && i < |blocks| && blocks[i].isFree
      requires forall j :: 0 <= j < |blocks| ==> blocks[j] in repr
      modifies this`blocks, this`repr, blocks`isFree, blocks`owner
      ensures totalMemory == old(totalMemory)
      ensures (forall j :: 0 <= j < |blocks| ==> blocks[j] in repr) && fresh(repr - old(repr))
      ensures var spec := SplitResult(old(ViewsOf(blocks))[i], sizeTask, owner);
        && (spec.Fault? ==> r == Fault(spec.error) && blocks == old(blocks) && ViewsOf(blocks) == old(ViewsOf(blocks)))
        && (spec.Ok? ==>
              && r.Ok? && r.value != null && i < |blocks| && blocks[i] == r.value && Distinct(blocks)
              && ViewsOf(blocks) == old(ViewsOf(blocks))[..i] + spec.value + old(ViewsOf(blocks))[i + 1..])
        && (spec.Ok? && |spec.value| == 1 ==> blocks == old(blocks))
        && (spec.Ok? && |spec.value| == 2 ==>
              && |blocks| == |old(blocks)| + 1
              && blocks == old(blocks)[..i] + [r.value, blocks[i + 1]] + old(blocks)[i + 1..]
              && fresh(r.value) && fresh(blocks[i + 1]) && unchanged(old(blocks)[i]))
      ensures forall b {:trigger b in blocks} :: b in blocks ==> b in old(blocks) || fresh(b)
      ensures forall b {:trigger b in old(blocks)} :: b in old(blocks) && !old(b.isFree) ==> b in blocks && unchanged(b)
      ensures forall b {:trigger b in blocks} :: b in blocks && !b.isFree ==> (b in old(blocks) && !old(b.isFree)) || (r.Ok? && b == r.value)
    {
      ghost var vs := ViewsOf(blocks);
      var block := blocks[i];
      var split := block.Split(sizeTask, owner);
      ghost var oldBlocks := blocks;
      if split.Fault? {
        assert ViewsOf(blocks) == vs by {
          forall j | 0 <= j < |blocks| ensures ViewsOf(blocks)[j] == vs[j] {
          }
        }
        return Fault(split.error);
      }
      var allocatedBlock, remainingBlock := split.value.0, split.value.1;
      ghost var pieces := SplitResult(vs[i], sizeTask, owner).value;
      if remainingBlock == null {
        blocks := blocks[i := allocatedBlock];
        assert blocks == oldBlocks;
        ghost var nvs := vs[..i] + pieces + vs[i + 1..];
        forall j | 0 <= j < |blocks| ensures ViewsOf(blocks)[j] == nvs[j] {
          if j != i {
            assert oldBlocks[j] != block;
          }
        }
        assert ViewsOf(blocks) == nvs;
      } else {
        assert ViewsOf(blocks) == vs by {
          forall j | 0 <= j < |blocks| ensures ViewsOf(blocks)[j] == vs[j] {
          }
        }
        InsertPieces(i, allocatedBlock, remainingBlock);
        assert [allocatedBlock.View(), remainingBlock.View()] == pieces;
        repr := repr + {allocatedBlock, remainingBlock};
      }
      return Ok(allocatedBlock);
    }

    /** `_blocks[i] = a; _blocks.Insert(i + 1, rest)`, for two blocks not yet in the list. */
    method InsertPieces(i: nat, a: MemoryBlock, rest: MemoryBlock)
      requires Distinct(blocks) && i < |blocks| && a !in blocks && rest !in blocks && a != rest
      modifies this`blocks
      ensures blocks == old(blocks)[..i] + [a, rest] + old(blocks)[i + 1..]
      ensures Distinct(blocks)
      ensures forall b {:trigger b in blocks} :: b in blocks <==> (b in old(blocks) && b != old(blocks)[i]) || b == a || b == rest
      ensures ViewsOf(blocks) == old(ViewsOf(blocks))[..i] + [a.View(), rest.View()] + old(ViewsOf(blocks))[i + 1..]
    {
      ghost var oldBlocks := blocks;
      blocks := blocks[i := a];
      blocks := Insert(blocks, i + 1, rest);
      assert blocks == oldBlocks[..i] + [a, rest] + oldBlocks[i + 1..];
      DistinctReplace(oldBlocks, i, [a, rest]);
      ViewsOfReplace(oldBlocks, i, [a, rest]);
      assert ViewsOf([a, rest]) == [a.View(), rest.View()];
    }

    /**
     * `Free(block)`: throws for null; returns false, changing nothing, when the
     * block is not in the list or already free; otherwise frees it in place.
     */
    method Free(block: MemoryBlock?) returns (r: Outcome<bool>)
      requires Valid()
      modifies this`views, blocks`isFree, blocks`owner
      ensures Valid() && blocks == old(blocks) && totalMemory == old(totalMemory)
      ensures block == null ==> r == Fault(ArgumentNull("block"))
      ensures block != null ==>
        var res := FreeResult(old(views), IndexOf(blocks, block));
        r == Ok(res.0) && views == res.1
      ensures block != null ==> (r == Ok(true) <==> block in blocks && !old(block.isFree))
    {
      if block == null {
        return Fault(ArgumentNull("block"));
      }
      ghost var vs := views;
      var indx := IndexOf(blocks, block);
      if indx == -1 {
        return Ok(false);
      }
      var mb := blocks[indx];
      if mb.isFree {
        return Ok(false);
      }
      mb.SetIsFree(true);
      forall j | 0 <= j < |blocks| ensures ViewsOf(blocks)[j] == FreeResult(vs, indx).1[j] {
        if j != indx { assert blocks[j] != mb; }
      }
      assert ViewsOf(blocks) == FreeResult(vs, indx).1;
      FreePreservesTiles(vs, totalMemory, indx);
      views := ViewsOf(blocks);
      return Ok(true);
    }

    /** `GetBlocksSnapshot()`: the current block list, in address order. */
    method GetBlocksSnapshot() returns (s: seq<MemoryBlock>)
      requires Valid()
      ensures s == blocks
      ensures Tiles(ViewsOf(s), totalMemory) && TotalSize(ViewsOf(s)) == totalMemory
    {
      s := blocks;
      TilesTotal(ViewsOf(s), totalMemory);
    }

    /** `Reset(totalMemory)`: throws below 1; otherwise one free block spanning the new pool. */
    method Reset(total: UShort) returns (r: Outcome<()>)
      modifies this
      ensures total < 1 ==> r == Fault(ArgumentOutOfRange("totalMemory")) && unchanged(this)
      ensures total >= 1 ==>
        && r == Ok(()) && Valid() && totalMemory == total
        && |blocks| == 1 && fresh(blocks[0]) && repr == {blocks[0]}
        && views == [BlockView(0, total, true, null)]
    {
      if total < 1 {
        return Fault(ArgumentOutOfRange("totalMemory"));
      }
      totalMemory := total;
      var b := new MemoryBlock(0, totalMemory, true);
      blocks := [];
      blocks := blocks + [b];
      views := ViewsOf(blocks);
      repr := {b};
      return Ok(());
    }
  }
}
