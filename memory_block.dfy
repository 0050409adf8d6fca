/**
 * One contiguous region of the simulated address space: its offset, its
 * size, whether it is free, and the task that owns it. A block is an object:
 * the allocator finds it by reference and a running task holds a reference
 * to it, so freeing it in place is visible through both.
 */
module Blocks {
  import opened Common
  import opened Tasks

  /** The observable state of a block, as a value. */
  datatype BlockView = BlockView(offset: int, size: int, isFree: bool, owner: TaskItem?)

  /**
   * What `Split` does, on values: the exception it throws, or the pieces it
   * leaves in place of `v` (one piece for an exact fit, two otherwise).
   * A request of 0 that is not an exact fit fails in the constructor of the
   * allocated piece. The remainder's offset is a `ushort` cast, so it wraps.
   */
  function SplitResult(v: BlockView, requestedSize: UShort, owner: TaskItem): (r: Outcome<seq<BlockView>>)
    ensures !v.isFree ==> r == Fault(InvalidOperation)
    ensures v.isFree && requestedSize > v.size ==> r == Fault(ArgumentOutOfRange("requestedSize"))
    ensures v.isFree && requestedSize == 0 < v.size ==> r == Fault(ArgumentOutOfRange("size"))
    ensures r.Ok? <==> v.isFree && requestedSize <= v.size && (requestedSize == v.size || requestedSize > 0)
    ensures r.Ok? ==> 1 <= |r.value| <= 2
    ensures r.Ok? ==> r.value[0] == BlockView(v.offset, requestedSize, false, owner)
    ensures r.Ok? ==> (|r.value| == 1 <==> requestedSize == v.size)
    ensures r.Ok? && |r.value| == 2 ==>
      && r.value[1].isFree && r.value[1].owner == null
      && r.value[0].size + r.value[1].size == v.size
      && r.value[1].offset == (r.value[0].offset + r.value[0].size) % 0x1_0000
  {
    if !v.isFree then Fault(InvalidOperation)
    else if requestedSize < 0 || requestedSize > v.size then Fault(ArgumentOutOfRange("requestedSize"))
    else if requestedSize == v.size then Ok([v.(isFree := false, owner := owner)])
    else if requestedSize <= 0 then Fault(ArgumentOutOfRange("size"))
    else Ok([BlockView(v.offset, requestedSize, false, owner),
             BlockView((v.offset + requestedSize) % 0x1_0000, v.size - requestedSize, true, null)])
  }

  /** Inside the `ushort` range no wrap happens: the pieces tile exactly the range `v` covered. */
  lemma SplitTilesRange(v: BlockView, requestedSize: UShort, owner: TaskItem)
    requires v.offset + v.size <= 0x1_0000 && 0 <= v.offset
    requires SplitResult(v, requestedSize, owner).Ok?
    ensures var p := SplitResult(v, requestedSize, owner).value;
      && p[0].offset == v.offset
      && p[|p| - 1].offset + p[|p| - 1].size == v.offset + v.size
      && (|p| == 2 ==> p[1].offset == p[0].offset + p[0].size)
      && (forall k :: 0 <= k < |p| ==> p[k].size >= 1 || v.size == 0)
  {
  }

  class MemoryBlock {
    var offset: UShort
    var size: UShort
    var isFree: bool
    var owner: TaskItem?

    function View(): BlockView
      reads this
    {
      BlockView(offset, size, isFree, owner)
    }

    /** The constructor proper, for a size the argument check accepts. */
    constructor (offset: UShort, size: UShort, isFree: bool)
      requires size >= 1
      ensures View() == BlockView(offset, size, isFree, null)
    {
      this.offset := offset;
      this.size := size;
      this.isFree := isFree;
      this.owner := null;
    }

    /** `new MemoryBlock(offset, size, isFree)`: throws for a size of 0; a new block owns nothing. */
    static method New(offset: UShort, size: UShort, isFree: bool) returns (r: Outcome<MemoryBlock>)
      ensures size == 0 ==> r == Fault(ArgumentOutOfRange("size"))
      ensures size >= 1 ==> r.Ok? && fresh(r.value) && r.value.View() == BlockView(offset, size, isFree, null)
    {
      if size <= 0 {
        return Fault(ArgumentOutOfRange("size"));
      }
      var b := new MemoryBlock(offset, size, isFree);
      return Ok(b);
    }

    /** The `IsFree` setter: an actual change to free also clears the owner. */
    method SetIsFree(value: bool)
      modifies this`isFree, this`owner
      ensures isFree == value
      ensures owner == if value && !old(isFree) then null else old(owner)
      ensures offset == old(offset) && size == old(size)
    {
      if isFree == value {
        return;
      }
      isFree := value;
      if isFree {
        owner := null;
      }
    }

    /**
     * `Split(requestedSize, owner)`. An exact fit occupies this block itself;
     * otherwise two new blocks are made and this block is left as it was.
     */
    method Split(requestedSize: UShort, owner: TaskItem) returns (r: Outcome<(MemoryBlock, MemoryBlock?)>)
      modifies this`isFree, this`owner
      ensures var spec := SplitResult(old(View()), requestedSize, owner);
        && (spec.Fault? ==> r == Fault(spec.error) && View() == old(View()))
        && (spec.Ok? && |spec.value| == 1 ==> r == Ok((this, null)) && View() == spec.value[0])
        && (spec.Ok? && |spec.value| == 2 ==>
              && r.Ok? && r.value.1 != null
              && fresh(r.value.0) && fresh(r.value.1) && r.value.0 != r.value.1
              && r.value.0.View() == spec.value[0] && r.value.1.View() == spec.value[1]
              && View() == old(View()))
    {
      if !isFree {
        return Fault(InvalidOperation);
      }
      if requestedSize < 0 || requestedSize > size {
        return Fault(ArgumentOutOfRange("requestedSize"));
      }
      if requestedSize == size {
        SetIsFree(false);
        this.owner := owner;
        return Ok((this, null));
      }
      var made := New(offset, requestedSize, false);
      if made.Fault? {
        return Fault(made.error);
      }
      var allocatedBlock := made.value;
      allocatedBlock.owner := owner;
      var rest := New((offset + requestedSize) % 0x1_0000, size - requestedSize, true);
      var remainingBlock := rest.value;
      return Ok((allocatedBlock, remainingBlock));
    }
  }

  /** The views of a sequence of blocks, position by position. */
  function ViewsOf(bs: seq<MemoryBlock>): (vs: seq<BlockView>)
    reads bs
    ensures |vs| == |bs|
    ensures forall i {:trigger vs[i]} :: 0 <= i < |bs| ==> vs[i] == bs[i].View()
  {
    seq(|bs|, i requires 0 <= i < |bs| reads bs => bs[i].View())
  }
}
