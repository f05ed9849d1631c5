/** The DOS memory manager: an allocator over a vector of blocks that never merges them. */
module DosMemory {
  import opened Machine
  import opened Blocks

  class DosMemoryManager {
    const startSeg: u16
    const endSeg: u16
    var fit: Fit
    var blocks: seq<Block>

    ghost predicate Valid()
      reads this
    {
      Tiled(blocks, startSeg, endSeg)
    }

    constructor (startSeg: u16, endSeg: u16)
      requires startSeg <= endSeg
      ensures Valid()
      ensures this.startSeg == startSeg && this.endSeg == endSeg
      ensures fit == First && blocks == [Block(Free, startSeg, endSeg - startSeg)]
    {
      this.startSeg, this.endSeg := startSeg, endSeg;
      fit := First;
      blocks := [Block(Free, startSeg, endSeg - startSeg)];
    }

    method SetStrategy(fit: Fit)
      requires Valid()
      modifies this`fit
      ensures Valid() && this.fit == fit
    {
      this.fit := fit;
    }

    /** Hands out a free block, or a piece of one, of at least segs paragraphs. */
    method Allocate(segs: u16) returns (r: Option<u16>)
      requires Valid()
      modifies this`blocks
      ensures Valid()
      ensures (blocks, r) == Allocated(old(blocks), segs, fit)
      ensures Answers(old(blocks), blocks, segs, fit.Last?, r)
    {
      hide Answers, IsCut, CutFrom, Tiled, Allocated;
      AllocationCuts(blocks, startSeg, endSeg, segs, fit);
      if fit.Last? {
        var i := |blocks|;
        while i > 0
          invariant 0 <= i <= |blocks| && blocks == old(blocks)
          invariant forall j :: i <= j < |blocks| ==> !Fits(blocks[j], segs)
        {
          if blocks[i - 1].avail.Free? && blocks[i - 1].size >= segs {
            r := Carve(i - 1, segs);
            return;
          }
          i := i - 1;
        }
      } else {
        var i := 0;
        while i < |blocks|
          invariant 0 <= i <= |blocks| && blocks == old(blocks)
          invariant forall j :: 0 <= j < i ==> !Fits(blocks[j], segs)
        {
          if blocks[i].avail.Free? && blocks[i].size >= segs {
            r := Carve(i, segs);
            return;
          }
          i := i + 1;
        }
      }
      NothingFits(blocks, segs, fit);
      return None;
    }

    /** Marks the chosen block as used, after splitting off a large remainder as the strategy says. */
    method Carve(i: nat, segs: u16) returns (r: Option<u16>)
      requires Valid() && i < |blocks| && Fits(blocks[i], segs)
      requires if fit.Last? then forall j :: i < j < |blocks| ==> !Fits(blocks[j], segs)
               else forall j :: 0 <= j < i ==> !Fits(blocks[j], segs)
      modifies this`blocks
      ensures Valid()
      ensures (blocks, r) == Allocated(old(blocks), segs, fit)
      ensures r.Some? && CutFrom(old(blocks), blocks, i, segs, fit.Last?, r.value)
    {
      hide CutFrom, Chosen, Allocated, Tiled;
      Outcome(i, segs);
      var it := blocks[i];
      if it.size - segs <= SPLIT_THRESHOLD {
        assert Pieces(it, segs, fit) == [it.(avail := Used)];
        blocks := Replace(blocks, i, [it.(avail := Used)]);
        return Some(it.start);
      }
      if fit.Last? {
        var shrunk := it.(size := it.size - segs);
        var start := Wrap16(shrunk.start as int + shrunk.size);
        assert Pieces(it, segs, fit) == [shrunk, Block(Used, start, segs)];
        blocks := Replace(blocks, i, [shrunk, Block(Used, start, segs)]);
        return Some(start);
      }
      var rest := Block(Free, Wrap16(it.start as int + segs), it.size - segs);
      assert Pieces(it, segs, fit) == [it.(avail := Used, size := segs), rest];
      blocks := Replace(blocks, i, [it.(avail := Used, size := segs), rest]);
      return Some(it.start);
    }

    /** The block that a loop stops at is the one the specification picks. */
    lemma Outcome(i: nat, segs: u16)
      requires Valid() && i < |blocks| && Fits(blocks[i], segs)
      requires if fit.Last? then forall j :: i < j < |blocks| ==> !Fits(blocks[j], segs)
               else forall j :: 0 <= j < i ==> !Fits(blocks[j], segs)
      ensures Allocated(blocks, segs, fit)
           == (Replace(blocks, i, Pieces(blocks[i], segs, fit)), Some(GrantedStart(blocks[i], segs, fit)))
      ensures Tiled(Replace(blocks, i, Pieces(blocks[i], segs, fit)), startSeg, endSeg)
      ensures CutFrom(blocks, Replace(blocks, i, Pieces(blocks[i], segs, fit)), i, segs, fit.Last?,
                      GrantedStart(blocks[i], segs, fit))
    {
      assert Chosen(blocks, segs, fit) == i;
      ChosenIsCut(blocks, startSeg, endSeg, i, segs, fit);
      TiledInArena(blocks, startSeg, endSeg, i);
      PiecesTile(blocks[i], segs, fit);
      ReplaceKeepsTiling(blocks, startSeg, endSeg, i, Pieces(blocks[i], segs, fit));
    }

    /** Frees the used block that starts at seg. Free neighbours stay apart. */
    method Release(seg: u16) returns (ok: bool)
      requires Valid()
      modifies this`blocks
      ensures Valid()
      ensures (blocks, ok) == Released(old(blocks), seg)
      ensures ok <==> exists i :: 0 <= i < |old(blocks)| && old(blocks)[i].avail == Used && old(blocks)[i].start == seg
    {
      ReleaseFrees(blocks, seg);
      var i := 0;
      while i < |blocks|
        invariant 0 <= i <= |blocks| && blocks == old(blocks)
        invariant forall j :: 0 <= j < i ==> !StartsUsed(blocks[j], seg)
      {
        var it := blocks[i];
        if it.start == seg && it.avail.Used? {
          assert FindUsed(blocks, seg) == i;
          ReplaceKeepsTiling(blocks, startSeg, endSeg, i, [it.(avail := Free)]);
          blocks := Replace(blocks, i, [it.(avail := Free)]);
          return true;
        }
        i := i + 1;
      }
      return false;
    }
  }
}
