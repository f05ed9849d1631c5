/** The block list of the DOS memory manager, and what one call does to it. */
module Blocks {
  import opened Machine

  datatype Avail = Free | Used | System
  datatype Fit = First | Best | Last

  /** A run of 16-byte paragraphs, named by its first segment. */
  datatype Block = Block(avail: Avail, start: u16, size: u16) {
    function End(): int { start + size }
  }

  /** The largest slack that is handed out with a request instead of being split off. */
  const SPLIT_THRESHOLD := 256

  predicate Fits(b: Block, segs: u16) {
    b.avail.Free? && b.size >= segs
  }

  // ----- What one call does

  /** Index of the lowest fitting block, or |bs|. */
  function LowestFit(bs: seq<Block>, segs: u16): (i: nat)
    ensures i <= |bs|
    ensures i < |bs| ==> Fits(bs[i], segs)
    ensures forall j :: 0 <= j < i ==> !Fits(bs[j], segs)
  {
    if bs == [] || Fits(bs[0], segs) then 0 else 1 + LowestFit(bs[1..], segs)
  }

  /** Index of the highest fitting block, or -1. */
  function HighestFit(bs: seq<Block>, segs: u16): (i: int)
    ensures -1 <= i < |bs|
    ensures i >= 0 ==> Fits(bs[i], segs)
    ensures forall j :: i < j < |bs| ==> !Fits(bs[j], segs)
  {
    if bs == [] || Fits(bs[|bs| - 1], segs) then |bs| - 1 else HighestFit(bs[..|bs| - 1], segs)
  }

  function Replace(bs: seq<Block>, i: nat, pieces: seq<Block>): seq<Block>
    requires i < |bs|
  {
    bs[..i] + pieces + bs[i + 1..]
  }

  /** A fitting block becomes one used block, or a used and a free one in the order of the strategy. */
  function Pieces(b: Block, segs: u16, fit: Fit): seq<Block>
    requires Fits(b, segs)
  {
    if b.size - segs <= SPLIT_THRESHOLD then
      [b.(avail := Used)]
    else if fit.Last? then
      [b.(size := b.size - segs), Block(Used, Wrap16(b.start as int + (b.size - segs)), segs)]
    else
      [Block(Used, b.start, segs), Block(Free, Wrap16(b.start as int + segs), b.size - segs)]
  }

  function Chosen(bs: seq<Block>, segs: u16, fit: Fit): int {
    if fit.Last? then HighestFit(bs, segs)
    else if LowestFit(bs, segs) < |bs| then LowestFit(bs, segs) else -1
  }

  function GrantedStart(b: Block, segs: u16, fit: Fit): u16
    requires Fits(b, segs)
  {
    if fit.Last? then LastBlock(Pieces(b, segs, fit)).start else Pieces(b, segs, fit)[0].start
  }

  function LastBlock(bs: seq<Block>): Block
    requires bs != []
  {
    bs[|bs| - 1]
  }

  function Allocated(bs: seq<Block>, segs: u16, fit: Fit): (seq<Block>, Option<u16>) {
    var i := Chosen(bs, segs, fit);
    if i < 0 then (bs, None)
    else (Replace(bs, i, Pieces(bs[i], segs, fit)), Some(GrantedStart(bs[i], segs, fit)))
  }

  predicate StartsUsed(b: Block, seg: u16) {
    b.avail.Used? && b.start == seg
  }

  /** Index of the first used block that starts at seg, or |bs|. */
  function FindUsed(bs: seq<Block>, seg: u16): (i: nat)
    ensures i <= |bs|
    ensures i < |bs| ==> StartsUsed(bs[i], seg)
    ensures forall j :: 0 <= j < i ==> !StartsUsed(bs[j], seg)
  {
    if bs == [] || StartsUsed(bs[0], seg) then 0 else 1 + FindUsed(bs[1..], seg)
  }

  function Released(bs: seq<Block>, seg: u16): (seq<Block>, bool) {
    var i := FindUsed(bs, seg);
    if i == |bs| then (bs, false) else (Replace(bs, i, [bs[i].(avail := Free)]), true)
  }

  // ----- What every call keeps

  /** The blocks cover [lo, hi) from end to end, without gap or overlap. */
  ghost predicate Tiled(bs: seq<Block>, lo: int, hi: int) {
    && bs != [] && bs[0].start == lo && LastBlock(bs).End() == hi
    && (forall i :: 0 <= i < |bs| - 1 ==> bs[i].End() == bs[i + 1].start)
  }

  /** No two blocks start at the same segment: so it is while no request was for 0 paragraphs. */
  ghost predicate StrictStarts(bs: seq<Block>) {
    forall i, j :: 0 <= i < j < |bs| ==> bs[i].start < bs[j].start
  }

  lemma {:induction false} TiledIsOrdered(bs: seq<Block>, lo: int, hi: int, i: nat, j: nat)
    requires Tiled(bs, lo, hi) && i <= j < |bs|
    ensures bs[i].start <= bs[j].start
    ensures i < j ==> bs[i].End() <= bs[j].start
    decreases j - i
  {
    if i < j {
      TiledIsOrdered(bs, lo, hi, i, j - 1);
      assert bs[j - 1].End() == bs[j - 1 + 1].start;
    }
  }

  lemma TiledInArena(bs: seq<Block>, lo: int, hi: int, i: nat)
    requires Tiled(bs, lo, hi) && i < |bs|
    ensures lo <= bs[i].start && bs[i].End() <= hi
  {
    TiledIsOrdered(bs, lo, hi, 0, i);
    TiledIsOrdered(bs, lo, hi, i, |bs| - 1);
  }

  lemma ReplaceKeepsTiling(bs: seq<Block>, lo: int, hi: int, i: nat, pieces: seq<Block>)
    requires Tiled(bs, lo, hi) && i < |bs|
    requires Tiled(pieces, bs[i].start, bs[i].End())
    ensures Tiled(Replace(bs, i, pieces), lo, hi)
  {
    var r, p := Replace(bs, i, pieces), |pieces|;
    forall k | 0 <= k < |r| - 1 ensures r[k].End() == r[k + 1].start {
      if k < i {
        assert bs[k].End() == bs[k + 1].start;
      } else if k < i + p - 1 {
        assert pieces[k - i].End() == pieces[k - i + 1].start;
      } else {
        assert bs[k - p + 1].End() == bs[k - p + 2].start;
      }
    }
  }

  lemma ReplaceKeepsStrictStarts(bs: seq<Block>, lo: int, hi: int, i: nat, pieces: seq<Block>)
    requires Tiled(bs, lo, hi) && StrictStarts(bs) && i < |bs|
    requires pieces != [] && StrictStarts(pieces) && pieces[0].start == bs[i].start
    requires forall q :: 0 <= q < |pieces| ==> pieces[q].start == bs[i].start || pieces[q].start < bs[i].End()
    ensures StrictStarts(Replace(bs, i, pieces))
  {
    var r, p := Replace(bs, i, pieces), |pieces|;
    forall k, m | 0 <= k < m < |r| ensures r[k].start < r[m].start {
      if i + p <= m && k < i + p {
        TiledIsOrdered(bs, lo, hi, i + 1, m - p + 1);
      }
    }
  }

  /** What a fitting block is cut into covers that block, keeps one start, and has no wrapped segment. */
  lemma PiecesTile(b: Block, segs: u16, fit: Fit)
    requires Fits(b, segs) && b.End() < 0x1_0000
    ensures Tiled(Pieces(b, segs, fit), b.start, b.End())
    ensures segs > 0 ==> StrictStarts(Pieces(b, segs, fit))
    ensures forall q :: 0 <= q < |Pieces(b, segs, fit)| ==>
      Pieces(b, segs, fit)[q].start == b.start || Pieces(b, segs, fit)[q].start < b.End() || segs == 0
  {
  }

  // ----- One allocation, in numbers

  /** A large enough free block at index i, the first or the last of them, is handed out: whole when at most 256
      paragraphs are over, else exactly segs paragraphs of it, from its top for last fit and from its bottom for first
      fit, with one free block for the others. */
  ghost predicate CutFrom(before: seq<Block>, after: seq<Block>, i: nat, segs: int, last: bool, start: int) {
    && i < |before| && before[i].avail == Free && before[i].size >= segs
    && (forall j :: 0 <= j < |before| && before[j].avail == Free && before[j].size >= segs ==>
          if last then j <= i else i <= j)
    && (if before[i].size <= segs + 256 then
          |after| == |before| && start == before[i].start
          && IsBlock(after[i], Used, start, before[i].size)
        else if last then
          |after| == |before| + 1 && start == before[i].start + before[i].size - segs
          && IsBlock(after[i], Free, before[i].start, before[i].size - segs) && IsBlock(after[i + 1], Used, start, segs)
        else
          |after| == |before| + 1 && start == before[i].start
          && IsBlock(after[i], Used, start, segs)
          && IsBlock(after[i + 1], Free, before[i].start + segs, before[i].size - segs))
    && (forall j :: 0 <= j < i ==> after[j] == before[j])
    && (forall j :: i < j < |before| ==> after[j + |after| - |before|] == before[j])
  }

  ghost predicate IsCut(before: seq<Block>, after: seq<Block>, segs: int, last: bool, start: int) {
    exists i: nat :: CutFrom(before, after, i, segs, last, start)
  }

  /** A request is refused, and nothing changes, exactly when no free block is large enough; else one is cut. */
  ghost predicate Answers(before: seq<Block>, after: seq<Block>, segs: int, last: bool, r: Option<u16>) {
    && (r.None? <==> forall i :: 0 <= i < |before| ==> !(before[i].avail == Free && before[i].size >= segs))
    && (r.None? ==> after == before)
    && (r.Some? ==> IsCut(before, after, segs, last, r.value))
  }

  predicate IsBlock(b: Block, avail: Avail, start: int, size: int) {
    b.avail == avail && b.start == start && b.size == size
  }

  lemma ChosenComesFirst(bs: seq<Block>, i: nat, segs: u16, fit: Fit)
    requires i < |bs| && i == Chosen(bs, segs, fit)
    ensures bs[i].avail == Free && bs[i].size >= segs
    ensures forall j :: 0 <= j < |bs| && bs[j].avail == Free && bs[j].size >= segs ==>
      if fit.Last? then j <= i else i <= j
  {
    forall j | 0 <= j < |bs| && bs[j].avail == Free && bs[j].size >= segs
      ensures if fit.Last? then j <= i else i <= j
    {
      assert Fits(bs[j], segs);
    }
  }

  lemma ChosenIsCut(bs: seq<Block>, lo: int, hi: int, i: nat, segs: u16, fit: Fit)
    requires Tiled(bs, lo, hi) && hi < 0x1_0000 && i < |bs| && i == Chosen(bs, segs, fit)
    ensures CutFrom(bs, Replace(bs, i, Pieces(bs[i], segs, fit)), i, segs, fit.Last?, GrantedStart(bs[i], segs, fit))
  {
    hide Chosen, Tiled, LowestFit, HighestFit;
    ChosenComesFirst(bs, i, segs, fit);
    TiledInArena(bs, lo, hi, i);
    var pieces := Pieces(bs[i], segs, fit);
    var after := Replace(bs, i, pieces);
    assert after[i] == pieces[0] && (|pieces| == 2 ==> after[i + 1] == pieces[1]);
  }

  /** Every allocation cuts from a block as told, or leaves all of them as they were because none is large enough. */
  lemma AllocationCuts(bs: seq<Block>, lo: int, hi: int, segs: u16, fit: Fit)
    requires Tiled(bs, lo, hi) && hi < 0x1_0000
    ensures
      var (after, r) := Allocated(bs, segs, fit);
      Answers(bs, after, segs, fit.Last?, r)
  {
    var i := Chosen(bs, segs, fit);
    if i >= 0 {
      ChosenIsCut(bs, lo, hi, i, segs, fit);
    } else {
      forall j | 0 <= j < |bs| ensures !(bs[j].avail == Free && bs[j].size >= segs) {
        assert !Fits(bs[j], segs);
      }
    }
  }

  lemma NothingFits(bs: seq<Block>, segs: u16, fit: Fit)
    requires forall j :: 0 <= j < |bs| ==> !Fits(bs[j], segs)
    ensures Allocated(bs, segs, fit) == (bs, None)
  {
  }

  lemma RefusalKeepsBlocks(bs: seq<Block>, segs: u16, fit: Fit)
    ensures Allocated(bs, segs, fit).1.None? ==> Allocated(bs, segs, fit).0 == bs
  {
  }

  /** A release frees the first used block with that start, and changes no other; it fails exactly when there is
      none. */
  lemma ReleaseFrees(bs: seq<Block>, seg: u16)
    ensures
      var (after, ok) := Released(bs, seg);
      && |after| == |bs|
      && (ok <==> exists i :: 0 <= i < |bs| && bs[i].avail == Used && bs[i].start == seg)
      && (!ok ==> after == bs)
      && (ok ==> exists i: nat ::
           && i < |bs| && bs[i].avail == Used && bs[i].start == seg
           && (forall j :: 0 <= j < i ==> !(bs[j].avail == Used && bs[j].start == seg))
           && after == bs[i := Block(Free, bs[i].start, bs[i].size)])
  {
    var i := FindUsed(bs, seg);
    if i < |bs| {
      assert Replace(bs, i, [bs[i].(avail := Free)]) == bs[i := Block(Free, bs[i].start, bs[i].size)];
    }
  }
}
