/** How far the memory manager can fragment its arena, and what splitting without merging costs. */
module Fragmentation {
  import opened Machine
  import opened Blocks
  import opened Allocator
  import opened Placement

  function SumOf(bs: seq<Block>, f: Block -> nat): nat {
    if bs == [] then 0 else f(bs[0]) + SumOf(bs[1..], f)
  }

  lemma {:induction false} SumAppend(a: seq<Block>, b: seq<Block>, f: Block -> nat)
    ensures SumOf(a + b, f) == SumOf(a, f) + SumOf(b, f)
  {
    if a == [] {
      assert a + b == b;
    } else {
      assert (a + b)[1..] == a[1..] + b;
      SumAppend(a[1..], b, f);
    }
  }

  lemma SumReplace(bs: seq<Block>, i: nat, pieces: seq<Block>, f: Block -> nat)
    requires i < |bs|
    ensures SumOf(Replace(bs, i, pieces), f) + f(bs[i]) == SumOf(bs, f) + SumOf(pieces, f)
  {
    assert bs == bs[..i] + ([bs[i]] + bs[i + 1..]);
    SumAppend(bs[..i], [bs[i]] + bs[i + 1..], f);
    SumAppend([bs[i]], bs[i + 1..], f);
    assert Replace(bs, i, pieces) == bs[..i] + (pieces + bs[i + 1..]);
    SumAppend(bs[..i], pieces + bs[i + 1..], f);
    SumAppend(pieces, bs[i + 1..], f);
  }

  lemma SumOfOneOrTwo(x: Block, y: Block, f: Block -> nat)
    ensures SumOf([x], f) == f(x)
    ensures SumOf([x, y], f) == f(x) + f(y)
  {
    assert [x, y][1..] == [y] && [x][1..] == [] && [y][1..] == [];
    assert SumOf([y], f) == f(y);
  }

  // ----- The number of blocks

  /** The blocks that a block can still be split into. */
  function Weight(b: Block): nat {
    if b.size > 256 then b.size - 256 else 1
  }

  function Potential(bs: seq<Block>): nat {
    SumOf(bs, Weight)
  }

  lemma {:induction false} CountBelowPotential(bs: seq<Block>)
    ensures |bs| <= Potential(bs)
  {
    if bs != [] {
      CountBelowPotential(bs[1..]);
    }
  }

  predicate ZeroRequest(c: Call) { c.Allocate? && c.segs == 0 }

  lemma StepKeepsPotential(st: State, c: Call)
    ensures Potential(Step(st, c).0.blocks) <= Potential(st.blocks) + (if ZeroRequest(c) then 1 else 0)
  {
    var bs := st.blocks;
    if c.Allocate? && Chosen(bs, c.segs, st.fit) >= 0 {
      var i := Chosen(bs, c.segs, st.fit);
      var pieces := Pieces(bs[i], c.segs, st.fit);
      SumReplace(bs, i, pieces, Weight);
      SumOfOneOrTwo(pieces[0], LastBlock(pieces), Weight);
    } else if c.Release? && FindUsed(bs, c.seg) < |bs| {
      var i := FindUsed(bs, c.seg);
      SumReplace(bs, i, [bs[i].(avail := Free)], Weight);
      SumOfOneOrTwo(bs[i].(avail := Free), bs[i], Weight);
    }
  }

  function ZeroRequests(calls: seq<Call>): nat {
    if calls == [] then 0 else (if ZeroRequest(calls[0]) then 1 else 0) + ZeroRequests(calls[1..])
  }

  lemma {:induction false} RunKeepsPotential(st: State, calls: seq<Call>)
    ensures Potential(Run(st, calls).0.blocks) <= Potential(st.blocks) + ZeroRequests(calls)
    decreases |calls|
  {
    hide Step, Potential;
    if calls != [] {
      StepKeepsPotential(st, calls[0]);
      RunKeepsPotential(Step(st, calls[0]).0, calls[1..]);
    }
  }

  function Bound(lo: u16, hi: u16): int {
    if hi - lo > 256 then hi - lo - 256 else 1
  }

  /** No run leaves more than max(1, N - 256) blocks in an arena of N paragraphs, and one more for each request for 0
      paragraphs. */
  lemma BlockCountBound(lo: u16, hi: u16, calls: seq<Call>)
    requires lo <= hi
    ensures |Run(Boot(lo, hi), calls).0.blocks| <= Bound(lo, hi) + ZeroRequests(calls)
    ensures AllNonZero(calls) ==> |Run(Boot(lo, hi), calls).0.blocks| <= Bound(lo, hi)
  {
    RunKeepsPotential(Boot(lo, hi), calls);
    SumOfOneOrTwo(Boot(lo, hi).blocks[0], Boot(lo, hi).blocks[0], Weight);
    CountBelowPotential(Run(Boot(lo, hi), calls).0.blocks);
    if AllNonZero(calls) {
      NoZeroRequests(calls);
    }
  }

  lemma {:induction false} NoZeroRequests(calls: seq<Call>)
    requires AllNonZero(calls)
    ensures ZeroRequests(calls) == 0
  {
    if calls != [] {
      assert NonZero(calls[0]);
      NoZeroRequests(calls[1..]);
    }
  }

  function Repeated(segs: u16, k: nat): seq<Call> {
    seq(k, _ => Allocate(segs))
  }

  /** First-fit requests too small to use up the last free block cut one block off it each time. */
  lemma {:induction false} RepeatedRequestsSplit(used: seq<Block>, rest: Block, segs: u16, k: nat)
    requires forall i :: 0 <= i < |used| ==> !used[i].avail.Free?
    requires rest.avail.Free? && rest.size - k * segs > 256
    ensures |Run(State(used + [rest], First), Repeated(segs, k)).0.blocks| == |used| + 1 + k
    decreases k
  {
    if k > 0 {
      var bs := used + [rest];
      assert k * segs == (k - 1) * segs + segs && (k - 1) * segs >= 0;
      assert Fits(bs[|used|], segs) && forall i :: 0 <= i < |used| ==> bs[i] == used[i];
      assert LowestFit(bs, segs) == |used|;
      var pieces := Pieces(rest, segs, First);
      assert Replace(bs, |used|, pieces) == (used + [pieces[0]]) + [pieces[1]];
      assert Repeated(segs, k)[0] == Allocate(segs) && Repeated(segs, k)[1..] == Repeated(segs, k - 1);
      RepeatedRequestsSplit(used + [pieces[0]], pieces[1], segs, k - 1);
    }
  }

  /** The bound is attained in every arena, by requests for one paragraph each. */
  lemma BlockCountBoundIsTight(lo: u16, hi: u16)
    requires lo <= hi
    ensures exists calls :: AllNonZero(calls) && |Run(Boot(lo, hi), calls).0.blocks| == Bound(lo, hi)
  {
    var k := Bound(lo, hi) - 1;
    var calls := Repeated(1, k);
    assert AllNonZero(calls);
    if k > 0 {
      assert [] + Boot(lo, hi).blocks == Boot(lo, hi).blocks;
      RepeatedRequestsSplit([], Boot(lo, hi).blocks[0], 1, k);
    }
    assert |Run(Boot(lo, hi), calls).0.blocks| == Bound(lo, hi);
  }

  /** An arena of at most 256 paragraphs is never split, whatever is asked for. */
  lemma {:induction false} SmallArenaIsNeverSplit(st: State, calls: seq<Call>)
    requires |st.blocks| == 1 && st.blocks[0].size <= 256
    ensures |Run(st, calls).0.blocks| == 1
    decreases |calls|
  {
    if calls != [] {
      SmallArenaIsNeverSplit(Step(st, calls[0]).0, calls[1..]);
    }
  }

  /** In any larger arena, requests for zero paragraphs make more blocks than any bound. */
  lemma ZeroRequestsAreUnbounded(lo: u16, hi: u16, k: nat)
    requires lo + 256 < hi
    ensures |Run(Boot(lo, hi), Repeated(0, k)).0.blocks| == 1 + k
  {
    assert [] + Boot(lo, hi).blocks == Boot(lo, hi).blocks;
    RepeatedRequestsSplit([], Boot(lo, hi).blocks[0], 0, k);
  }

  // ----- Paragraphs are conserved, boundaries stay, large blocks never come back

  function Paragraphs(b: Block): nat { b.size }
  function UsedParagraphs(b: Block): nat { if b.avail.Used? then b.size else 0 }
  function FreeParagraphs(b: Block): nat { if b.avail.Free? then b.size else 0 }

  lemma {:induction false} TilingSum(bs: seq<Block>, lo: int, hi: int)
    requires Tiled(bs, lo, hi)
    ensures SumOf(bs, Paragraphs) == hi - lo
  {
    assert bs == [bs[0]] + bs[1..];
    if |bs| > 1 {
      assert LastBlock(bs[1..]) == LastBlock(bs) && bs[0].End() == bs[0 + 1].start;
      forall i | 0 <= i < |bs[1..]| - 1 ensures bs[1..][i].End() == bs[1..][i + 1].start {
        assert bs[i + 1].End() == bs[i + 1 + 1].start;
      }
      TilingSum(bs[1..], bs[0].End(), hi);
    }
  }

  ghost predicate Inside(b: Block, bs: seq<Block>) {
    exists i :: 0 <= i < |bs| && bs[i].start <= b.start && b.End() <= bs[i].End()
  }

  ghost predicate HasStart(bs: seq<Block>, s: u16) {
    exists i :: 0 <= i < |bs| && bs[i].start == s
  }

  /** Every block of after lies inside a block of before, and every boundary of before is still one. */
  ghost predicate Refines(before: seq<Block>, after: seq<Block>) {
    && (forall i :: 0 <= i < |after| ==> Inside(after[i], before))
    && (forall s :: HasStart(before, s) ==> HasStart(after, s))
  }

  ghost predicate OnlyFreeOrUsed(bs: seq<Block>) {
    forall i :: 0 <= i < |bs| ==> !bs[i].avail.System?
  }

  lemma ReplaceRefines(bs: seq<Block>, i: nat, pieces: seq<Block>)
    requires i < |bs| && pieces != [] && pieces[0].start == bs[i].start
    requires forall q :: 0 <= q < |pieces| ==> bs[i].start <= pieces[q].start && pieces[q].End() <= bs[i].End()
    ensures Refines(bs, Replace(bs, i, pieces))
  {
    var after, p := Replace(bs, i, pieces), |pieces|;
    forall k | 0 <= k < |after| ensures Inside(after[k], bs) {
      if i <= k < i + p {
        assert after[k] == pieces[k - i];
      } else {
        assert after[k] == bs[if k < i then k else k - p + 1];
      }
    }
    forall s | HasStart(bs, s) ensures HasStart(after, s) {
      var j :| 0 <= j < |bs| && bs[j].start == s;
      assert after[if j == i then i else Shifted(j, i, p)].start == s;
    }
  }

  lemma StepRefines(st: State, lo: int, hi: int, c: Call)
    requires Tiled(st.blocks, lo, hi) && hi < 0x1_0000
    ensures Refines(st.blocks, Step(st, c).0.blocks)
  {
    var bs := st.blocks;
    if c.Allocate? && Chosen(bs, c.segs, st.fit) >= 0 {
      var i := Chosen(bs, c.segs, st.fit);
      TiledInArena(bs, lo, hi, i);
      PiecesStayInside(bs[i], c.segs, st.fit);
      ReplaceRefines(bs, i, Pieces(bs[i], c.segs, st.fit));
    } else if c.Release? && FindUsed(bs, c.seg) < |bs| {
      var i := FindUsed(bs, c.seg);
      ReplaceRefines(bs, i, [bs[i].(avail := Free)]);
    }
  }

  lemma PiecesStayInside(b: Block, segs: u16, fit: Fit)
    requires Fits(b, segs) && b.End() < 0x1_0000
    ensures Pieces(b, segs, fit)[0].start == b.start
    ensures forall q :: 0 <= q < |Pieces(b, segs, fit)| ==>
      b.start <= Pieces(b, segs, fit)[q].start && Pieces(b, segs, fit)[q].End() <= b.End()
  {
  }

  lemma StepKeepsKinds(st: State, c: Call)
    requires OnlyFreeOrUsed(st.blocks)
    ensures OnlyFreeOrUsed(Step(st, c).0.blocks)
  {
  }

  lemma RefinesTransitive(x: seq<Block>, y: seq<Block>, z: seq<Block>)
    requires Refines(x, y) && Refines(y, z)
    ensures Refines(x, z)
  {
    forall k | 0 <= k < |z| ensures Inside(z[k], x) {
      assert Inside(z[k], y);
      var j :| 0 <= j < |y| && y[j].start <= z[k].start && z[k].End() <= y[j].End();
      assert Inside(y[j], x);
    }
  }

  lemma {:induction false} RunRefines(st: State, lo: int, hi: int, calls: seq<Call>)
    requires Tiled(st.blocks, lo, hi) && hi < 0x1_0000 && OnlyFreeOrUsed(st.blocks)
    ensures Tiled(Run(st, calls).0.blocks, lo, hi) && OnlyFreeOrUsed(Run(st, calls).0.blocks)
    ensures Refines(st.blocks, Run(st, calls).0.blocks)
    decreases |calls|
  {
    if calls == [] {
      assert forall i :: 0 <= i < |st.blocks| ==> Inside(st.blocks[i], st.blocks);
    } else {
      var st1 := Step(st, calls[0]).0;
      StepKeepsTiling(st, lo, hi, calls[0]);
      StepKeepsKinds(st, calls[0]);
      StepRefines(st, lo, hi, calls[0]);
      RunRefines(st1, lo, hi, calls[1..]);
      RefinesTransitive(st.blocks, st1.blocks, Run(st1, calls[1..]).0.blocks);
    }
  }

  lemma {:induction false} KindsAddUp(bs: seq<Block>)
    requires OnlyFreeOrUsed(bs)
    ensures SumOf(bs, UsedParagraphs) + SumOf(bs, FreeParagraphs) == SumOf(bs, Paragraphs)
  {
    if bs != [] {
      KindsAddUp(bs[1..]);
    }
  }

  /** Over every run, zero requests included, the arena stays covered and no paragraph is lost or gained. */
  lemma ParagraphsAreConserved(lo: u16, hi: u16, calls: seq<Call>)
    requires lo <= hi
    ensures
      var bs := Run(Boot(lo, hi), calls).0.blocks;
      Tiled(bs, lo, hi) && SumOf(bs, UsedParagraphs) + SumOf(bs, FreeParagraphs) == hi - lo
  {
    RunRefines(Boot(lo, hi), lo, hi, calls);
    var bs := Run(Boot(lo, hi), calls).0.blocks;
    KindsAddUp(bs);
    TilingSum(bs, lo, hi);
  }

  lemma {:induction false} RunAppend(st: State, a: seq<Call>, b: seq<Call>)
    ensures Run(st, a + b).0 == Run(Run(st, a).0, b).0
    decreases |a|
  {
    if a == [] {
      assert a + b == b;
    } else {
      assert (a + b)[0] == a[0] && (a + b)[1..] == a[1..] + b;
      RunAppend(Step(st, a[0]).0, a[1..], b);
    }
  }

  /** The blocks at the end of a longer run refine those at any point on the way. */
  lemma LaterRefinesEarlier(lo: u16, hi: u16, earlier: seq<Call>, later: seq<Call>)
    requires lo <= hi
    ensures Refines(Run(Boot(lo, hi), earlier).0.blocks, Run(Boot(lo, hi), earlier + later).0.blocks)
    ensures OnlyFreeOrUsed(Run(Boot(lo, hi), earlier).0.blocks)
  {
    RunRefines(Boot(lo, hi), lo, hi, earlier);
    RunRefines(Run(Boot(lo, hi), earlier).0, lo, hi, later);
    RunAppend(Boot(lo, hi), earlier, later);
  }

  lemma NothingFitsAfterRefinement(before: seq<Block>, after: seq<Block>, segs: u16)
    requires Refines(before, after) && forall i :: 0 <= i < |before| ==> before[i].avail.Free?
    requires forall i :: 0 <= i < |before| ==> !Fits(before[i], segs)
    ensures forall i :: 0 <= i < |after| ==> !Fits(after[i], segs)
  {
    forall i | 0 <= i < |after| ensures !Fits(after[i], segs) {
      assert Inside(after[i], before);
      var j :| 0 <= j < |before| && before[j].start <= after[i].start && after[i].End() <= before[j].End();
      assert !Fits(before[j], segs);
    }
  }

  /** A request refused while nothing is in use is refused for the rest of the run, whatever is freed later. */
  lemma RefusedWhileEmptyIsRefusedForever(lo: u16, hi: u16, earlier: seq<Call>, later: seq<Call>, segs: u16)
    requires lo <= hi
    requires
      var st := Run(Boot(lo, hi), earlier).0;
      (forall i :: 0 <= i < |st.blocks| ==> st.blocks[i].avail.Free?) && Step(st, Allocate(segs)).1 == Refused
    ensures Step(Run(Boot(lo, hi), earlier + later).0, Allocate(segs)).1 == Refused
  {
    hide Run, Step, Refines;
    var st, end := Run(Boot(lo, hi), earlier).0, Run(Boot(lo, hi), earlier + later).0;
    LaterRefinesEarlier(lo, hi, earlier, later);
    RefusedExactlyWhenNothingFits(st, segs);
    NothingFitsAfterRefinement(st.blocks, end.blocks, segs);
    RefusedExactlyWhenNothingFits(end, segs);
  }
}
