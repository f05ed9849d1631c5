/** Which requests are granted, where, and that a freed area is handed out again. */
module Placement {
  import opened Machine
  import opened Blocks
  import opened Allocator

  /** A request is refused exactly when no free block is large enough, whatever the strategy. */
  lemma RefusedExactlyWhenNothingFits(st: State, segs: u16)
    ensures Step(st, Allocate(segs)).1 == Refused <==> forall i :: 0 <= i < |st.blocks| ==> !Fits(st.blocks[i], segs)
    ensures Step(st, Allocate(segs)).1 == Refused <==>
      forall i :: 0 <= i < |st.blocks| ==> st.blocks[i].avail == Free ==> st.blocks[i].size < segs
  {
    var i := Chosen(st.blocks, segs, st.fit);
    assert i >= 0 ==> Fits(st.blocks[i], segs);
  }

  /** Lowest fitting block, by address. */
  ghost predicate IsLowestFit(bs: seq<Block>, b: Block, segs: u16) {
    b in bs && Fits(b, segs) && forall j :: 0 <= j < |bs| && Fits(bs[j], segs) ==> b.start <= bs[j].start
  }

  ghost predicate IsHighestFit(bs: seq<Block>, b: Block, segs: u16) {
    b in bs && Fits(b, segs) && forall j :: 0 <= j < |bs| && Fits(bs[j], segs) ==> bs[j].start <= b.start
  }

  /** First fit gives out the bottom of the lowest fitting block. */
  lemma FirstFitPlacement(st: State, lo: int, hi: int, segs: u16)
    requires Tiled(st.blocks, lo, hi) && !st.fit.Last? && Step(st, Allocate(segs)).1.Granted?
    ensures exists b :: IsLowestFit(st.blocks, b, segs) && Step(st, Allocate(segs)).1.start == b.start
  {
    var i := LowestFit(st.blocks, segs);
    forall j | 0 <= j < |st.blocks| && Fits(st.blocks[j], segs) ensures st.blocks[i].start <= st.blocks[j].start {
      TiledIsOrdered(st.blocks, lo, hi, i, j);
    }
    assert IsLowestFit(st.blocks, st.blocks[i], segs);
  }

  /** Last fit gives out the top of the highest fitting block, or all of it when the slack is small. */
  lemma LastFitPlacement(st: State, lo: int, hi: int, segs: u16)
    requires Tiled(st.blocks, lo, hi) && hi < 0x1_0000 && st.fit.Last? && Step(st, Allocate(segs)).1.Granted?
    ensures exists b ::
      && IsHighestFit(st.blocks, b, segs)
      && Step(st, Allocate(segs)).1.start == (if b.size - segs <= 256 then b.start else b.End() - segs)
  {
    var i := HighestFit(st.blocks, segs);
    TiledInArena(st.blocks, lo, hi, i);
    forall j | 0 <= j < |st.blocks| && Fits(st.blocks[j], segs) ensures st.blocks[j].start <= st.blocks[i].start {
      TiledIsOrdered(st.blocks, lo, hi, j, i);
    }
    assert IsHighestFit(st.blocks, st.blocks[i], segs);
  }

  /** Block g holds a grant of segs that a release by its start finds, and that the strategy would pick next. */
  ghost predicate NextInLine(bs: seq<Block>, g: nat, segs: u16, fit: Fit) {
    && g < |bs| && bs[g].avail.Used? && segs <= bs[g].size <= segs + 256
    && (forall j :: 0 <= j < g ==> !StartsUsed(bs[j], bs[g].start))
    && (if fit.Last? then forall j :: g < j < |bs| ==> !Fits(bs[j], segs)
        else forall j :: 0 <= j < g ==> !Fits(bs[j], segs))
  }

  lemma GrantIsNextInLine(bs: seq<Block>, lo: int, hi: int, i: nat, segs: u16, fit: Fit)
    requires Tiled(bs, lo, hi) && StrictStarts(bs) && hi < 0x1_0000 && i < |bs| && i == Chosen(bs, segs, fit)
    ensures
      var pieces := Pieces(bs[i], segs, fit);
      var g := if fit.Last? then i + |pieces| - 1 else i;
      var bs' := Replace(bs, i, pieces);
      NextInLine(bs', g, segs, fit) && bs'[g].start == GrantedStart(bs[i], segs, fit)
  {
    var pieces := Pieces(bs[i], segs, fit);
    var g := if fit.Last? then i + |pieces| - 1 else i;
    var bs' := Replace(bs, i, pieces);
    TiledInArena(bs, lo, hi, i);
    assert bs'[g] == pieces[g - i];
    hide LowestFit, HighestFit, Tiled;
    forall j | 0 <= j < i ensures bs'[j] == bs[j] && bs[j].start < bs'[g].start {
      TiledIsOrdered(bs, lo, hi, j, i);
    }
    forall j | g < j < |bs'| && fit.Last? ensures bs'[j] == bs[j - |pieces| + 1] {
    }
  }

  lemma ReleasedThenRegranted(bs: seq<Block>, g: nat, segs: u16, fit: Fit)
    requires NextInLine(bs, g, segs, fit)
    ensures
      var (bs', ok) := Released(bs, bs[g].start);
      ok && Allocated(bs', segs, fit) == (bs, Some(bs[g].start))
  {
    assert FindUsed(bs, bs[g].start) == g;
    hide FindUsed;
    var freed := bs[g].(avail := Free);
    var bs' := Replace(bs, g, [freed]);
    assert forall j :: 0 <= j < |bs| && j != g ==> bs'[j] == bs[j];
    assert Fits(bs'[g], segs);
    assert Chosen(bs', segs, fit) == g;
    assert Pieces(freed, segs, fit) == [bs[g]];
    assert Replace(bs', g, [bs[g]]) == bs;
  }

  /** Asking again for what was just freed gives the same area, and the same blocks. */
  lemma ReuseIsStable(st: State, lo: int, hi: int, segs: u16)
    requires Inv(st, lo, hi) && Step(st, Allocate(segs)).1.Granted?
    ensures
      var (st1, r) := Step(st, Allocate(segs));
      var (st2, freed) := Step(st1, Release(r.start));
      freed == Freed(true) && Step(st2, Allocate(segs)) == (st1, r)
  {
    var i := Chosen(st.blocks, segs, st.fit);
    var pieces := Pieces(st.blocks[i], segs, st.fit);
    GrantIsNextInLine(st.blocks, lo, hi, i, segs, st.fit);
    var g := if st.fit.Last? then i + |pieces| - 1 else i;
    ReleasedThenRegranted(Replace(st.blocks, i, pieces), g, segs, st.fit);
  }
}
