/** Runs of the memory manager, and what its clients can rely on over every run. */
module Allocator {
  import opened Machine
  import opened Blocks

  datatype State = State(blocks: seq<Block>, fit: Fit)
  datatype Call = Allocate(segs: u16) | Release(seg: u16) | SetStrategy(fit: Fit)
  datatype Reply = Granted(start: u16) | Refused | Freed(ok: bool) | Done

  function Boot(lo: u16, hi: u16): State
    requires lo <= hi
  {
    State([Block(Free, lo, hi - lo)], First)
  }

  function Step(st: State, c: Call): (State, Reply) {
    match c
    case Allocate(n) =>
      var (bs, r) := Allocated(st.blocks, n, st.fit);
      (st.(blocks := bs), if r.Some? then Granted(r.value) else Refused)
    case Release(s) =>
      var (bs, ok) := Released(st.blocks, s);
      (st.(blocks := bs), Freed(ok))
    case SetStrategy(fit) => (st.(fit := fit), Done)
  }

  function Run(st: State, calls: seq<Call>): (r: (State, seq<Reply>))
    ensures |r.1| == |calls|
    decreases |calls|
  {
    if calls == [] then (st, [])
    else
      var (st1, r) := Step(st, calls[0]);
      var (st2, rs) := Run(st1, calls[1..]);
      (st2, [r] + rs)
  }

  /** A request for at least one paragraph, or any other call. */
  predicate NonZero(c: Call) {
    c.Allocate? ==> c.segs > 0
  }

  predicate AllNonZero(calls: seq<Call>) {
    forall i :: 0 <= i < |calls| ==> NonZero(calls[i])
  }

  // ----- What a client knows: the paragraphs it asked for, by the start it was given

  type Grants = map<u16, u16>

  function Track(live: Grants, c: Call, r: Reply): Grants {
    if c.Allocate? && r.Granted? then live[r.start := c.segs]
    else if c.Release? && r == Freed(true) then live - {c.seg}
    else live
  }

  function TrackAll(live: Grants, calls: seq<Call>, replies: seq<Reply>): Grants
    requires |calls| == |replies|
    decreases |calls|
  {
    if calls == [] then live else TrackAll(Track(live, calls[0], replies[0]), calls[1..], replies[1..])
  }

  predicate Apart(s: int, n: int, t: int, m: int) {
    s + n <= t || t + m <= s
  }

  ghost predicate Separate(live: Grants) {
    forall s, t :: s in live && t in live && s != t ==> Apart(s, live[s], t, live[t])
  }

  /** The replies a client may see, judged from its own calls and replies alone. */
  ghost predicate Permitted(live: Grants, lo: int, hi: int, c: Call, r: Reply) {
    match c
    case Allocate(n) =>
      r.Refused? ||
      (&& r.Granted?
       && lo <= r.start && r.start + n <= hi && r.start !in live
       && forall t :: t in live ==> Apart(r.start, n, t, live[t]))
    case Release(s) => r == Freed(s in live)
    case SetStrategy(_) => r == Done
  }

  ghost predicate Lawful(live: Grants, lo: int, hi: int, calls: seq<Call>, replies: seq<Reply>)
    decreases |calls|
  {
    && |calls| == |replies|
    && Separate(live)
    && (calls != [] ==>
      && Permitted(live, lo, hi, calls[0], replies[0])
      && Lawful(Track(live, calls[0], replies[0]), lo, hi, calls[1..], replies[1..]))
  }

  // ----- The blocks stand for the grants

  /** The used blocks are exactly the live grants; each holds its request and at most 256 paragraphs more. */
  ghost predicate Represents(bs: seq<Block>, live: Grants) {
    && (forall i :: 0 <= i < |bs| && bs[i].avail.Used? ==>
      bs[i].start in live && live[bs[i].start] <= bs[i].size <= live[bs[i].start] as int + 256)
    && (forall s :: s in live ==> exists i :: 0 <= i < |bs| && StartsUsed(bs[i], s))
  }

  ghost predicate Inv(st: State, lo: int, hi: int) {
    Tiled(st.blocks, lo, hi) && StrictStarts(st.blocks) && hi < 0x1_0000
  }

  lemma StepKeepsTiling(st: State, lo: int, hi: int, c: Call)
    requires Tiled(st.blocks, lo, hi) && hi < 0x1_0000
    ensures Tiled(Step(st, c).0.blocks, lo, hi)
  {
    var bs := st.blocks;
    if c.Allocate? && Chosen(bs, c.segs, st.fit) >= 0 {
      var i := Chosen(bs, c.segs, st.fit);
      TiledInArena(bs, lo, hi, i);
      PiecesTile(bs[i], c.segs, st.fit);
      ReplaceKeepsTiling(bs, lo, hi, i, Pieces(bs[i], c.segs, st.fit));
    } else if c.Release? && FindUsed(bs, c.seg) < |bs| {
      var i := FindUsed(bs, c.seg);
      ReplaceKeepsTiling(bs, lo, hi, i, [bs[i].(avail := Free)]);
    }
  }

  lemma StepKeepsInv(st: State, lo: int, hi: int, c: Call)
    requires Inv(st, lo, hi) && NonZero(c)
    ensures Inv(Step(st, c).0, lo, hi)
  {
    var bs := st.blocks;
    StepKeepsTiling(st, lo, hi, c);
    if c.Allocate? && Chosen(bs, c.segs, st.fit) >= 0 {
      var i := Chosen(bs, c.segs, st.fit);
      TiledInArena(bs, lo, hi, i);
      PiecesTile(bs[i], c.segs, st.fit);
      ReplaceKeepsStrictStarts(bs, lo, hi, i, Pieces(bs[i], c.segs, st.fit));
    } else if c.Release? && FindUsed(bs, c.seg) < |bs| {
      var i := FindUsed(bs, c.seg);
      ReplaceKeepsStrictStarts(bs, lo, hi, i, [bs[i].(avail := Free)]);
    }
  }

  /** Where block j of bs is found once block i has become p pieces. */
  function Shifted(j: nat, i: nat, p: nat): int {
    if j < i then j else j + p - 1
  }

  /** The block at index g of bs' is new and used; every other used block was in bs, and all of bs's still are. */
  ghost predicate AddsUsed(bs: seq<Block>, bs': seq<Block>, g: nat) {
    && g < |bs'| && bs'[g].avail.Used?
    && (forall j :: 0 <= j < |bs| && bs[j].avail.Used? ==> exists k :: 0 <= k < |bs'| && k != g && bs'[k] == bs[j])
    && (forall k :: 0 <= k < |bs'| && k != g && bs'[k].avail.Used? ==> bs'[k] in bs)
  }

  lemma CarvingAddsUsed(bs: seq<Block>, i: nat, n: u16, fit: Fit)
    requires i < |bs| && Fits(bs[i], n)
    ensures
      var pieces := Pieces(bs[i], n, fit);
      var g := if fit.Last? then i + |pieces| - 1 else i;
      var bs' := Replace(bs, i, pieces);
      && AddsUsed(bs, bs', g) && bs'[g].start == GrantedStart(bs[i], n, fit)
      && n <= bs'[g].size <= n + 256
  {
    var pieces := Pieces(bs[i], n, fit);
    var bs' := Replace(bs, i, pieces);
    var g := if fit.Last? then i + |pieces| - 1 else i;
    assert bs'[g] == pieces[g - i];
    forall j | 0 <= j < |bs| && bs[j].avail.Used? ensures exists k :: 0 <= k < |bs'| && k != g && bs'[k] == bs[j] {
      var k := Shifted(j, i, |pieces|);
      assert bs'[k] == bs[j] && k != g;
    }
    forall k | 0 <= k < |bs'| && k != g && bs'[k].avail.Used? ensures bs'[k] in bs {
      assert bs'[k] == bs[if k < i then k else k - |pieces| + 1];
    }
  }

  lemma LiveBlock(bs: seq<Block>, live: Grants, s: u16) returns (i: nat)
    requires Represents(bs, live) && s in live
    ensures i < |bs| && StartsUsed(bs[i], s) && live[s] <= bs[i].size
  {
    i :| 0 <= i < |bs| && StartsUsed(bs[i], s);
  }

  lemma NewGrantIsApart(bs: seq<Block>, bs': seq<Block>, live: Grants, lo: int, hi: int, g: nat, n: u16, t: u16)
    requires Represents(bs, live) && AddsUsed(bs, bs', g) && Tiled(bs', lo, hi) && StrictStarts(bs')
    requires n <= bs'[g].size && t in live
    ensures t != bs'[g].start && Apart(bs'[g].start, n, t, live[t])
    ensures exists k :: 0 <= k < |bs'| && StartsUsed(bs'[k], t)
  {
    var j := LiveBlock(bs, live, t);
    var k :| 0 <= k < |bs'| && k != g && bs'[k] == bs[j];
    TiledIsOrdered(bs', lo, hi, if k < g then k else g, if k < g then g else k);
  }

  lemma AddedGrantIsRepresented(bs: seq<Block>, bs': seq<Block>, live: Grants, lo: int, hi: int, g: nat, n: u16)
    requires Represents(bs, live) && AddsUsed(bs, bs', g) && Tiled(bs', lo, hi) && StrictStarts(bs')
    requires n <= bs'[g].size <= n + 256
    ensures Represents(bs', live[bs'[g].start := n])
  {
    var live' := live[bs'[g].start := n];
    forall s | s in live' ensures exists k :: 0 <= k < |bs'| && StartsUsed(bs'[k], s) {
      if s == bs'[g].start {
        assert StartsUsed(bs'[g], s);
      } else {
        NewGrantIsApart(bs, bs', live, lo, hi, g, n, s);
      }
    }
    forall k | 0 <= k < |bs'| && bs'[k].avail.Used? && k != g
      ensures bs'[k].start != bs'[g].start && bs'[k].start in live
      ensures live[bs'[k].start] <= bs'[k].size <= live[bs'[k].start] as int + 256
    {
      var j :| 0 <= j < |bs| && bs[j] == bs'[k];
    }
  }

  lemma AllocateIsPermitted(st: State, live: Grants, lo: int, hi: int, n: u16)
    requires Inv(st, lo, hi) && Represents(st.blocks, live) && n > 0
    ensures
      var (st', r) := Step(st, Allocate(n));
      Permitted(live, lo, hi, Allocate(n), r) && Represents(st'.blocks, Track(live, Allocate(n), r))
  {
    var (st', r) := Step(st, Allocate(n));
    var i := Chosen(st.blocks, n, st.fit);
    if i >= 0 {
      StepKeepsInv(st, lo, hi, Allocate(n));
      CarvingAddsUsed(st.blocks, i, n, st.fit);
      var g := if st.fit.Last? then i + |Pieces(st.blocks[i], n, st.fit)| - 1 else i;
      TiledInArena(st'.blocks, lo, hi, g);
      AddedGrantIsRepresented(st.blocks, st'.blocks, live, lo, hi, g, n);
      forall t | t in live ensures t != r.start && Apart(r.start, n, t, live[t]) {
        NewGrantIsApart(st.blocks, st'.blocks, live, lo, hi, g, n, t);
      }
    }
  }

  lemma ReleaseIsPermitted(st: State, live: Grants, lo: int, hi: int, s: u16)
    requires Inv(st, lo, hi) && Represents(st.blocks, live)
    ensures
      var (st', r) := Step(st, Release(s));
      Permitted(live, lo, hi, Release(s), r) && Represents(st'.blocks, Track(live, Release(s), r))
  {
    var (st', r) := Step(st, Release(s));
    var i := FindUsed(st.blocks, s);
    if i < |st.blocks| {
      FreedGrantIsGone(st.blocks, live, i);
    }
  }

  lemma FreedGrantIsGone(bs: seq<Block>, live: Grants, i: nat)
    requires Represents(bs, live) && StrictStarts(bs) && i < |bs| && bs[i].avail.Used?
    ensures Represents(Replace(bs, i, [bs[i].(avail := Free)]), live - {bs[i].start})
  {
    var bs' := Replace(bs, i, [bs[i].(avail := Free)]);
    assert forall j :: 0 <= j < |bs| && j != i ==> bs'[j] == bs[j];
    forall t | t in live && t != bs[i].start ensures exists k :: 0 <= k < |bs'| && StartsUsed(bs'[k], t) {
      var j :| 0 <= j < |bs| && StartsUsed(bs[j], t);
      assert StartsUsed(bs'[j], t);
    }
  }

  lemma GrantsAreSeparate(bs: seq<Block>, live: Grants, lo: int, hi: int)
    requires Tiled(bs, lo, hi) && Represents(bs, live)
    ensures Separate(live)
  {
    forall s, t | s in live && t in live && s != t ensures Apart(s, live[s], t, live[t]) {
      var i :| 0 <= i < |bs| && StartsUsed(bs[i], s);
      var j :| 0 <= j < |bs| && StartsUsed(bs[j], t);
      TiledIsOrdered(bs, lo, hi, if i < j then i else j, if i < j then j else i);
    }
  }

  lemma StepIsPermitted(st: State, live: Grants, lo: int, hi: int, c: Call)
    requires Inv(st, lo, hi) && Represents(st.blocks, live) && NonZero(c)
    ensures
      var (st', r) := Step(st, c);
      Inv(st', lo, hi) && Permitted(live, lo, hi, c, r) && Represents(st'.blocks, Track(live, c, r))
  {
    StepKeepsInv(st, lo, hi, c);
    match c
    case Allocate(n) => AllocateIsPermitted(st, live, lo, hi, n);
    case Release(s) => ReleaseIsPermitted(st, live, lo, hi, s);
    case SetStrategy(_) =>
  }

  lemma {:induction false} RunIsLawful(st: State, live: Grants, lo: int, hi: int, calls: seq<Call>)
    requires Inv(st, lo, hi) && Represents(st.blocks, live) && AllNonZero(calls)
    ensures Inv(Run(st, calls).0, lo, hi)
    ensures Represents(Run(st, calls).0.blocks, TrackAll(live, calls, Run(st, calls).1))
    ensures Lawful(live, lo, hi, calls, Run(st, calls).1)
    decreases |calls|
  {
    GrantsAreSeparate(st.blocks, live, lo, hi);
    if calls != [] {
      StepIsPermitted(st, live, lo, hi, calls[0]);
      var (st', r) := Step(st, calls[0]);
      RunIsLawful(st', Track(live, calls[0], r), lo, hi, calls[1..]);
    }
  }

  /** Every run of the memory manager, as its clients see it, is that of an allocator of disjoint areas. At its end the
      blocks tile the arena, and the used ones are the live grants, each with at most 256 paragraphs to spare. */
  lemma EveryRunIsLawful(lo: u16, hi: u16, calls: seq<Call>)
    requires lo <= hi && AllNonZero(calls)
    ensures
      var (st, replies) := Run(Boot(lo, hi), calls);
      && Lawful(map[], lo, hi, calls, replies)
      && Inv(st, lo, hi) && Represents(st.blocks, TrackAll(map[], calls, replies))
  {
    RunIsLawful(Boot(lo, hi), map[], lo, hi, calls);
  }
}
