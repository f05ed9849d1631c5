/** Loading an EXE image: the bytes behind the header go to the image segment, and the words that the relocation
    table names are moved with it. */
module Relocation {
  import opened Machine
  import opened Bits
  import opened Bytes

  datatype Reloc = Reloc(offset: u16, segment: u16)

  /** Where a table entry points, from the start of the image on. */
  function Target(r: Reloc): nat {
    AbsMemory(r.segment, r.offset)
  }

  predicate HoldsWord(mem: seq<u8>, addr: nat) {
    addr + 2 <= |mem|
  }

  function WordAt(mem: seq<u8>, addr: nat): u16
    requires HoldsWord(mem, addr)
  {
    WidthValues();
    Load(mem, addr, 16)
  }

  function WithWord(mem: seq<u8>, addr: nat, v: u16): (r: seq<u8>)
    requires HoldsWord(mem, addr)
    ensures |r| == |mem|
  {
    WidthValues();
    Store(mem, addr, 16, v)
  }

  lemma WithWordMeans(mem: seq<u8>, addr: nat, v: u16)
    requires HoldsWord(mem, addr)
    ensures WordAt(WithWord(mem, addr, v), addr) == v
    ensures forall i :: 0 <= i < |mem| && i != addr && i != addr + 1 ==> WithWord(mem, addr, v)[i] == mem[i]
  {
    WidthValues();
    StoreMeans(mem, addr, 16, v);
  }

  function Fixup(mem: seq<u8>, addr: nat, seg: u16): (r: seq<u8>)
    requires HoldsWord(mem, addr)
    ensures |r| == |mem|
  {
    WithWord(mem, addr, Wrap16(WordAt(mem, addr) as int + seg))
  }

  predicate InRange(mem: seq<u8>, base: nat, relos: seq<Reloc>) {
    forall r :: r in relos ==> HoldsWord(mem, base + Target(r))
  }

  /** The loop over the table. */
  function FixupAll(mem: seq<u8>, base: nat, relos: seq<Reloc>, seg: u16): (r: seq<u8>)
    requires InRange(mem, base, relos)
    ensures |r| == |mem|
    decreases |relos|
  {
    if relos == [] then mem
    else FixupAll(Fixup(mem, base + Target(relos[0]), seg), base, relos[1..], seg)
  }

  /** The file's bytes behind its header, placed at the start of the image. */
  function Placed(mem: seq<u8>, start: nat, image: seq<u8>): (r: seq<u8>)
    requires start + |image| <= |mem|
    ensures |r| == |mem|
  {
    mem[..start] + image + mem[start + |image|..]
  }

  class Exe {
    const headerParagraphs: u16
    const relos: seq<Reloc>
    var loaded: bool
    var seg: u16
    var imageSeg: u16

    constructor (headerParagraphs: u16, relos: seq<Reloc>)
      ensures this.headerParagraphs == headerParagraphs && this.relos == relos && !loaded
    {
      this.headerParagraphs, this.relos, loaded, seg, imageSeg := headerParagraphs, relos, false, 0, 0;
    }

    function HeaderSize(): nat { headerParagraphs * 0x10 }

    /** Loads the file, if there is one, above the PSP at a segment, and fixes up the words of the table. */
    method LoadImage(baseSegment: u16, file: Option<seq<u8>>, mem: array<u8>) returns (ok: bool)
      requires file.Some? ==> HeaderSize() <= |file.value|
      requires file.Some? ==> Wrap16(baseSegment + 0x10) * 0x10 + (|file.value| - HeaderSize()) <= mem.Length
      requires file.Some? ==> InRange(mem[..], Wrap16(baseSegment + 0x10) * 0x10, relos)
      modifies this, mem
      ensures ok == file.Some? && seg == baseSegment && imageSeg == Wrap16(baseSegment + 0x10)
      ensures !ok ==> mem[..] == old(mem[..]) && loaded == old(loaded)
      ensures ok ==> loaded && mem[..] == Loaded(old(mem[..]), file.value[HeaderSize()..], imageSeg, relos)
      ensures ok ==> headerParagraphs * 0x10 <= |file.value|
      ensures ok && IsPlainTable(relos, |file.value| - headerParagraphs * 0x10) ==>
        forall r :: r in relos ==> WordIsMoved(r, file.value[headerParagraphs * 0x10..], mem[..], imageSeg)
    {
      seg := baseSegment;
      imageSeg := Wrap16(baseSegment + 0x10);
      if file.None? {
        return false;
      }
      PlaceImage(file.value[HeaderSize()..], imageSeg, mem);
      loaded := true;
      ghost var before, image := old(mem[..]), file.value[HeaderSize()..];
      FixupTable(mem, imageSeg * 0x10, relos, imageSeg);
      EntriesMoveTheirWords(before, image, imageSeg, relos);
      return true;
    }
  }

  /** Memory after the image is placed at a segment and every entry of the table is fixed up. */
  function Loaded(mem: seq<u8>, image: seq<u8>, seg: u16, relos: seq<Reloc>): (r: seq<u8>)
    requires seg * 0x10 + |image| <= |mem| && InRange(mem, seg * 0x10, relos)
    ensures |r| == |mem|
  {
    FixupAll(Placed(mem, seg * 0x10, image), seg * 0x10, relos, seg)
  }

  method PlaceImage(image: seq<u8>, seg: u16, mem: array<u8>)
    requires seg * 0x10 + |image| <= mem.Length
    modifies mem
    ensures mem[..] == Placed(old(mem[..]), seg * 0x10, image)
  {
    forall i | 0 <= i < |image| {
      mem[seg * 0x10 + i] := image[i];
    }
  }

  method FixupTable(mem: array<u8>, base: nat, relos: seq<Reloc>, seg: u16)
    requires InRange(mem[..], base, relos)
    modifies mem
    ensures mem[..] == FixupAll(old(mem[..]), base, relos, seg)
  {
    hide Fixup;
    ghost var end := FixupAll(mem[..], base, relos, seg);
    var k := 0;
    while k < |relos|
      invariant 0 <= k <= |relos|
      invariant InRange(mem[..], base, relos[k..]) && FixupAll(mem[..], base, relos[k..], seg) == end
    {
      assert relos[k..][0] == relos[k] && relos[k..][1..] == relos[k + 1..];
      FixOne(mem, base + Target(relos[k]), seg);
      k := k + 1;
    }
  }

  method FixOne(mem: array<u8>, addr: nat, seg: u16)
    requires HoldsWord(mem[..], addr)
    modifies mem
    ensures mem[..] == Fixup(old(mem[..]), addr, seg)
  {
    WidthValues();
    var word := Wrap16(mem[addr] as int + 0x100 * mem[addr + 1] as int + seg);
    mem[addr] := word % 0x100;
    mem[addr + 1] := word / 0x100;
    assert mem[..] == WithWord(old(mem[..]), addr, word);
  }

  // ----- What the loop does, whatever the order of the table

  /** Any two targets are the same word or share no byte. */
  ghost predicate SameOrDisjoint(relos: seq<Reloc>) {
    forall r, s :: r in relos && s in relos ==> SameOrApart(Target(r), Target(s))
  }

  predicate SameOrApart(a: nat, b: nat) {
    a == b || a + 2 <= b || b + 2 <= a
  }

  /** How often the table names a word. */
  function Times(relos: seq<Reloc>, target: nat): nat {
    if relos == [] then 0 else (if Target(relos[0]) == target then 1 else 0) + Times(relos[1..], target)
  }

  /** n times seg, in 16 bits. */
  function Multiple(seg: u16, n: nat): u16 {
    if n == 0 then 0 else Wrap16(Multiple(seg, n - 1) as int + seg)
  }

  lemma FixupMeans(mem: seq<u8>, addr: nat, seg: u16, other: nat)
    requires HoldsWord(mem, addr) && HoldsWord(mem, other) && SameOrApart(addr, other)
    ensures WordAt(Fixup(mem, addr, seg), other) ==
      if other == addr then Wrap16(WordAt(mem, addr) as int + seg) else WordAt(mem, other)
  {
    WithWordMeans(mem, addr, Wrap16(WordAt(mem, addr) as int + seg));
  }

  lemma MultipleAdds(word: u16, seg: u16, n: nat)
    ensures Wrap16(Wrap16(word as int + seg) as int + Multiple(seg, n)) == Wrap16(word as int + Multiple(seg, n + 1))
  {
  }

  /** A word that every target equals or misses gains the segment as often as the table names it. */
  lemma {:induction false} WordAfterFixups(mem: seq<u8>, base: nat, relos: seq<Reloc>, seg: u16, target: nat)
    requires InRange(mem, base, relos) && HoldsWord(mem, base + target)
    requires forall r :: r in relos ==> SameOrApart(Target(r), target)
    ensures WordAt(FixupAll(mem, base, relos, seg), base + target)
         == Wrap16(WordAt(mem, base + target) as int + Multiple(seg, Times(relos, target)))
    decreases |relos|
  {
    hide WordAt, Fixup, Wrap16;
    if relos == [] {
      NoMultiple(WordAt(mem, base + target), seg);
    } else {
      var mem1 := Fixup(mem, base + Target(relos[0]), seg);
      FixupMeans(mem, base + Target(relos[0]), seg, base + target);
      WordAfterFixups(mem1, base, relos[1..], seg, target);
      MultipleAdds(WordAt(mem, base + target), seg, Times(relos[1..], target));
    }
  }

  lemma NoMultiple(word: u16, seg: u16)
    ensures Wrap16(word as int + Multiple(seg, 0)) == word
  {
  }

  /** A byte that no target covers is as loaded. */
  lemma {:induction false} ByteAfterFixups(mem: seq<u8>, base: nat, relos: seq<Reloc>, seg: u16, at: nat)
    requires InRange(mem, base, relos) && at < |mem|
    requires forall r :: r in relos ==> at != base + Target(r) && at != base + Target(r) + 1
    ensures FixupAll(mem, base, relos, seg)[at] == mem[at]
    decreases |relos|
  {
    if relos != [] {
      var addr := base + Target(relos[0]);
      WithWordMeans(mem, addr, Wrap16(WordAt(mem, addr) as int + seg));
      ByteAfterFixups(Fixup(mem, addr, seg), base, relos[1..], seg, at);
    }
  }

  // ----- The image as a whole

  predicate Names(relos: seq<Reloc>, target: nat) {
    exists r :: r in relos && Target(r) == target
  }

  lemma WordInPlace(mem: seq<u8>, start: nat, image: seq<u8>, target: nat)
    requires start + |image| <= |mem| && HoldsWord(image, target)
    ensures WordAt(Placed(mem, start, image), start + target) == WordAt(image, target)
  {
    var placed := Placed(mem, start, image);
    assert placed[start + target] == image[target] && placed[start + target + 1] == image[target + 1];
  }

  /** Every word of the image that the table names is its file word plus the segment, as often as it is named. */
  lemma LoadedWord(mem: seq<u8>, image: seq<u8>, seg: u16, relos: seq<Reloc>, target: nat)
    requires seg * 0x10 + |image| <= |mem| && InRange(mem, seg * 0x10, relos)
    requires SameOrDisjoint(relos) && Names(relos, target) && HoldsWord(image, target)
    ensures WordAt(Loaded(mem, image, seg, relos), seg * 0x10 + target)
         == Wrap16(WordAt(image, target) as int + Multiple(seg, Times(relos, target)))
  {
    hide WordAt, Wrap16, Multiple, Times, FixupAll, Placed;
    WordInPlace(mem, seg * 0x10, image, target);
    WordAfterFixups(Placed(mem, seg * 0x10, image), seg * 0x10, relos, seg, target);
  }

  /** A byte of the image that no entry covers is as in the file; one outside the image is as it was. */
  lemma LoadedByte(mem: seq<u8>, image: seq<u8>, seg: u16, relos: seq<Reloc>, at: nat)
    requires seg * 0x10 + |image| <= |mem| && InRange(mem, seg * 0x10, relos) && at < |mem|
    requires forall r :: r in relos ==> at != seg * 0x10 + Target(r) && at != seg * 0x10 + Target(r) + 1
    ensures Loaded(mem, image, seg, relos)[at] ==
      if seg * 0x10 <= at < seg * 0x10 + |image| then image[at - seg * 0x10] else mem[at]
  {
    hide FixupAll;
    ByteAfterFixups(Placed(mem, seg * 0x10, image), seg * 0x10, relos, seg, at);
  }

  lemma MultipleSteps(seg: u16, n: nat)
    ensures Multiple(seg, n) == if n == 0 then 0 else Wrap16(Multiple(seg, n - 1) as int + seg)
  {
  }

  lemma {:induction false} MultipleOfDifference(b: u16, c: u16, n: nat)
    ensures Multiple(c, n) == Wrap16(Multiple(b, n) as int + Multiple(Wrap16(c as int - b), n))
  {
    hide Wrap16, Multiple;
    MultipleSteps(b, n);
    MultipleSteps(c, n);
    MultipleSteps(Wrap16(c as int - b), n);
    if n == 0 {
      NoMultiple(0, 0);
      MultipleSteps(0, 0);
    } else {
      MultipleOfDifference(b, c, n - 1);
      OneMore(Multiple(b, n - 1), Multiple(Wrap16(c as int - b), n - 1), b, c);
    }
  }

  lemma OneMore(x: u16, y: u16, b: u16, c: u16)
    ensures Wrap16(Wrap16(x as int + y) as int + c)
         == Wrap16(Wrap16(x as int + b) as int + Wrap16(y as int + Wrap16(c as int - b)))
  {
    var d := Wrap16(c as int - b);
    assert d == c - b || d == c as int - b + 0x1_0000;
  }

  lemma SumsRegroup(word: u16, m: u16, d: u16)
    ensures Wrap16(word as int + Wrap16(m as int + d)) == Wrap16(Wrap16(word as int + m) as int + d)
  {
  }

  /** Loading at two segments gives images that differ, at each named word, by the difference of the segments. */
  lemma Rebasing(mem: seq<u8>, image: seq<u8>, b: u16, c: u16, relos: seq<Reloc>, target: nat)
    requires b * 0x10 + |image| <= |mem| && InRange(mem, b * 0x10, relos)
    requires c * 0x10 + |image| <= |mem| && InRange(mem, c * 0x10, relos)
    requires SameOrDisjoint(relos) && Names(relos, target) && HoldsWord(image, target)
    ensures WordAt(Loaded(mem, image, c, relos), c * 0x10 + target)
         == Wrap16(WordAt(Loaded(mem, image, b, relos), b * 0x10 + target) as int
                   + Multiple(Wrap16(c as int - b), Times(relos, target)))
  {
    hide WordAt, Loaded, Wrap16, Multiple, Times;
    var n := Times(relos, target);
    LoadedWord(mem, image, b, relos, target);
    LoadedWord(mem, image, c, relos, target);
    MultipleOfDifference(b, c, n);
    SumsRegroup(WordAt(image, target), Multiple(b, n), Multiple(Wrap16(c as int - b), n));
  }

  /** No two entries share a byte. */
  ghost predicate PairwiseApart(relos: seq<Reloc>) {
    forall i, j :: 0 <= i < j < |relos| ==>
      Target(relos[i]) + 2 <= Target(relos[j]) || Target(relos[j]) + 2 <= Target(relos[i])
  }

  lemma {:induction false} NotNamed(relos: seq<Reloc>, target: nat)
    requires !Names(relos, target)
    ensures Times(relos, target) == 0
  {
    if relos != [] {
      assert relos[0] in relos && forall r :: r in relos[1..] ==> r in relos;
      NotNamed(relos[1..], target);
    }
  }

  lemma {:induction false} NamedOnce(relos: seq<Reloc>, target: nat)
    requires PairwiseApart(relos) && Names(relos, target)
    ensures Times(relos, target) == 1
  {
    var rest := relos[1..];
    assert PairwiseApart(rest);
    if Target(relos[0]) == target {
      NotNamed(rest, target);
    } else {
      var r :| r in relos && Target(r) == target;
      assert r in rest;
      NamedOnce(rest, target);
    }
  }

  lemma ApartIsDisjoint(relos: seq<Reloc>)
    requires PairwiseApart(relos)
    ensures SameOrDisjoint(relos)
  {
    forall r, s | r in relos && s in relos ensures SameOrApart(Target(r), Target(s)) {
      var i :| 0 <= i < |relos| && relos[i] == r;
      var j :| 0 <= j < |relos| && relos[j] == s;
      assert i < j || i == j || j < i;
    }
  }

  /** In a table whose entries share no byte, a named word is its file word plus the segment, and two loads of the image
      differ there by the difference of the segments. */
  lemma RebasingByDifference(mem: seq<u8>, image: seq<u8>, b: u16, c: u16, relos: seq<Reloc>, target: nat)
    requires b * 0x10 + |image| <= |mem| && InRange(mem, b * 0x10, relos)
    requires c * 0x10 + |image| <= |mem| && InRange(mem, c * 0x10, relos)
    requires PairwiseApart(relos) && Names(relos, target) && HoldsWord(image, target)
    ensures
      var (at, moved) := (WordAt(Loaded(mem, image, b, relos), b * 0x10 + target),
                          WordAt(Loaded(mem, image, c, relos), c * 0x10 + target));
      at == Wrap16(WordAt(image, target) as int + b) && moved == Wrap16(at as int + Wrap16(c as int - b))
  {
    hide WordAt, Loaded, Wrap16, Multiple, Times;
    ApartIsDisjoint(relos);
    NamedOnce(relos, target);
    LoadedWord(mem, image, b, relos, target);
    Rebasing(mem, image, b, c, relos, target);
    MultipleOfOne(b);
    MultipleOfOne(Wrap16(c as int - b));
  }

  lemma MultipleOfOne(seg: u16)
    ensures Multiple(seg, 1) == seg
  {
    assert Multiple(seg, 0) == 0;
  }

  // ----- The same, in the numbers of an entry

  /** The two words that two entries name, 16 times segment plus offset into the image, share no byte. */
  predicate WordsApart(r: Reloc, s: Reloc) {
    || r.segment * 0x10 + r.offset as int + 2 <= s.segment * 0x10 + s.offset as int
    || s.segment * 0x10 + s.offset as int + 2 <= r.segment * 0x10 + r.offset as int
  }

  /** Every word lies in the image, and no two share a byte. */
  ghost predicate IsPlainTable(relos: seq<Reloc>, size: nat) {
    && (forall r :: r in relos ==> r.segment * 0x10 + r.offset as int + 2 <= size)
    && (forall i, j :: 0 <= i < j < |relos| ==> WordsApart(relos[i], relos[j]))
  }

  /** Low byte first. */
  function ValueOf(lo: u8, hi: u8): int { lo as int + 0x100 * hi as int }

  /** In a plain table, the word at segment * 16 + offset of every entry, counted from the image segment on, is the
      file's word there plus the image segment, in 16 bits. */
  lemma EntryMovesItsWord(mem: seq<u8>, image: seq<u8>, seg: u16, relos: seq<Reloc>, r: Reloc)
    requires seg * 0x10 + |image| <= |mem| && IsPlainTable(relos, |image|) && r in relos
    ensures InRange(mem, seg * 0x10, relos)
    ensures
      var (at, m) := (r.segment * 0x10 + r.offset as int, Loaded(mem, image, seg, relos));
      ValueOf(m[seg * 0x10 + at], m[seg * 0x10 + at + 1]) == (ValueOf(image[at], image[at + 1]) + seg) % 0x1_0000
  {
    hide Loaded, Multiple, Times;
    var at := r.segment * 0x10 + r.offset as int;
    TableInPlace(mem, |image|, seg, relos);
    assert Target(r) == at && HoldsWord(image, at) && Names(relos, at);
    ApartIsDisjoint(relos);
    NamedOnce(relos, at);
    LoadedWord(mem, image, seg, relos, at);
    MultipleOfOne(seg);
    WordIs(Loaded(mem, image, seg, relos), seg * 0x10 + at);
    WordIs(image, at);
  }

  /** The word that an entry names, in memory and in the image. */
  ghost predicate WordIsMoved(r: Reloc, image: seq<u8>, mem: seq<u8>, seg: u16) {
    var at := r.segment * 0x10 + r.offset as int;
    && at + 2 <= |image| && seg * 0x10 + at + 2 <= |mem|
    && ValueOf(mem[seg * 0x10 + at], mem[seg * 0x10 + at + 1]) == (ValueOf(image[at], image[at + 1]) + seg) % 0x1_0000
  }

  lemma EntriesMoveTheirWords(mem: seq<u8>, image: seq<u8>, seg: u16, relos: seq<Reloc>)
    requires seg * 0x10 + |image| <= |mem| && InRange(mem, seg * 0x10, relos)
    ensures IsPlainTable(relos, |image|) ==>
      forall r :: r in relos ==> WordIsMoved(r, image, Loaded(mem, image, seg, relos), seg)
  {
    hide Loaded;
    if IsPlainTable(relos, |image|) {
      forall r | r in relos ensures WordIsMoved(r, image, Loaded(mem, image, seg, relos), seg) {
        EntryMovesItsWord(mem, image, seg, relos, r);
      }
    }
  }

  lemma TableInPlace(mem: seq<u8>, size: nat, seg: u16, relos: seq<Reloc>)
    requires seg * 0x10 + size <= |mem| && IsPlainTable(relos, size)
    ensures InRange(mem, seg * 0x10, relos) && PairwiseApart(relos)
  {
    forall i, j | 0 <= i < j < |relos|
      ensures Target(relos[i]) + 2 <= Target(relos[j]) || Target(relos[j]) + 2 <= Target(relos[i])
    {
      assert WordsApart(relos[i], relos[j]);
    }
  }

  lemma WordIs(mem: seq<u8>, addr: nat)
    requires HoldsWord(mem, addr)
    ensures WordAt(mem, addr) == ValueOf(mem[addr], mem[addr + 1])
  {
  }

  // ----- The order of the table

  /** The word at two bytes, moved. */
  function Moved(lo: u8, hi: u8, seg: u16): (u8, u8) {
    var word := Wrap16(lo as int + 0x100 * hi as int + seg);
    (word % 0x100, word / 0x100)
  }

  lemma FixupIs(mem: seq<u8>, addr: nat, seg: u16)
    requires HoldsWord(mem, addr)
    ensures
      var (lo, hi) := Moved(mem[addr], mem[addr + 1], seg);
      Fixup(mem, addr, seg) == mem[addr := lo][addr + 1 := hi]
  {
    WidthValues();
  }

  /** A segment of whole pages of 100h moves the high byte only. */
  lemma WholePagesMoveHighByte(mem: seq<u8>, addr: nat, seg: u16)
    requires HoldsWord(mem, addr) && seg % 0x100 == 0
    ensures Fixup(mem, addr, seg) == mem[addr + 1 := (mem[addr + 1] + seg / 0x100) % 0x100]
  {
    var lo: int, hi: int, page := mem[addr], mem[addr + 1], seg / 0x100;
    FixupIs(mem, addr, seg);
    PageSum(lo, hi, page);
    assert mem[addr := mem[addr]] == mem;
  }

  lemma PageSum(lo: u8, hi: u8, page: u8)
    ensures Moved(lo, hi, 0x100 * page) == (lo, (hi + page) % 0x100)
  {
  }

  lemma FixupsCommute(mem: seq<u8>, x: nat, y: nat, seg: u16)
    requires HoldsWord(mem, x) && HoldsWord(mem, y) && (SameOrApart(x, y) || seg % 0x100 == 0)
    ensures Fixup(Fixup(mem, x, seg), y, seg) == Fixup(Fixup(mem, y, seg), x, seg)
  {
    hide Fixup, Moved;
    var first, second := Fixup(mem, x, seg), Fixup(mem, y, seg);
    if SameOrApart(x, y) {
      FixupIs(mem, x, seg);
      FixupIs(mem, y, seg);
      FixupIs(first, y, seg);
      FixupIs(second, x, seg);
    } else {
      WholePagesMoveHighByte(mem, x, seg);
      WholePagesMoveHighByte(mem, y, seg);
      WholePagesMoveHighByte(first, y, seg);
      WholePagesMoveHighByte(second, x, seg);
    }
  }

  lemma {:induction false} FixupAllAppend(mem: seq<u8>, base: nat, a: seq<Reloc>, b: seq<Reloc>, seg: u16)
    requires InRange(mem, base, a + b)
    ensures FixupAll(mem, base, a + b, seg) == FixupAll(FixupAll(mem, base, a, seg), base, b, seg)
    decreases |a|
  {
    hide Fixup;
    if a == [] {
      assert a + b == b;
    } else {
      assert (a + b)[1..] == a[1..] + b;
      FixupAllAppend(Fixup(mem, base + Target(a[0]), seg), base, a[1..], b, seg);
    }
  }

  /** No entry's carry reaches a byte that another one moves. */
  ghost predicate Movable(relos: seq<Reloc>, seg: u16) {
    SameOrDisjoint(relos) || seg % 0x100 == 0
  }

  lemma {:induction false} MoveToFront(mem: seq<u8>, base: nat, p: seq<Reloc>, x: Reloc, q: seq<Reloc>, seg: u16)
    requires InRange(mem, base, p + [x] + q) && Movable(p + [x] + q, seg)
    ensures FixupAll(mem, base, p + [x] + q, seg)
         == FixupAll(Fixup(mem, base + Target(x), seg), base, p + q, seg)
    decreases |p|
  {
    hide Fixup;
    if p == [] {
      assert p + [x] + q == [x] + q && p + q == q;
    } else {
      var y, mem1 := p[0], Fixup(mem, base + Target(p[0]), seg);
      assert p + [x] + q == [y] + (p[1..] + [x] + q) && p + q == [y] + (p[1..] + q);
      assert y in p + [x] + q && x in p + [x] + q;
      MoveToFront(mem1, base, p[1..], x, q, seg);
      FixupsCommute(mem, base + Target(y), base + Target(x), seg);
    }
  }

  lemma TakeOut(b: seq<Reloc>, x: Reloc) returns (p: seq<Reloc>, q: seq<Reloc>)
    requires x in b
    ensures b == p + [x] + q && multiset(p + q) == multiset(b) - multiset{x} && |p + q| < |b|
  {
    var j :| 0 <= j < |b| && b[j] == x;
    p, q := b[..j], b[j + 1..];
    assert b == p + [x] + q;
  }

  lemma SameMembers(a: seq<Reloc>, b: seq<Reloc>)
    requires multiset(a) == multiset(b)
    ensures forall r :: r in a <==> r in b
  {
    assert forall r :: r in a <==> r in multiset(a);
    assert forall r :: r in b <==> r in multiset(b);
  }

  lemma MatchHead(a: seq<Reloc>, b: seq<Reloc>) returns (p: seq<Reloc>, q: seq<Reloc>)
    requires a != [] && multiset(a) == multiset(b)
    ensures b == p + [a[0]] + q && multiset(p + q) == multiset(a[1..])
  {
    SameMembers(a, b);
    p, q := TakeOut(b, a[0]);
    assert a == [a[0]] + a[1..];
  }

  /** Any order of a table that may be moved about gives the same memory. */
  lemma {:induction false} OrderIsIrrelevant(mem: seq<u8>, base: nat, a: seq<Reloc>, b: seq<Reloc>, seg: u16)
    requires multiset(a) == multiset(b) && Movable(a, seg) && InRange(mem, base, a) && InRange(mem, base, b)
    ensures FixupAll(mem, base, a, seg) == FixupAll(mem, base, b, seg)
    decreases |a|
  {
    hide Fixup;
    if a == [] {
      assert |multiset(b)| == 0;
    } else {
      var p, q := MatchHead(a, b);
      SameMembers(a, b);
      MoveToFront(mem, base, p, a[0], q, seg);
      OrderIsIrrelevant(Fixup(mem, base + Target(a[0]), seg), base, a[1..], p + q, seg);
    }
  }

  // ----- When it matters

  /** Every order of the table gives the same memory, in n bytes and whatever they hold. */
  ghost predicate AnyOrder(n: nat, base: nat, a: seq<Reloc>, seg: u16) {
    forall mem: seq<u8>, b: seq<Reloc> ::
      |mem| == n && multiset(a) == multiset(b) && InRange(mem, base, a) && InRange(mem, base, b) ==>
        FixupAll(mem, base, a, seg) == FixupAll(mem, base, b, seg)
  }

  function Unfixed(mem: seq<u8>, addr: nat, seg: u16): (r: seq<u8>)
    requires HoldsWord(mem, addr)
    ensures |r| == |mem|
  {
    WithWord(mem, addr, Wrap16(WordAt(mem, addr) as int - seg))
  }

  lemma FixupUndoes(mem: seq<u8>, addr: nat, seg: u16)
    requires HoldsWord(mem, addr)
    ensures Fixup(Unfixed(mem, addr, seg), addr, seg) == mem
  {
    hide WithWord, WordAt;
    var word := WordAt(mem, addr);
    WithWordMeans(mem, addr, Wrap16(word as int - seg));
    WithWordTwice(mem, addr, Wrap16(word as int - seg));
  }

  lemma WithWordTwice(mem: seq<u8>, addr: nat, v: u16)
    requires HoldsWord(mem, addr)
    ensures WithWord(WithWord(mem, addr, v), addr, WordAt(mem, addr)) == mem
  {
    WidthValues();
  }

  /** Every memory is what the table makes of some memory. */
  lemma {:induction false} EveryMemoryArises(mem: seq<u8>, base: nat, relos: seq<Reloc>, seg: u16)
    returns (from: seq<u8>)
    requires InRange(mem, base, relos)
    ensures |from| == |mem| && FixupAll(from, base, relos, seg) == mem
    decreases |relos|
  {
    hide Fixup, Unfixed;
    if relos == [] {
      from := mem;
    } else {
      var addr := base + Target(relos[0]);
      var mid := EveryMemoryArises(mem, base, relos[1..], seg);
      from := Unfixed(mid, addr, seg);
      FixupUndoes(mid, addr, seg);
    }
  }

  /** With a segment of no whole pages, some bytes behind one another tell the two orders apart. */
  lemma OverlapWitness(n: nat, addr: nat, seg: u16) returns (mem: seq<u8>)
    requires addr + 3 <= n && seg % 0x100 != 0
    ensures |mem| == n
    ensures Fixup(Fixup(mem, addr, seg), addr + 1, seg) != Fixup(Fixup(mem, addr + 1, seg), addr, seg)
  {
    hide Fixup, Moved;
    var x, y := WitnessBytes(seg);
    mem := seq(n, i => if i == addr then x else if i == addr + 1 then y else 0);
    var first, second := Fixup(mem, addr, seg), Fixup(mem, addr + 1, seg);
    FixupIs(mem, addr, seg);
    FixupIs(mem, addr + 1, seg);
    FixupIs(first, addr + 1, seg);
    FixupIs(second, addr, seg);
    assert Fixup(first, addr + 1, seg)[addr + 2] == Moved(Moved(x, y, seg).1, 0, seg).1;
    assert Fixup(second, addr, seg)[addr + 2] == Moved(y, 0, seg).1;
  }

  /** Bytes whose sum carries into a third in one order only. */
  lemma WitnessBytes(seg: u16) returns (x: u8, y: u8)
    requires seg % 0x100 != 0
    ensures Moved(Moved(x, y, seg).1, 0, seg).1 != Moved(y, 0, seg).1
  {
    hide Moved;
    var low: int, high: int := seg % 0x100, seg / 0x100;
    var gain := if high == 0 then 1 else high;
    x := if high == 0 then 0xFF else 0;
    y := if gain <= 0x100 - low then 0xFF else 0;
    var sum := if y + gain < 0x100 then y + gain else y + gain - 0x100;
    MovedHighByte(x, y, low, high);
    MovedHighByte(y, 0, low, high);
    MovedHighByte(sum, 0, low, high);
  }

  lemma MovedHighByte(lo: u8, hi: u8, low: u8, high: u8)
    ensures Moved(lo, hi, 0x100 * high + low).1 ==
      var sum := hi as int + high + (if lo as int + low >= 0x100 then 1 else 0);
      if sum < 0x100 then sum else sum - 0x100
  {
    var sum := hi as int + high + (if lo as int + low >= 0x100 then 1 else 0);
    var rest := if lo as int + low >= 0x100 then lo as int + low - 0x100 else lo as int + low;
    assert lo as int + 0x100 * hi as int + (0x100 * high + low) == 0x100 * sum + rest;
  }

  /** The last two entries of a table, exchanged. */
  lemma LastTwoMatter(n: nat, base: nat, rest: seq<Reloc>, seg: u16, x: Reloc, y: Reloc) returns (mem: seq<u8>)
    requires forall r :: r in rest ==> base + Target(r) + 2 <= n
    requires seg % 0x100 != 0 && base + Target(y) + 2 <= n && Target(y) == Target(x) + 1
    ensures |mem| == n && InRange(mem, base, rest + [x, y]) && InRange(mem, base, rest + [y, x])
    ensures FixupAll(mem, base, rest + [x, y], seg) != FixupAll(mem, base, rest + [y, x], seg)
  {
    hide Fixup, FixupAll;
    var end := OverlapWitness(n, base + Target(x), seg);
    mem := EveryMemoryArises(end, base, rest, seg);
    FixupAllAppend(mem, base, rest, [x, y], seg);
    FixupAllAppend(mem, base, rest, [y, x], seg);
    FixupTwo(end, base, x, y, seg);
    FixupTwo(end, base, y, x, seg);
  }

  /** The other entries of a table that holds two. */
  lemma WithoutTwo(a: seq<Reloc>, x: Reloc, y: Reloc) returns (rest: seq<Reloc>)
    requires x in a && y in a && x != y
    ensures multiset(rest + [x, y]) == multiset(a) && multiset(rest + [y, x]) == multiset(a)
  {
    var p, q := TakeOut(a, x);
    OtherRemains(multiset(p + q), multiset(a), x, y);
    var p', q' := TakeOut(p + q, y);
    rest := p' + q';
    PairOfTwo(rest, x, y);
    PairOfTwo(rest, y, x);
    PutBack(multiset(rest), multiset(p + q), multiset(a), x, y);
  }

  lemma OtherRemains(most: multiset<Reloc>, all: multiset<Reloc>, x: Reloc, y: Reloc)
    requires most == all - multiset{x} && y in all && x != y
    ensures y in most
  {
  }

  lemma PairOfTwo(rest: seq<Reloc>, x: Reloc, y: Reloc)
    ensures multiset(rest + [x, y]) == multiset(rest) + multiset{x} + multiset{y}
  {
    assert rest + [x, y] == rest + [x] + [y];
  }

  lemma PutBack(rest: multiset<Reloc>, most: multiset<Reloc>, all: multiset<Reloc>, x: Reloc, y: Reloc)
    requires most == all - multiset{x} && x in all && rest == most - multiset{y} && y in most
    ensures rest + multiset{x} + multiset{y} == all == rest + multiset{y} + multiset{x}
  {
    assert rest + multiset{y} == most && most + multiset{x} == all;
  }

  lemma SwapMatters(n: nat, base: nat, a: seq<Reloc>, seg: u16, x: Reloc, y: Reloc)
    requires forall r :: r in a ==> base + Target(r) + 2 <= n
    requires seg % 0x100 != 0 && x in a && y in a && Target(y) == Target(x) + 1
    ensures !AnyOrder(n, base, a, seg)
  {
    hide FixupAll;
    var rest := WithoutTwo(a, x, y);
    SameMembers(rest + [x, y], a);
    SameMembers(rest + [y, x], a);
    assert forall r :: r in rest ==> r in rest + [x, y];
    var mem := LastTwoMatter(n, base, rest, seg, x, y);
  }

  lemma FixupTwo(mem: seq<u8>, base: nat, a: Reloc, b: Reloc, seg: u16)
    requires HoldsWord(mem, base + Target(a)) && HoldsWord(mem, base + Target(b))
    ensures FixupAll(mem, base, [a, b], seg) == Fixup(Fixup(mem, base + Target(a), seg), base + Target(b), seg)
  {
    hide Fixup;
    assert [a, b][1..] == [b] && [b][1..] == [];
    var mem1 := Fixup(mem, base + Target(a), seg);
    assert FixupAll(mem1, base, [b], seg) == FixupAll(Fixup(mem1, base + Target(b), seg), base, [], seg);
  }

  /** The order of a table is irrelevant exactly when no two targets share a single byte, or the segment's low byte is 0
      so that no fix-up carries. */
  lemma OrderIsIrrelevantExactly(n: nat, base: nat, a: seq<Reloc>, seg: u16)
    requires forall r :: r in a ==> base + Target(r) + 2 <= n
    ensures AnyOrder(n, base, a, seg) <==> SameOrDisjoint(a) || seg % 0x100 == 0
  {
    if Movable(a, seg) {
      forall mem: seq<u8>, b: seq<Reloc> |
        |mem| == n && multiset(a) == multiset(b) && InRange(mem, base, a) && InRange(mem, base, b)
        ensures FixupAll(mem, base, a, seg) == FixupAll(mem, base, b, seg)
      {
        OrderIsIrrelevant(mem, base, a, b, seg);
      }
    } else {
      var x, y :| x in a && y in a && !SameOrApart(Target(x), Target(y));
      if Target(x) < Target(y) {
        SwapMatters(n, base, a, seg, x, y);
      } else {
        SwapMatters(n, base, a, seg, y, x);
      }
    }
  }
}
