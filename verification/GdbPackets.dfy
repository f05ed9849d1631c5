/** The replies to 'g' and 'm': fixed-width registers and memory, in little-endian hex. */
module GdbPackets {
  import opened Machine
  import opened Hex

  datatype Core = Core(
    ax: u16, cx: u16, dx: u16, bx: u16, sp: u16, bp: u16, si: u16, di: u16,
    cs: u16, es: u16, ds: u16, fs: u16, gs: u16, ss: u16, ip: u16, flags: u16)

  function ToIntelHex16(d: u16): string {
    Byte(d % 0x100) + Byte(d / 0x100) + "0000"
  }

  function ToIntelSegOff(seg: u16, off: u16): string {
    var d := AbsMemory(seg, off);
    Byte(d % 0x100) + Byte(d / 0x100 % 0x100) + Byte(d / 0x1_0000 % 0x100) + Byte(d / 0x100_0000 % 0x100)
  }

  function JoinStrings(parts: seq<string>): string {
    if parts == [] then "" else parts[0] + JoinStrings(parts[1..])
  }

  method HandleRegisters(core: Core) returns (reply: string)
    ensures reply == JoinStrings(Groups(core)) && |reply| == 128
    ensures ShowsRegisters(reply, core)
  {
    hide ToIntelHex16, ToIntelSegOff, JoinStrings, ShowsRegisters;
    RegistersShow(core);
    var regs := [];
    regs := regs + [ToIntelHex16(core.ax)];
    regs := regs + [ToIntelHex16(core.cx)];
    regs := regs + [ToIntelHex16(core.dx)];
    regs := regs + [ToIntelHex16(core.bx)];
    regs := regs + [ToIntelHex16(core.sp)];
    regs := regs + [ToIntelHex16(core.bp)];
    regs := regs + [ToIntelHex16(core.si)];
    regs := regs + [ToIntelHex16(core.di)];
    regs := regs + [ToIntelSegOff(core.cs, core.ip)];
    regs := regs + [ToIntelHex16(core.flags)];
    regs := regs + [ToIntelSegOff(core.cs, 0)];
    regs := regs + [ToIntelSegOff(core.ss, 0)];
    regs := regs + [ToIntelSegOff(core.ds, 0)];
    regs := regs + [ToIntelSegOff(core.es, 0)];
    regs := regs + [ToIntelSegOff(core.fs, 0)];
    regs := regs + [ToIntelSegOff(core.gs, 0)];
    assert regs == Groups(core);
    return JoinStrings(regs);
  }

  function Groups(core: Core): seq<string> {
    [ToIntelHex16(core.ax), ToIntelHex16(core.cx), ToIntelHex16(core.dx), ToIntelHex16(core.bx),
     ToIntelHex16(core.sp), ToIntelHex16(core.bp), ToIntelHex16(core.si), ToIntelHex16(core.di),
     ToIntelSegOff(core.cs, core.ip), ToIntelHex16(core.flags),
     ToIntelSegOff(core.cs, 0), ToIntelSegOff(core.ss, 0), ToIntelSegOff(core.ds, 0),
     ToIntelSegOff(core.es, 0), ToIntelSegOff(core.fs, 0), ToIntelSegOff(core.gs, 0)]
  }

  /** What the sixteen groups stand for. */
  function Fields(core: Core): seq<nat> {
    [core.ax, core.cx, core.dx, core.bx, core.sp, core.bp, core.si, core.di,
     core.cs * 0x10 + core.ip as int, core.flags,
     core.cs * 0x10, core.ss * 0x10, core.ds * 0x10, core.es * 0x10, core.fs * 0x10, core.gs * 0x10]
  }

  /** Group i of a reply is a number of 32 bits, lowest byte first, in upper-case digits. */
  predicate ShowsGroup(reply: string, i: nat, v: nat) {
    && 8 * i + 8 <= |reply| && v < 0x1_0000_0000
    && IsByteText(reply[8 * i], reply[8 * i + 1], v % 0x100)
    && IsByteText(reply[8 * i + 2], reply[8 * i + 3], v / 0x100 % 0x100)
    && IsByteText(reply[8 * i + 4], reply[8 * i + 5], v / 0x1_0000 % 0x100)
    && IsByteText(reply[8 * i + 6], reply[8 * i + 7], v / 0x100_0000)
  }

  predicate ShowsRegisters(reply: string, core: Core) {
    && ShowsGroup(reply, 0, core.ax) && ShowsGroup(reply, 1, core.cx) && ShowsGroup(reply, 2, core.dx)
    && ShowsGroup(reply, 3, core.bx) && ShowsGroup(reply, 4, core.sp) && ShowsGroup(reply, 5, core.bp)
    && ShowsGroup(reply, 6, core.si) && ShowsGroup(reply, 7, core.di)
    && ShowsGroup(reply, 8, core.cs * 0x10 + core.ip as int) && ShowsGroup(reply, 9, core.flags)
    && ShowsGroup(reply, 10, core.cs * 0x10) && ShowsGroup(reply, 11, core.ss * 0x10)
    && ShowsGroup(reply, 12, core.ds * 0x10) && ShowsGroup(reply, 13, core.es * 0x10)
    && ShowsGroup(reply, 14, core.fs * 0x10) && ShowsGroup(reply, 15, core.gs * 0x10)
  }

  // ----- Reading back

  /** Pairs of hex digits as bytes. */
  function Unhex(s: string): seq<nat> {
    if |s| < 2 then [] else [16 * DigitValue(s[0]) + DigitValue(s[1])] + Unhex(s[2..])
  }

  function LittleEndian(bytes: seq<nat>): nat {
    if bytes == [] then 0 else bytes[0] + 0x100 * LittleEndian(bytes[1..])
  }

  function HexBytes(bytes: seq<u8>): string {
    if bytes == [] then "" else Byte(bytes[0]) + HexBytes(bytes[1..])
  }

  lemma {:induction false} HexBytesReadBack(bytes: seq<u8>)
    ensures Unhex(HexBytes(bytes)) == bytes && |HexBytes(bytes)| == 2 * |bytes|
  {
    if bytes != [] {
      ByteReadsBack(bytes[0]);
      assert HexBytes(bytes)[2..] == HexBytes(bytes[1..]);
      HexBytesReadBack(bytes[1..]);
    }
  }

  lemma FourBytes(a: u8, b: u8, c: u8, d: u8)
    ensures LittleEndian(Unhex(Byte(a) + Byte(b) + Byte(c) + Byte(d))) == a + 0x100 * (b + 0x100 * (c + 0x100 * d))
    ensures |Byte(a) + Byte(b) + Byte(c) + Byte(d)| == 8
  {
    var bytes := [a, b, c, d];
    assert bytes[1..] == [b, c, d] && [b, c, d][1..] == [c, d] && [c, d][1..] == [d] && [d][1..] == [];
    assert HexBytes([d]) == Byte(d) + HexBytes([]);
    assert HexBytes([c, d]) == Byte(c) + Byte(d);
    assert HexBytes([b, c, d]) == Byte(b) + Byte(c) + Byte(d);
    assert HexBytes(bytes) == Byte(a) + Byte(b) + Byte(c) + Byte(d);
    HexBytesReadBack(bytes);
    assert LittleEndian([d]) == d + 0x100 * LittleEndian([]);
    assert LittleEndian([c, d]) == c + 0x100 * d;
    assert LittleEndian([b, c, d]) == b + 0x100 * (c + 0x100 * d);
  }

  lemma Hex16ReadsBack(d: u16)
    ensures LittleEndian(Unhex(ToIntelHex16(d))) == d && |ToIntelHex16(d)| == 8
  {
    hide LittleEndian, Unhex, Byte;
    FourBytes(d % 0x100, d / 0x100, 0, 0);
    ByteOfZero();
    assert ToIntelHex16(d) == Byte(d % 0x100) + Byte(d / 0x100) + Byte(0) + Byte(0);
  }

  lemma ByteOfZero()
    ensures Byte(0) == "00"
  {
  }

  lemma SegOffReadsBack(seg: u16, off: u16)
    ensures LittleEndian(Unhex(ToIntelSegOff(seg, off))) == AbsMemory(seg, off) && |ToIntelSegOff(seg, off)| == 8
  {
    hide LittleEndian, Unhex, Byte;
    var d := AbsMemory(seg, off);
    FourBytes(d % 0x100, d / 0x100 % 0x100, d / 0x1_0000 % 0x100, d / 0x100_0000 % 0x100);
  }

  lemma {:induction false} JoinedGroups(parts: seq<string>, i: nat)
    requires i < |parts| && forall k :: 0 <= k < |parts| ==> |parts[k]| == 8
    ensures |JoinStrings(parts)| == 8 * |parts|
    ensures JoinStrings(parts)[8 * i..8 * i + 8] == parts[i]
  {
    var tail := JoinStrings(parts[1..]);
    if |parts| > 1 {
      JoinedGroups(parts[1..], if i == 0 then 0 else i - 1);
      if i > 0 {
        assert (parts[0] + tail)[8 * i..8 * i + 8] == tail[8 * (i - 1)..8 * (i - 1) + 8];
      }
    } else {
      assert parts[1..] == [];
    }
  }

  /** Group i of the reply to 'g' reads back as field i: the registers, cs:ip, the flags and each segment base. */
  lemma RegistersReadBack(core: Core, i: nat)
    requires i < 16
    ensures |JoinStrings(Groups(core))| == 128
    ensures LittleEndian(Unhex(JoinStrings(Groups(core))[8 * i..8 * i + 8])) == Fields(core)[i]
  {
    GroupsReadBack(core);
    JoinedGroups(Groups(core), i);
  }

  lemma GroupsReadBack(core: Core)
    ensures forall i :: 0 <= i < 16 ==>
      |Groups(core)[i]| == 8 && LittleEndian(Unhex(Groups(core)[i])) == Fields(core)[i]
  {
    hide LittleEndian, Unhex, ToIntelHex16, ToIntelSegOff;
    forall d: u16 { Hex16ReadsBack(d); }
    forall seg: u16, off: u16 { SegOffReadsBack(seg, off); }
  }

  lemma BytesOfNumber(a: u8, b: u8, c: u8, d: u8)
    ensures
      var v: int := a as int + 0x100 * (b as int + 0x100 * (c as int + 0x100 * d as int));
      && v < 0x1_0000_0000 && v % 0x100 == a && v / 0x100 % 0x100 == b && v / 0x1_0000 % 0x100 == c
      && v / 0x100_0000 == d
  {
    var x: int := c as int + 0x100 * d as int;
    var y: int := b as int + 0x100 * x;
    var v: int := a as int + 0x100 * y;
    assert v / 0x100 == y && y / 0x100 == x && x / 0x100 == d;
    assert v / 0x1_0000 == x && v / 0x100_0000 == d;
  }

  lemma FourShow(a: u8, b: u8, c: u8, d: u8, v: nat)
    requires v == a as int + 0x100 * (b as int + 0x100 * (c as int + 0x100 * d as int))
    ensures ShowsGroup(Byte(a) + Byte(b) + Byte(c) + Byte(d), 0, v)
  {
    hide Byte, IsByteText;
    ByteIsText(a);
    ByteIsText(b);
    ByteIsText(c);
    ByteIsText(d);
    BytesOfNumber(a, b, c, d);
  }

  lemma Hex16Shows(d: u16)
    ensures ShowsGroup(ToIntelHex16(d), 0, d)
  {
    hide ShowsGroup, Byte;
    ByteOfZero();
    FourShow(d % 0x100, d / 0x100, 0, 0, d);
    assert ToIntelHex16(d) == Byte(d % 0x100) + Byte(d / 0x100) + Byte(0) + Byte(0);
  }

  lemma SegOffShows(seg: u16, off: u16)
    ensures ShowsGroup(ToIntelSegOff(seg, off), 0, seg * 0x10 + off as int)
  {
    hide ShowsGroup, Byte;
    var d := AbsMemory(seg, off);
    FourShow(d % 0x100, d / 0x100 % 0x100, d / 0x1_0000 % 0x100, d / 0x100_0000 % 0x100, d);
  }

  lemma GroupShowsField(core: Core, i: nat)
    requires i < 16
    ensures ShowsGroup(Groups(core)[i], 0, Fields(core)[i])
  {
    hide ShowsGroup, ToIntelHex16, ToIntelSegOff;
    forall d: u16 { Hex16Shows(d); }
    forall seg: u16, off: u16 { SegOffShows(seg, off); }
  }

  lemma GroupShows(core: Core, i: nat)
    requires i < 16
    ensures ShowsGroup(JoinStrings(Groups(core)), i, Fields(core)[i])
  {
    hide ToIntelHex16, ToIntelSegOff, JoinStrings, IsByteText, LittleEndian, Unhex;
    GroupShowsField(core, i);
    GroupsReadBack(core);
    JoinedGroups(Groups(core), i);
    var reply, group := JoinStrings(Groups(core)), Groups(core)[i];
    assert reply[8 * i..8 * i + 8] == group && |group| == 8;
    assert forall j :: 0 <= j < 8 ==> group[j] == reply[8 * i + j];
  }

  lemma RegistersShow(core: Core)
    ensures |JoinStrings(Groups(core))| == 128 && ShowsRegisters(JoinStrings(Groups(core)), core)
  {
    hide ShowsGroup, JoinStrings, Groups, LittleEndian, Unhex;
    RegistersReadBack(core, 0);
    forall i | 0 <= i < 16 ensures ShowsGroup(JoinStrings(Groups(core)), i, Fields(core)[i]) {
      GroupShows(core, i);
    }
    var f := Fields(core);
    assert f[0] == core.ax && f[1] == core.cx && f[2] == core.dx && f[3] == core.bx;
    assert f[4] == core.sp && f[5] == core.bp && f[6] == core.si && f[7] == core.di;
    assert f[8] == core.cs * 0x10 + core.ip as int && f[9] == core.flags;
    assert f[10] == core.cs * 0x10 && f[11] == core.ss * 0x10 && f[12] == core.ds * 0x10;
    assert f[13] == core.es * 0x10 && f[14] == core.fs * 0x10 && f[15] == core.gs * 0x10;
  }

  // ----- Memory

  method HandleMem(mem: array<u8>, addr: nat, len: nat) returns (resp: string)
    requires addr + len <= mem.Length
    ensures resp == HexBytes(mem[addr..addr + len]) && |resp| == 2 * len
    ensures forall i :: 0 <= i < len ==> IsByteText(resp[2 * i], resp[2 * i + 1], mem[addr + i])
  {
    hide HexBytes, Byte, IsByteText;
    NoHexBytes(mem[addr..addr]);
    resp := "";
    for i := 0 to len
      invariant resp == HexBytes(mem[addr..addr + i]) && |resp| == 2 * i
      invariant forall j :: 0 <= j < i ==> IsByteText(resp[2 * j], resp[2 * j + 1], mem[addr + j])
    {
      ByteIsText(mem[addr + i]);
      HexBytesSnoc(mem[addr..addr + i], mem[addr + i]);
      assert mem[addr..addr + i] + [mem[addr + i]] == mem[addr..addr + i + 1];
      resp := resp + Byte(mem[addr + i]);
    }
  }

  lemma NoHexBytes(bytes: seq<u8>)
    ensures bytes == [] ==> HexBytes(bytes) == ""
  {
  }

  lemma {:induction false} HexBytesSnoc(bytes: seq<u8>, b: u8)
    ensures HexBytes(bytes + [b]) == HexBytes(bytes) + Byte(b)
  {
    if bytes == [] {
      assert bytes + [b] == [b] && [b][1..] == [];
    } else {
      assert (bytes + [b])[1..] == bytes[1..] + [b];
      HexBytesSnoc(bytes[1..], b);
    }
  }
}
