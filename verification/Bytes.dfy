/** Little-endian values of 8 or 16 bits in a row of bytes. */
module Bytes {
  import opened Machine
  import opened Bits

  function Size(w: nat): nat { if w == 8 then 1 else 2 }

  predicate Holds(bytes: seq<u8>, at: nat, w: nat) {
    (w == 8 || w == 16) && at + Size(w) <= |bytes|
  }

  lemma WidthValues()
    ensures Pow2(8) == 0x100 && Pow2(16) == 0x1_0000
  {
    assert Pow2(4) == 0x10;
    assert Pow2(8) == 0x100;
    assert Pow2(12) == 0x1000;
  }

  function Load(bytes: seq<u8>, at: nat, w: nat): (v: nat)
    requires Holds(bytes, at, w)
    ensures v < Pow2(w)
  {
    WidthValues();
    if w == 8 then bytes[at] else bytes[at] as int + 0x100 * bytes[at + 1] as int
  }

  function Store(bytes: seq<u8>, at: nat, w: nat, v: nat): (r: seq<u8>)
    requires Holds(bytes, at, w) && v < Pow2(w)
    ensures |r| == |bytes|
  {
    WidthValues();
    if w == 8 then bytes[at := v] else bytes[at := v % 0x100][at + 1 := v / 0x100]
  }

  /** A stored value is loaded back, storing what is there changes nothing, and other bytes stay. */
  lemma StoreMeans(bytes: seq<u8>, at: nat, w: nat, v: nat)
    requires Holds(bytes, at, w) && v < Pow2(w)
    ensures Load(Store(bytes, at, w, v), at, w) == v
    ensures forall i :: 0 <= i < |bytes| && !(at <= i < at + Size(w)) ==> Store(bytes, at, w, v)[i] == bytes[i]
    ensures Store(bytes, at, w, Load(bytes, at, w)) == bytes
  {
    WidthValues();
  }
}
