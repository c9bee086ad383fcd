/** Byte-addressed memory with little-endian fields, as on x86.

    A field of `width` bytes at address `a` is read with `Field` and stored with `Put`. All
    the facts the other modules need about raw memory are in the contract of `Put`. */
module LittleEndian {
  type byte = x: int | 0 <= x < 256

  function Power256(width: nat): (p: nat)
    ensures p > 0
  {
    if width == 0 then 1 else 256 * Power256(width - 1)
  }

  function Encode(v: nat, width: nat): (s: seq<byte>)
    ensures |s| == width
  {
    if width == 0 then [] else [v % 256] + Encode(v / 256, width - 1)
  }

  function Decode(s: seq<byte>): nat {
    if s == [] then 0 else s[0] + 256 * Decode(s[1..])
  }

  lemma {:induction false} DecodeEncode(v: nat, width: nat)
    requires v < Power256(width)
    ensures Decode(Encode(v, width)) == v
  {
    if width > 0 {
      DecodeEncode(v / 256, width - 1);
      assert Encode(v, width)[1..] == Encode(v / 256, width - 1);
    }
  }

  lemma {:induction false} DecodeBounded(s: seq<byte>)
    ensures Decode(s) < Power256(|s|)
  {
    if s != [] {
      DecodeBounded(s[1..]);
    }
  }

  lemma {:induction false} EncodeDecode(s: seq<byte>)
    ensures Encode(Decode(s), |s|) == s
  {
    if s != [] {
      EncodeDecode(s[1..]);
      var v := Decode(s);
      assert v == s[0] + 256 * Decode(s[1..]);
      assert v % 256 == s[0] && v / 256 == Decode(s[1..]);
      assert s == [s[0]] + s[1..];
    }
  }

  lemma SmallWidths()
    ensures Power256(1) == 256
    ensures Power256(4) == 0x1_0000_0000
    ensures Power256(8) == 0x1_0000_0000_0000_0000
  {
    assert Power256(0) == 1;
    assert Power256(1) == 256;
    assert Power256(2) == 0x1_0000;
    assert Power256(3) == 0x100_0000;
    assert Power256(4) == 0x1_0000_0000;
    assert Power256(5) == 0x100_0000_0000;
    assert Power256(6) == 0x1_0000_0000_0000;
    assert Power256(7) == 0x100_0000_0000_0000;
  }

  function Field(m: seq<byte>, a: nat, width: nat): nat
    requires a + width <= |m|
  {
    Decode(m[a..a + width])
  }

  lemma FieldBounded(m: seq<byte>, a: nat, width: nat)
    requires a + width <= |m|
    ensures Field(m, a, width) < Power256(width)
  {
    DecodeBounded(m[a..a + width]);
  }

  lemma FourBytes(m: seq<byte>, a: nat)
    requires a + 4 <= |m|
    ensures Field(m, a, 4) == m[a] as int + 0x100 * (m[a + 1] as int) + 0x1_0000 * (m[a + 2] as int)
                              + 0x100_0000 * (m[a + 3] as int)
  {
    var s := m[a..a + 4];
    assert s[1..][1..] == s[2..] && s[2..][1..] == s[3..] && s[3..][1..] == [];
    assert Decode(s[3..]) == s[3];
    assert Decode(s[2..]) == s[2] as int + 256 * Decode(s[3..]);
    assert Decode(s[1..]) == s[1] as int + 256 * Decode(s[2..]);
  }

  lemma {:induction false} ZeroBytes(s: seq<byte>)
    requires Decode(s) == 0
    ensures forall k :: 0 <= k < |s| ==> s[k] == 0
  {
    if s != [] {
      ZeroBytes(s[1..]);
      assert s == [s[0]] + s[1..];
    }
  }

  /** Equal bytes give equal fields. */
  lemma SameField(m: seq<byte>, n: seq<byte>, a: nat, width: nat)
    requires a + width <= |m| && a + width <= |n|
    requires forall k :: a <= k < a + width ==> m[k] == n[k]
    ensures Field(m, a, width) == Field(n, a, width)
  {
    assert m[a..a + width] == n[a..a + width];
  }

  /** The memory after the field at `a` is set to `v`: the field reads back as `v`, and every
      byte and every field that does not overlap it is as before. */
  function Put(m: seq<byte>, a: nat, width: nat, v: nat): (n: seq<byte>)
    requires a + width <= |m| && v < Power256(width)
    ensures |n| == |m|
    ensures Field(n, a, width) == v
    ensures forall k {:trigger n[k]} :: 0 <= k < |m| && (k < a || a + width <= k) ==> n[k] == m[k]
    ensures forall b: nat, w: nat {:trigger Field(n, b, w)} :: b + w <= |m| && (b + w <= a || a + width <= b) ==>
                               Field(n, b, w) == Field(m, b, w)
  {
    var n := m[..a] + Encode(v, width) + m[a + width..];
    assert n[a..a + width] == Encode(v, width);
    DecodeEncode(v, width);
    assert forall b: nat, w: nat | b + w <= |m| && (b + w <= a || a + width <= b) ::
        Field(n, b, w) == Field(m, b, w) by {
      forall b: nat, w: nat | b + w <= |m| && (b + w <= a || a + width <= b)
        ensures Field(n, b, w) == Field(m, b, w)
      {
        SameField(n, m, b, w);
      }
    }
    n
  }
}
