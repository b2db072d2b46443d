/** Numbers as byte sequences, least significant byte first (MD5) or last (network order). */
module ByteOrder {
  import opened Words

  function Pow256(n: nat): (p: nat)
    ensures p > 0
  {
    if n == 0 then 1 else 256 * Pow256(n - 1)
  }

  function LittleEndian(bytes: seq<Byte>): nat {
    if bytes == [] then 0 else bytes[0] + 256 * LittleEndian(bytes[1..])
  }

  function ToLittleEndian(value: nat, width: nat): (bytes: seq<Byte>)
    ensures |bytes| == width
  {
    if width == 0 then [] else [value % 256] + ToLittleEndian(value / 256, width - 1)
  }

  function BigEndian(bytes: seq<Byte>): nat {
    if bytes == [] then 0 else 256 * BigEndian(bytes[..|bytes| - 1]) + bytes[|bytes| - 1]
  }

  function ToBigEndian(value: nat, width: nat): (bytes: seq<Byte>)
    ensures |bytes| == width
  {
    if width == 0 then [] else ToBigEndian(value / 256, width - 1) + [value % 256]
  }

  lemma {:induction false} LittleEndianBound(bytes: seq<Byte>)
    ensures LittleEndian(bytes) < Pow256(|bytes|)
  {
    if bytes != [] {
      LittleEndianBound(bytes[1..]);
    }
  }

  lemma {:induction false} LittleEndianEncode(value: nat, width: nat)
    requires value < Pow256(width)
    ensures LittleEndian(ToLittleEndian(value, width)) == value
  {
    if width > 0 {
      LittleEndianEncode(value / 256, width - 1);
      assert ToLittleEndian(value, width)[1..] == ToLittleEndian(value / 256, width - 1);
    }
  }

  lemma WordToFourBytes(w: Word)
    ensures ToLittleEndian(w, 4) == [w % 0x100, w / 0x100 % 0x100, w / 0x1_0000 % 0x100, w / 0x100_0000 % 0x100]
  {
    assert ToLittleEndian(w, 4) == [w % 0x100] + ToLittleEndian(w / 0x100, 3);
    assert ToLittleEndian(w / 0x100, 3) == [w / 0x100 % 0x100] + ToLittleEndian(w / 0x1_0000, 2);
    assert ToLittleEndian(w / 0x1_0000, 2) == [w / 0x1_0000 % 0x100] + ToLittleEndian(w / 0x100_0000, 1);
    assert ToLittleEndian(w / 0x100_0000, 1) == [w / 0x100_0000 % 0x100];
  }

  lemma {:induction false} LittleEndianConcat(a: seq<Byte>, b: seq<Byte>)
    ensures LittleEndian(a + b) == LittleEndian(a) + Pow256(|a|) * LittleEndian(b)
  {
    if a == [] {
      assert a + b == b;
    } else {
      LittleEndianConcat(a[1..], b);
      assert (a + b)[1..] == a[1..] + b;
      assert Pow256(|a|) * LittleEndian(b) == 256 * (Pow256(|a| - 1) * LittleEndian(b));
    }
  }

  lemma {:induction false} BigEndianBound(bytes: seq<Byte>)
    ensures BigEndian(bytes) < Pow256(|bytes|)
  {
    if bytes != [] {
      BigEndianBound(bytes[..|bytes| - 1]);
    }
  }

  lemma {:induction false} BigEndianDecode(bytes: seq<Byte>)
    ensures ToBigEndian(BigEndian(bytes), |bytes|) == bytes
  {
    if bytes != [] {
      var n := |bytes| - 1;
      BigEndianDecode(bytes[..n]);
      assert bytes == bytes[..n] + [bytes[n]];
    }
  }

  lemma {:induction false} BigEndianEncode(value: nat, width: nat)
    requires value < Pow256(width)
    ensures BigEndian(ToBigEndian(value, width)) == value
  {
    if width > 0 {
      BigEndianEncode(value / 256, width - 1);
      assert ToBigEndian(value, width)[..width - 1] == ToBigEndian(value / 256, width - 1);
    }
  }
}
