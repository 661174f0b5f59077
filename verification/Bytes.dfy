/** Bytes, little-endian 32-bit words, zero padding and C strings. */
module Bytes {
  type byte = b: int | 0 <= b < 256

  const W32: nat := 0x1_0000_0000
  const W64: nat := 0x1_0000_0000_0000_0000

  function Zeros(n: nat): (r: seq<byte>)
    ensures |r| == n && forall k :: 0 <= k < n ==> r[k] == 0
  {
    seq(n, _ => 0)
  }

  /** Byte k of the little-endian form of w. */
  function ByteOf(w: nat, k: nat): byte {
    if k == 0 then w % 0x100
    else if k == 1 then w / 0x100 % 0x100
    else if k == 2 then w / 0x100 / 0x100 % 0x100
    else w / 0x100 / 0x100 / 0x100 % 0x100
  }

  function Flat(ws: seq<nat>): (r: seq<byte>)
    ensures |r| == 4 * |ws|
  {
    seq(4 * |ws|, j requires 0 <= j < 4 * |ws| => ByteOf(ws[j / 4], j % 4))
  }

  function ReadWord(bs: seq<byte>, i: nat): (w: nat)
    requires 4 * i + 4 <= |bs|
    ensures w < W32
  {
    var b0: nat, b1: nat, b2: nat, b3: nat := bs[4 * i], bs[4 * i + 1], bs[4 * i + 2], bs[4 * i + 3];
    b0 + 0x100 * (b1 + 0x100 * (b2 + 0x100 * b3))
  }

  lemma BytesOfWord(w: nat)
    requires w < W32
    ensures var b0: nat, b1: nat, b2: nat, b3: nat := ByteOf(w, 0), ByteOf(w, 1), ByteOf(w, 2), ByteOf(w, 3);
            b0 + 0x100 * (b1 + 0x100 * (b2 + 0x100 * b3)) == w
  {}

  /** Reading word i back from a block that starts with the flattened words gives word i. */
  lemma ReadFlat(ws: seq<nat>, rest: seq<byte>, i: nat)
    requires i < |ws| && ws[i] < W32
    ensures ReadWord(Flat(ws) + rest, i) == ws[i]
  {
    var bs := Flat(ws) + rest;
    assert bs[4 * i] == ByteOf(ws[i], 0);
    assert bs[4 * i + 1] == ByteOf(ws[i], 1);
    assert bs[4 * i + 2] == ByteOf(ws[i], 2);
    assert bs[4 * i + 3] == ByteOf(ws[i], 3);
    BytesOfWord(ws[i]);
  }

  /** The bytes before the first zero byte, at most |bs| of them. */
  function CString(bs: seq<byte>): (r: seq<byte>)
    ensures |r| <= |bs| && r == bs[..|r|]
    ensures forall k :: 0 <= k < |r| ==> r[k] != 0
    ensures |r| < |bs| ==> bs[|r|] == 0
  {
    if bs == [] || bs[0] == 0 then [] else [bs[0]] + CString(bs[1..])
  }

  /** A prefix without zero bytes that is followed by a zero byte, or by nothing, is the C string. */
  lemma {:induction false} CStringIs(bs: seq<byte>, s: seq<byte>)
    requires |s| <= |bs| && s == bs[..|s|]
    requires forall k :: 0 <= k < |s| ==> s[k] != 0
    requires |s| < |bs| ==> bs[|s|] == 0
    ensures CString(bs) == s
  {
    if s != [] {
      CStringIs(bs[1..], s[1..]);
    }
  }
}
