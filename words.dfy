/** Bytes, 32-bit words and the most-significant-byte-first assembly the keyword search uses. */
module Words {

  type byte = x: int | 0 <= x < 0x100
  type uint32 = x: int | 0 <= x < 0x1_0000_0000

  /** 256 to the power `n`: the weight of the byte `n` places above the least significant one. */
  function Pow256(n: nat): (r: nat)
    ensures r >= 1
  {
    if n == 0 then 1 else 256 * Pow256(n - 1)
  }

  /** The value of `bs` read most-significant byte first: the first byte weighs
      `256^(|bs| - 1)`, the last one 1. */
  function BigEndian(bs: seq<byte>): (v: nat)
  {
    if bs == [] then 0 else bs[0] * Pow256(|bs| - 1) + BigEndian(bs[1..])
  }

  /** The `n` low bytes of `k`, most significant first (the inverse of `BigEndian` on values
      below `256^n`). */
  function EncodeBigEndian(k: nat, n: nat): (bs: seq<byte>)
    ensures |bs| == n
  {
    if n == 0 then [] else EncodeBigEndian(k / 256, n - 1) + [k % 256]
  }

  /** Appending a byte shifts what was assembled so far up by one byte. */
  lemma {:induction false} BigEndianSnoc(bs: seq<byte>, b: byte)
    ensures BigEndian(bs + [b]) == BigEndian(bs) * 256 + b
  {
    if bs != [] {
      var s := bs + [b];
      assert s[1..] == bs[1..] + [b];
      BigEndianSnoc(bs[1..], b);
      var p := Pow256(|bs| - 1);
      var x, y := bs[0], BigEndian(bs[1..]);
      assert Pow256(|s| - 1) == 256 * p;
      assert BigEndian(s) == x * (256 * p) + (y * 256 + b);
      assert x * (256 * p) == (x * p) * 256;
      assert BigEndian(bs) == x * p + y;
    }
  }

  /** An assembly of `n` bytes stays below `256^n`. */
  lemma {:induction false} BigEndianBound(bs: seq<byte>)
    ensures BigEndian(bs) < Pow256(|bs|)
  {
    if bs != [] {
      BigEndianBound(bs[1..]);
      var p := Pow256(|bs| - 1);
      MulMonotone(bs[0], 255, p);
      assert BigEndian(bs) < 255 * p + p;
    }
  }

  /** Encoding then assembling gives back every value that fits in `n` bytes. */
  lemma {:induction false} EncodeBigEndianRoundTrip(k: nat, n: nat)
    requires k < Pow256(n)
    ensures BigEndian(EncodeBigEndian(k, n)) == k
  {
    if n > 0 {
      EncodeBigEndianRoundTrip(k / 256, n - 1);
      BigEndianSnoc(EncodeBigEndian(k / 256, n - 1), k % 256);
    }
  }

  /** Assembling then encoding gives back the bytes. */
  lemma {:induction false} BigEndianEncodeRoundTrip(bs: seq<byte>)
    ensures EncodeBigEndian(BigEndian(bs), |bs|) == bs
  {
    if bs != [] {
      var init, last := bs[..|bs| - 1], bs[|bs| - 1];
      assert bs == init + [last];
      BigEndianSnoc(init, last);
      BigEndianEncodeRoundTrip(init);
    }
  }

  /** The most significant byte of an assembly is its first byte: a keyword of `|bs|` bytes can
      only match where the stored byte equals the keyword shifted down by `8 * (|bs| - 1)`
      bits, which is why the search may use that byte as a cheap filter. */
  lemma TopByte(bs: seq<byte>)
    requires |bs| >= 1
    ensures (BigEndian(bs) / Pow256(|bs| - 1)) % 256 == bs[0]
  {
    var p := Pow256(|bs| - 1);
    var rest := BigEndian(bs[1..]);
    BigEndianBound(bs[1..]);
    DivUnique(bs[0], rest, p);
  }

  lemma DivUnique(q: nat, r: nat, p: nat)
    requires r < p
    ensures (q * p + r) / p == q
  {
    var x := q * p + r;
    var q' := x / p;
    var r' := x % p;
    assert x == q' * p + r';
    if q' < q {
      assert (q - q') * p == r' - r;
      MulAtLeast(q - q', p);
    } else if q' > q {
      assert (q' - q) * p == r - r';
      MulAtLeast(q' - q, p);
    }
  }

  lemma MulMonotone(a: nat, b: nat, p: nat)
    requires a <= b
    ensures a * p <= b * p
  {
  }

  lemma MulAtLeast(a: nat, p: nat)
    requires a >= 1
    ensures a * p >= p
  {
  }

  /** The bytes the keyword insertion writes, as written for little-endian hosts: the 32-bit
      word most significant byte first, cut to its first `klen` bytes. For `klen < 4` these
      are the keyword's HIGH bytes. */
  function InsertedKeywordBytes(keyword: nat, klen: nat): (bs: seq<byte>)
    requires klen <= 4
    ensures |bs| == klen
  {
    EncodeBigEndian(keyword, 4)[..klen]
  }

  /** The bytes the insertion evidently means to write: the keyword's low `klen` bytes, most
      significant first. */
  function KeywordBytes(keyword: nat, klen: nat): (bs: seq<byte>)
    ensures |bs| == klen
  {
    EncodeBigEndian(keyword, klen)
  }
}
