/** Octet strings and the big-endian integer conversions of Python's `int`. */
module Octets {
  type Octet = x: int | 0 <= x < 256
  type Bytes = seq<Octet>

  function Pow256(k: nat): (p: nat)
    ensures p >= 1
  {
    if k == 0 then 1 else 256 * Pow256(k - 1)
  }

  /** `int.from_bytes(s, "big")`. */
  function FromBytes(s: Bytes): nat {
    if s == [] then 0 else 256 * FromBytes(s[..|s| - 1]) + s[|s| - 1]
  }

  /** `n.to_bytes(k, "big")`; Python raises OverflowError unless `n < Pow256(k)`. */
  function ToBytes(n: nat, k: nat): (s: Bytes)
    ensures |s| == k
  {
    if k == 0 then [] else ToBytes(n / 256, k - 1) + [n % 256]
  }

  /** `n.bit_length()`. */
  function BitLength(n: nat): nat {
    if n == 0 then 0 else 1 + BitLength(n / 2)
  }

  /** The octet count `(n.bit_length() + 7) // 8`. */
  function ByteCount(n: nat): nat {
    (BitLength(n) + 7) / 8
  }

  lemma {:induction false} ToBytesInverse(n: nat, k: nat)
    requires n < Pow256(k)
    ensures FromBytes(ToBytes(n, k)) == n
  {
    if k > 0 {
      ToBytesInverse(n / 256, k - 1);
      var s := ToBytes(n, k);
      assert s[..|s| - 1] == ToBytes(n / 256, k - 1);
    }
  }

  lemma {:induction false} FromBytesInverse(s: Bytes)
    ensures FromBytes(s) < Pow256(|s|)
    ensures ToBytes(FromBytes(s), |s|) == s
  {
    if s != [] {
      FromBytesInverse(s[..|s| - 1]);
      assert s == s[..|s| - 1] + [s[|s| - 1]];
    }
  }

  lemma Shifted(a: nat, p: nat, q: nat)
    requires q == 256 * p
    ensures a * q == 256 * (a * p)
  {
  }

  /** The leading octet carries the most significant digits. */
  lemma {:induction false} FromBytesHead(s: Bytes)
    requires s != []
    ensures FromBytes(s) == s[0] * Pow256(|s| - 1) + FromBytes(s[1..])
  {
    if |s| == 1 {
      assert s[..0] == [];
    } else {
      var front := s[..|s| - 1];
      var tail := s[1..];
      FromBytesHead(front);
      assert tail[..|tail| - 1] == front[1..];
      Shifted(s[0], Pow256(|s| - 2), Pow256(|s| - 1));
      assert FromBytes(tail) == 256 * FromBytes(tail[..|tail| - 1]) + s[|s| - 1];
    }
  }

  lemma HalvesOf256(n: nat)
    ensures n / 2 / 2 / 2 / 2 / 2 / 2 / 2 / 2 == n / 256
  {
  }

  /** Eight bits make an octet: dropping the last octet drops eight bits. */
  lemma BitLengthOctet(n: nat)
    requires n >= 256
    ensures BitLength(n) == 8 + BitLength(n / 256)
  {
    HalvesOf256(n);
    var a := n / 2;
    var b := a / 2;
    var c := b / 2;
    var d := c / 2;
    var e := d / 2;
    var f := e / 2;
    var g := f / 2;
    assert BitLength(n) == 1 + BitLength(a);
    assert BitLength(a) == 1 + BitLength(b);
    assert BitLength(b) == 1 + BitLength(c);
    assert BitLength(c) == 1 + BitLength(d);
    assert BitLength(d) == 1 + BitLength(e);
    assert BitLength(e) == 1 + BitLength(f);
    assert BitLength(f) == 1 + BitLength(g);
  }

  lemma BitLengthSmall(n: nat)
    requires 0 < n < 256
    ensures 1 <= BitLength(n) <= 8
    ensures BitLength(n) == 8 <==> n >= 128
  {
    var a := n / 2;
    var b := a / 2;
    var c := b / 2;
    var d := c / 2;
    var e := d / 2;
    var f := e / 2;
    var g := f / 2;
    assert BitLength(0) == 0;
    assert a > 0 ==> BitLength(a) == 1 + BitLength(b);
    assert b > 0 ==> BitLength(b) == 1 + BitLength(c);
    assert c > 0 ==> BitLength(c) == 1 + BitLength(d);
    assert d > 0 ==> BitLength(d) == 1 + BitLength(e);
    assert e > 0 ==> BitLength(e) == 1 + BitLength(f);
    assert f > 0 ==> BitLength(f) == 1 + BitLength(g);
    assert g > 0 ==> BitLength(g) == 1 + BitLength(g / 2);
  }

  /** `bit_length` locates a positive number between two powers of 256, and its remainder modulo 8 says
      whether the top bit of the leading octet is set. */
  lemma {:induction false} ByteCountBounds(n: nat)
    requires n > 0
    ensures ByteCount(n) >= 1
    ensures Pow256(ByteCount(n) - 1) <= n < Pow256(ByteCount(n))
    ensures BitLength(n) % 8 == 0 <==> n >= 128 * Pow256(ByteCount(n) - 1)
  {
    hide BitLength;
    if n < 256 {
      BitLengthSmall(n);
      assert Pow256(1) == 256 * Pow256(0);
    } else {
      BitLengthOctet(n);
      ByteCountBounds(n / 256);
      var c := ByteCount(n / 256);
      assert ByteCount(n) == 1 + c;
      assert Pow256(c) == 256 * Pow256(c - 1) && Pow256(c + 1) == 256 * Pow256(c);
    }
  }

  lemma {:induction false} Pow256Monotone(a: nat, b: nat)
    requires a <= b
    ensures Pow256(a) <= Pow256(b)
  {
    if a < b {
      Pow256Monotone(a, b - 1);
    }
  }

  lemma ByteCountMonotone(a: nat, b: nat)
    requires a <= b
    ensures ByteCount(a) <= ByteCount(b)
  {
    if a > 0 && ByteCount(a) > ByteCount(b) {
      ByteCountBounds(a);
      ByteCountBounds(b);
      Pow256Monotone(ByteCount(b), ByteCount(a) - 1);
    }
  }

  /** A bound on the value bounds the octet count. */
  lemma ByteCountWithin(n: nat, k: nat)
    requires n < Pow256(k)
    ensures ByteCount(n) <= k
  {
    if n > 0 && ByteCount(n) > k {
      ByteCountBounds(n);
      Pow256Monotone(k, ByteCount(n) - 1);
    }
  }

  /** `data` with the octets from `p` on overwritten by `x`. */
  function Splice(data: Bytes, p: nat, x: Bytes): (r: Bytes)
    requires p + |x| <= |data|
    ensures |r| == |data|
    ensures forall i :: 0 <= i < |data| ==> r[i] == if p <= i < p + |x| then x[i - p] else data[i]
  {
    data[..p] + x + data[p + |x|..]
  }

  /** `piece` occurs in `data` at `offset`. */
  predicate At(data: Bytes, offset: nat, piece: Bytes) {
    offset + |piece| <= |data| && data[offset..offset + |piece|] == piece
  }

  lemma AtStart(data: Bytes)
    ensures At(data, 0, data)
  {
    assert data[0..|data|] == data;
  }

  lemma AtInside(data: Bytes, start: nat, content: Bytes, offset: nat, piece: Bytes)
    requires At(data, start, content) && At(content, offset, piece)
    ensures At(data, start + offset, piece)
  {
    var found := data[start + offset..start + offset + |piece|];
    forall i | 0 <= i < |piece|
      ensures found[i] == piece[i]
    {
      assert piece[i] == content[offset..offset + |piece|][i] == content[offset + i];
      assert content[offset + i] == data[start..start + |content|][offset + i];
    }
    assert found == piece;
  }

  lemma AtSplit(data: Bytes, offset: nat, a: Bytes, b: Bytes)
    requires At(data, offset, a + b)
    ensures At(data, offset, a)
    ensures At(data, offset + |a|, b)
  {
    var ab := data[offset..offset + |a + b|];
    assert ab == a + b;
    assert ab[..|a|] == a && ab[|a|..] == b;
    assert data[offset..offset + |a|] == ab[..|a|];
    assert data[offset + |a|..offset + |a| + |b|] == ab[|a|..];
  }

  lemma AtThree(a: Bytes, b: Bytes, c: Bytes)
    ensures At(a + (b + c), 0, a) && At(a + (b + c), |a|, b) && At(a + (b + c), |a| + |b|, c)
  {
    hide At;
    AtStart(a + (b + c));
    AtSplit(a + (b + c), 0, a, b + c);
    AtSplit(a + (b + c), |a|, b, c);
  }
}
