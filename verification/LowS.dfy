/**
 The 256-bit big-endian arithmetic of tpm.rs and the low-S step it serves: a
 signature's `s` above half the P-256 group order is replaced by order - s.
 */
module LowS {
  import opened Base

  const P256_ORDER: Bytes :=
    [0xFF, 0xFF, 0xFF, 0xFF] + [0x00, 0x00, 0x00, 0x00] + [0xFF, 0xFF, 0xFF, 0xFF] + [0xFF, 0xFF, 0xFF, 0xFF]
    + [0xBC, 0xE6, 0xFA, 0xAD] + [0xA7, 0x17, 0x9E, 0x84] + [0xF3, 0xB9, 0xCA, 0xC2] + [0xFC, 0x63, 0x25, 0x51]

  const P256_HALF_ORDER: Bytes :=
    [0x7F, 0xFF, 0xFF, 0xFF] + [0x80, 0x00, 0x00, 0x00] + [0x7F, 0xFF, 0xFF, 0xFF] + [0xFF, 0xFF, 0xFF, 0xFF]
    + [0xDE, 0x73, 0x7D, 0x56] + [0xD3, 0x8B, 0xCF, 0x42] + [0x79, 0xDC, 0xE5, 0x61] + [0x7E, 0x31, 0x92, 0xA8]

  // ---- big-endian numbers, split anywhere ----

  lemma {:induction false} BeSplit(s: Bytes, k: nat)
    requires k <= |s|
    ensures BeNat(s) == BeNat(s[..k]) * Pow256(|s| - k) + BeNat(s[k..])
  {
    if k == |s| {
      assert s[..k] == s;
    } else {
      var t := s[..|s| - 1];
      BeSplit(t, k);
      assert t[..k] == s[..k] && s[k..][..|s[k..]| - 1] == t[k..];
      assert BeNat(s[k..]) == BeNat(t[k..]) * 256 + s[|s| - 1];
      assert Pow256(|s| - k) == Pow256(|t| - k) * 256;
      Distribute(BeNat(s[..k]), Pow256(|t| - k));
    }
  }

  lemma Distribute(x: nat, y: nat)
    ensures x * y * 256 == x * (y * 256)
  {
  }

  lemma BeCons(s: Bytes)
    requires s != []
    ensures BeNat(s) == s[0] * Pow256(|s| - 1) + BeNat(s[1..])
  {
    BeSplit(s, 1);
    assert s[..1][..0] == [] && BeNat(s[..1]) == s[0];
  }

  // ---- comparison ----

  datatype Ordering = Less | Equal | Greater

  method CompareBytes(a: Bytes, b: Bytes) returns (r: Ordering)
    requires |a| == 32 && |b| == 32
    ensures r.Less? <==> BeNat(a) < BeNat(b)
    ensures r.Equal? <==> BeNat(a) == BeNat(b)
    ensures r.Greater? <==> BeNat(a) > BeNat(b)
  {
    var i := 0;
    while i < 32
      invariant i <= 32 && a[..i] == b[..i]
    {
      if a[i] < b[i] {
        FirstDifference(a, b, i);
        return Less;
      } else if a[i] > b[i] {
        FirstDifference(b, a, i);
        return Greater;
      }
      i := i + 1;
    }
    assert a == a[..32] && b == b[..32];
    return Equal;
  }

  lemma FirstDifference(a: Bytes, b: Bytes, i: nat)
    requires |a| == |b| && i < |a| && a[..i] == b[..i] && a[i] < b[i]
    ensures BeNat(a) < BeNat(b)
  {
    BeSplit(a, i);
    BeSplit(b, i);
    var x, y := a[i..], b[i..];
    BeCons(x);
    BeCons(y);
    BeBound(x[1..]);
    assert x[0] * Pow256(|x| - 1) + Pow256(|x| - 1) <= y[0] * Pow256(|x| - 1) by {
      Multiples(x[0], y[0], Pow256(|x| - 1));
    }
  }

  lemma {:induction false} Multiples(x: int, y: int, p: nat)
    requires x + 1 <= y
    ensures x * p + p <= y * p
    decreases y - x
  {
    assert y * p == (y - 1) * p + p;
    if x + 1 < y { Multiples(x, y - 1, p); }
  }

  // ---- subtraction with a running borrow ----

  /** u16 wrapping subtraction. */
  function WrapSub(x: int, y: int): int { (x - y) % 0x1_0000 }

  method SubtractBytes(a: Bytes, b: Bytes) returns (result: array<u8>)
    requires |a| == 32 && |b| == 32
    ensures fresh(result) && result.Length == 32
    ensures BeNat(result[..]) == BeNat(a) - BeNat(b) + (if BeNat(a) < BeNat(b) then Pow256(32) else 0)
  {
    hide BeNat, Pow256;
    result := new u8[32](_ => 0);
    var borrow: int := 0;
    var i := 32;
    BeNatEmpty();
    assert 0 * Pow256(0) == 0;
    assert a[i..] == [] && b[i..] == [] && result[i..] == [];
    while i > 0
      invariant 0 <= i <= 32 && 0 <= borrow <= 1
      invariant BeNat(a[i..]) - BeNat(b[i..]) == BeNat(result[i..]) - borrow * Pow256(32 - i)
    {
      i := i - 1;
      ghost var below := result[i + 1..];
      assert a[i..][1..] == a[i + 1..] && b[i..][1..] == b[i + 1..];
      var diff := WrapSub(WrapSub(a[i], b[i]), borrow);
      result[i] := diff % 256;
      ghost var before := borrow;
      borrow := if diff > 0xFF then 1 else 0;
      assert result[i + 1..] == below;
      assert a[i] as int - b[i] as int - before == result[i] as int - 256 * borrow;
      assert result[i..][1..] == below;
      SubtractStep(a[i..], b[i..], result[i..], before, borrow);
    }
    assert a[0..] == a && b[0..] == b && result[0..] == result[..];
    BeBound(a);
    BeBound(b);
    BeBound(result[..]);
  }

  lemma SubtractStep(a: Bytes, b: Bytes, r: Bytes, before: int, after: int)
    requires |a| == |b| == |r| > 0
    requires BeNat(a[1..]) - BeNat(b[1..]) == BeNat(r[1..]) - before * Pow256(|r| - 1)
    requires a[0] as int - b[0] as int - before == r[0] as int - 256 * after
    ensures BeNat(a) - BeNat(b) == BeNat(r) - after * Pow256(|r|)
  {
    hide BeNat;
    BeCons(a);
    BeCons(b);
    BeCons(r);
    BorrowAlgebra(a[0], b[0], r[0], before, after, Pow256(|r| - 1));
  }

  lemma BorrowAlgebra(x: int, y: int, z: int, before: int, after: int, p: nat)
    requires x - y - before == z - 256 * after
    ensures x * p - y * p - before * p == z * p - after * (p * 256)
  {
    var k := 256 * after;
    assert (x - y - before) * p == x * p - y * p - before * p;
    assert (z - k) * p == z * p - k * p;
    assert k * p == after * (p * 256);
  }

  // ---- low-S ----

  lemma BeAppend(s: Bytes, w: Bytes)
    requires |w| == 4
    ensures BeNat(s + w) == BeNat(s) * TWO32 + BeWord(w)
  {
    hide BeNat;
    Pow256Values();
    BeSplit(s + w, |s|);
    assert (s + w)[..|s|] == s && (s + w)[|s|..] == w;
    BeFour(w);
  }

  lemma BeFour(w: Bytes)
    requires |w| == 4
    ensures BeNat(w) == BeWord(w)
  {
    hide BeNat;
    BeLast(w);
    BeLast(w[..3]);
    BeLast(w[..2]);
    BeLast(w[..1]);
    assert w[..3][..2] == w[..2] && w[..2][..1] == w[..1] && w[..1][..0] == [];
    assert BeNat([]) == 0 by { BeEmpty(); }
  }

  lemma BeLast(s: Bytes)
    requires s != []
    ensures BeNat(s) == BeNat(s[..|s| - 1]) * 256 + s[|s| - 1]
  {
  }

  lemma BeEmpty() ensures BeNat([]) == 0 { }

  function BeWord(w: Bytes): nat
    requires |w| == 4
  {
    w[0] as int * 0x100_0000 + w[1] as int * 0x1_0000 + w[2] as int * 0x100 + w[3] as int
  }

  lemma Evaluate(a: Bytes, b: Bytes, c: Bytes, d: Bytes, e: Bytes, f: Bytes, g: Bytes, h: Bytes)
    requires |a| == |b| == |c| == |d| == |e| == |f| == |g| == |h| == 4
    ensures BeNat(a + b + c + d + e + f + g + h)
         == ((((((BeWord(a) * TWO32 + BeWord(b)) * TWO32 + BeWord(c)) * TWO32 + BeWord(d)) * TWO32
             + BeWord(e)) * TWO32 + BeWord(f)) * TWO32 + BeWord(g)) * TWO32 + BeWord(h)
  {
    hide BeNat, BeWord;
    BeNatEmpty();
    BeAppend([], a);
    assert [] + a == a;
    BeAppend(a, b);
    BeAppend(a + b, c);
    BeAppend(a + b + c, d);
    BeAppend(a + b + c + d, e);
    BeAppend(a + b + c + d + e, f);
    BeAppend(a + b + c + d + e + f, g);
    BeAppend(a + b + c + d + e + f + g, h);
  }

  lemma BeNatEmpty() ensures BeNat([]) == 0 { }

  lemma OrderValue()
    ensures |P256_ORDER| == 32
    ensures BeNat(P256_ORDER) == 0xFFFFFFFF00000000FFFFFFFFFFFFFFFFBCE6FAADA7179E84F3B9CAC2FC632551
  {
    hide BeNat;
    Evaluate([0xFF, 0xFF, 0xFF, 0xFF], [0x00, 0x00, 0x00, 0x00], [0xFF, 0xFF, 0xFF, 0xFF], [0xFF, 0xFF, 0xFF, 0xFF],
             [0xBC, 0xE6, 0xFA, 0xAD], [0xA7, 0x17, 0x9E, 0x84], [0xF3, 0xB9, 0xCA, 0xC2], [0xFC, 0x63, 0x25, 0x51]);
    assert BeWord([0xFF, 0xFF, 0xFF, 0xFF]) == 0xFFFFFFFF && BeWord([0x00, 0x00, 0x00, 0x00]) == 0;
    assert BeWord([0xBC, 0xE6, 0xFA, 0xAD]) == 0xBCE6FAAD && BeWord([0xA7, 0x17, 0x9E, 0x84]) == 0xA7179E84;
    assert BeWord([0xF3, 0xB9, 0xCA, 0xC2]) == 0xF3B9CAC2 && BeWord([0xFC, 0x63, 0x25, 0x51]) == 0xFC632551;
  }

  lemma HalfOrderValue()
    ensures |P256_HALF_ORDER| == 32
    ensures BeNat(P256_HALF_ORDER) == 0x7FFFFFFF800000007FFFFFFFFFFFFFFFDE737D56D38BCF4279DCE5617E3192A8
  {
    hide BeNat;
    Evaluate([0x7F, 0xFF, 0xFF, 0xFF], [0x80, 0x00, 0x00, 0x00], [0x7F, 0xFF, 0xFF, 0xFF], [0xFF, 0xFF, 0xFF, 0xFF],
             [0xDE, 0x73, 0x7D, 0x56], [0xD3, 0x8B, 0xCF, 0x42], [0x79, 0xDC, 0xE5, 0x61], [0x7E, 0x31, 0x92, 0xA8]);
    assert BeWord([0x7F, 0xFF, 0xFF, 0xFF]) == 0x7FFFFFFF && BeWord([0x80, 0x00, 0x00, 0x00]) == 0x80000000;
    assert BeWord([0xFF, 0xFF, 0xFF, 0xFF]) == 0xFFFFFFFF && BeWord([0xDE, 0x73, 0x7D, 0x56]) == 0xDE737D56;
    assert BeWord([0xD3, 0x8B, 0xCF, 0x42]) == 0xD38BCF42 && BeWord([0x79, 0xDC, 0xE5, 0x61]) == 0x79DCE561;
    assert BeWord([0x7E, 0x31, 0x92, 0xA8]) == 0x7E3192A8;
  }

  /** The two constants fit together: order = 2 * half + 1. */
  lemma OrderIsOdd()
    ensures |P256_ORDER| == 32 && |P256_HALF_ORDER| == 32
    ensures BeNat(P256_ORDER) == 2 * BeNat(P256_HALF_ORDER) + 1
  {
    hide BeNat;
    OrderValue();
    HalfOrderValue();
  }

  method NormalizeS(s: Bytes) returns (out: Bytes)
    requires |s| == 32
    ensures |out| == 32
    ensures BeNat(s) <= BeNat(P256_HALF_ORDER) ==> out == s
    ensures BeNat(P256_HALF_ORDER) < BeNat(s) <= BeNat(P256_ORDER) ==> BeNat(out) == BeNat(P256_ORDER) - BeNat(s)
    ensures BeNat(out) <= (BeNat(P256_ORDER) - 1) / 2 <==> BeNat(s) <= BeNat(P256_ORDER)
    ensures 0 < BeNat(s) < BeNat(P256_ORDER) ==> 0 < BeNat(out) <= (BeNat(P256_ORDER) - 1) / 2
  {
    hide BeNat, Pow256, P256_ORDER, P256_HALF_ORDER;
    OrderIsOdd();
    BeBound(s);
    out := s;
    var c := CompareBytes(out, P256_HALF_ORDER);
    if c == Greater {
      var d := SubtractBytes(P256_ORDER, out);
      out := d[..];
    }
  }
}
