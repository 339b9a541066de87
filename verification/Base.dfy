/** Bytes, optional values and big-endian numbers, shared by every other module. */
module Base {

  type u8 = x: int | 0 <= x < 256
  type Bytes = seq<u8>

  datatype Option<+T> = None | Some(value: T) {
    predicate IsFailure() { None? }
    function PropagateFailure<U>(): Option<U> requires None? { None }
    function Extract(): T requires Some? { value }
  }

  /** The outcome of decoding: a value, an error the caller gets to see, or the
      end of the program, by a panic or for want of stack. */
  datatype Read<+T> = Got(value: T) | Bad | Crash {
    predicate IsFailure() { !Got? }
    function PropagateFailure<U>(): Read<U> requires !Got? { if Bad? then Bad else Crash }
    function Extract(): T requires Got? { value }

    /** For callers that stop on an error: a crash stops them as well. */
    function Try(): Option<T> { if Got? then Some(value) else None }
  }

  /** A missing value is an error. */
  function Need<T>(o: Option<T>): Read<T> {
    if o.Some? then Got(o.value) else Bad
  }

  const TWO32: nat := 0x1_0000_0000
  const TWO63: nat := 0x8000_0000_0000_0000
  const TWO64: nat := 0x1_0000_0000_0000_0000

  function Max(a: nat, b: nat): nat { if a < b then b else a }

  /** `data` holds exactly the bytes `s` from position `pos` on. */
  ghost predicate At(data: Bytes, pos: nat, s: Bytes) {
    pos + |s| <= |data| && data[pos..pos + |s|] == s
  }

  lemma AtConcat(data: Bytes, pos: nat, a: Bytes, b: Bytes)
    ensures At(data, pos, a + b) <==> At(data, pos, a) && At(data, pos + |a|, b)
  {
    if pos + |a + b| <= |data| {
      var s := data[pos..pos + |a + b|];
      assert s[..|a|] == data[pos..pos + |a|] && s[|a|..] == data[pos + |a|..pos + |a| + |b|];
      assert s == s[..|a|] + s[|a|..];
      assert (a + b)[..|a|] == a && (a + b)[|a|..] == b;
    }
  }

  lemma AtPrefix(a: Bytes, s: Bytes, b: Bytes)
    ensures At(a + s + b, |a|, s)
  {
    assert (a + s + b)[|a|..|a| + |s|] == s;
  }

  /** What a loop has collected so far, followed by what is still to come. */
  ghost function Prepend<T>(done: seq<T>, rest: Read<seq<T>>): Read<seq<T>> {
    if rest.Got? then Got(done + rest.value) else rest
  }

  lemma PrependNone<T>(rest: Read<seq<T>>)
    ensures Prepend([], rest) == rest
  {
    if rest.Got? { assert [] + rest.value == rest.value; }
  }

  lemma PrependCons<T>(done: seq<T>, x: T, rest: Read<seq<T>>)
    ensures Prepend(done, if rest.Got? then Got([x] + rest.value) else rest) == Prepend(done + [x], rest)
  {
    if rest.Got? { assert done + ([x] + rest.value) == done + [x] + rest.value; }
  }

  /** The number a byte string spells, most significant byte first. */
  function BeNat(s: Bytes): nat {
    if s == [] then 0 else BeNat(s[..|s| - 1]) * 256 + s[|s| - 1]
  }

  function Pow256(k: nat): nat {
    if k == 0 then 1 else Pow256(k - 1) * 256
  }

  /** The `k` low-order bytes of `n`, most significant first (a truncating cast). */
  function BeBytes(n: nat, k: nat): (s: Bytes)
    ensures |s| == k
  {
    if k == 0 then [] else BeBytes(n / 256, k - 1) + [n % 256]
  }

  lemma {:induction false} BeRoundTrip(n: nat, k: nat)
    requires n < Pow256(k)
    ensures BeNat(BeBytes(n, k)) == n
  {
    if k != 0 {
      BeRoundTrip(n / 256, k - 1);
      assert BeBytes(n, k)[..k - 1] == BeBytes(n / 256, k - 1);
    }
  }

  lemma {:induction false} BeBound(s: Bytes)
    ensures BeNat(s) < Pow256(|s|)
  {
    if s != [] { BeBound(s[..|s| - 1]); }
  }

  lemma Pow256Values()
    ensures Pow256(1) == 256 && Pow256(2) == 65536 && Pow256(4) == TWO32 && Pow256(8) == TWO64
  {
    assert Pow256(3) == 256 * 65536;
    assert Pow256(5) == 256 * TWO32 && Pow256(6) == 65536 * TWO32 && Pow256(7) == 65536 * 256 * TWO32;
  }

  /** The ASCII bytes of a string constant of the program. */
  function Ascii(s: string): (r: Bytes)
    ensures |r| == |s|
  {
    seq(|s|, i requires 0 <= i < |s| => s[i] as int % 256)
  }
}
