/**
 The cursor of the TO2 decoder (fdo.rs), as it is: a 64-bit number that
 `skip_value` advances over strings without a check, and a recursion that needs
 stack.

 A string length close to 2^64 wraps the cursor, so a skip can end before it
 began and a nested one can go round for ever; a read of such a string panics.
 The walks below are therefore total functions of the number of calls the stack
 has room for. `Skip(Fdo, ..)` is the same walk without the wrap; `WrapFree` says
 when the two agree.
 */
module Cursor {
  import opened Base
  import opened Cbor

  /** What decoding depends on besides the bytes: UTF-8 validity, and how many
      nested `skip_value` calls the stack has room for. */
  datatype Env = Env(utf8: Bytes -> bool, stack: nat)

  /** The cursor after `len` more bytes. No buffer reaches 2^63 bytes, so a sum that
      stays inside one never wraps. */
  function Advance(data: Bytes, p: nat, len: nat): nat {
    if p + len <= |data| then p + len else (p + len) % TWO64
  }

  // ---- the walk ----

  /** `skip_value` with room for `stack` nested calls. */
  function Walk(data: Bytes, pos: nat, stack: nat): Read<nat>
    decreases stack, 0
  {
    if stack == 0 then Crash
    else if pos >= |data| then Bad
    else if data[pos] / 32 == 7 then Got(pos + 1 + TailLen(Fdo, 7, data[pos] % 32).value)
    else
      var (major, arg, p) :- Need(ReadHead(Fdo, data, pos));
      if major < 2 then Got(p)
      else if major < 4 then Got(Advance(data, p, arg))
      else WalkN(data, p, if major == 4 then arg else if major == 5 then 2 * arg else 1, stack - 1)
  }

  /** `n` times `skip_value`. */
  function WalkN(data: Bytes, pos: nat, n: nat, stack: nat): Read<nat>
    decreases stack, n + 1
  {
    if n == 0 then Got(pos)
    else
      var p :- Walk(data, pos, stack);
      WalkN(data, p, n - 1, stack)
  }

  // ---- the readers ----

  function ReadLen(data: Bytes, pos: nat, want: Major): (r: Read<(nat, nat)>)
    ensures r.Got? ==> pos < r.value.1 <= |data|
    ensures !r.Crash?
  {
    var (major, arg, p) :- Need(ReadHead(Fdo, data, pos));
    if major == want then Got((arg, p)) else Bad
  }

  /** Byte (major 2) or text (major 3) string; text is checked by the caller. The
      bounds check is made on the wrapped sum, and slicing then panics. */
  function ReadString(data: Bytes, pos: nat, major: Major): (r: Read<(Bytes, nat)>)
    ensures r.Got? ==> pos < r.value.1 <= |data|
  {
    var (len, p) :- ReadLen(data, pos, major);
    var e := Advance(data, p, len);
    if e > |data| then Bad else if e < p then Crash else Got((data[p..e], e))
  }

  function ReadText(utf8: Bytes -> bool, data: Bytes, pos: nat): (r: Read<(Bytes, nat)>)
    ensures r.Got? ==> pos < r.value.1 <= |data|
  {
    var (s, p) :- ReadString(data, pos, 3);
    if utf8(s) then Got((s, p)) else Bad
  }

  /** A 64-bit argument cast to i32. */
  function ToI32(v: nat): int {
    (v + 0x8000_0000) % TWO32 - 0x8000_0000
  }

  function ReadInt32(data: Bytes, pos: nat): (r: Read<(int, nat)>)
    ensures r.Got? ==> pos < r.value.1 <= |data|
    ensures !r.Crash?
  {
    var (major, arg, p) :- Need(ReadHead(Fdo, data, pos));
    if major == 0 then Got((ToI32(arg), p))
    else if major == 1 then Got((-1 - ToI32(arg), p))
    else Bad
  }

  /** An integer is read modulo 2^32, as a signed 32-bit number. */
  lemma ReadInt32Meaning(data: Bytes, pos: nat)
    ensures var h, r := ReadHead(Fdo, data, pos), ReadInt32(data, pos);
            && (r.Got? <==> h.Some? && h.value.0 < 2)
            && (r.Got? ==> && -0x8000_0000 <= r.value.0 < 0x8000_0000
                           && (r.value.0 - (if h.value.0 == 0 then h.value.1 else -1 - h.value.1)) % TWO32 == 0)
  {
    hide ReadHead;
    var h := ReadHead(Fdo, data, pos);
    if h.Some? && h.value.0 < 2 {
      var v := h.value.1;
      var q := (v + 0x8000_0000) / TWO32;
      assert ToI32(v) == v - q * TWO32;
      assert (ToI32(v) - v) % TWO32 == 0 && (v - ToI32(v)) % TWO32 == 0;
    }
  }

  /** Map headers are read with one- and two-byte lengths only. */
  function ReadMapLen(data: Bytes, pos: nat): (r: Read<(nat, nat)>)
    ensures r.Got? ==> pos < r.value.1 <= |data|
    ensures !r.Crash?
  {
    if pos < |data| && data[pos] % 32 > 25 then Bad else ReadLen(data, pos, 5)
  }

  // ---- where the cursor wraps ----

  lemma ArgBound(data: Bytes, pos: nat)
    requires ReadHead(Fdo, data, pos).Some?
    ensures ReadHead(Fdo, data, pos).value.1 < TWO64
  {
    var (major, arg, p) := ReadHead(Fdo, data, pos).value;
    BeBound(data[pos + 1..p]);
    Pow256Values();
    assert Pow256(0) == 1;
  }

  /** At a string head: the cursor moves backwards, and reading the string panics,
      exactly when the end of the string lies beyond the 64-bit numbers. */
  lemma BackwardsExactly(data: Bytes, pos: nat, stack: nat)
    requires |data| < TWO63 && stack > 0
    requires ReadHead(Fdo, data, pos).Some? && 2 <= ReadHead(Fdo, data, pos).value.0 <= 3
    ensures var (major, arg, p) := ReadHead(Fdo, data, pos).value;
            && Walk(data, pos, stack).Got?
            && (Walk(data, pos, stack).value < p <==> p + arg >= TWO64)
            && (ReadString(data, pos, major).Crash? <==> p + arg >= TWO64)
  {
    hide ReadHead;
    ArgBound(data, pos);
    assert data[pos] / 32 == ReadHead(Fdo, data, pos).value.0 by { HeadMajor(data, pos); }
  }

  lemma HeadMajor(data: Bytes, pos: nat)
    requires ReadHead(Fdo, data, pos).Some?
    ensures pos < |data| && data[pos] / 32 == ReadHead(Fdo, data, pos).value.0
  {
  }

  /** No string on the walk from `pos` ends beyond the 64-bit numbers. */
  ghost predicate WrapFree(data: Bytes, pos: nat)
    decreases Left(data, pos), 0, 0
  {
    var h := ReadHead(Fdo, data, pos);
    h.Some? ==>
      var (major, arg, p) := h.value;
      if 2 <= major <= 3 then p + arg < TWO64
      else if 4 <= major <= 6 then WrapFreeN(data, p, if major == 4 then arg else if major == 5 then 2 * arg else 1)
      else true
  }

  ghost predicate WrapFreeN(data: Bytes, pos: nat, n: nat)
    decreases Left(data, pos), 1, n
  {
    n > 0 ==>
      WrapFree(data, pos) && (Skip(Fdo, data, pos).Some? ==> WrapFreeN(data, Skip(Fdo, data, pos).value, n - 1))
  }

  /** Off the wrap, the decoder walks as `Skip` does, as far as its stack reaches;
      more nested calls than bytes left are never needed. */
  lemma {:induction false} WalkAgrees(data: Bytes, pos: nat, stack: nat)
    requires WrapFree(data, pos)
    ensures Walk(data, pos, stack) == Need(Skip(Fdo, data, pos)) || Walk(data, pos, stack) == Crash
    ensures stack > Left(data, pos) ==> Walk(data, pos, stack) != Crash
    decreases Left(data, pos), 0, 0
  {
    hide ReadHead, Skip, SkipN;
    if stack > 0 && pos < |data| {
      var h := ReadHead(Fdo, data, pos);
      if data[pos] / 32 == 7 || h.None? {
        NoHead(data, pos);
      } else {
        HeadMajor(data, pos);
        var (major, arg, p) := h.value;
        SkipAfterHead(Fdo, data, pos, major, arg, p);
        if major >= 4 {
          WalkNAgrees(data, p, if major == 4 then arg else if major == 5 then 2 * arg else 1, stack - 1);
        }
      }
    } else {
      SkipEmpty(data, pos);
    }
  }

  lemma NoHead(data: Bytes, pos: nat)
    requires pos < |data| && (data[pos] / 32 == 7 || ReadHead(Fdo, data, pos).None?)
    ensures Skip(Fdo, data, pos)
         == if data[pos] / 32 == 7 then Some(pos + 1 + TailLen(Fdo, 7, data[pos] % 32).value) else None
  {
  }

  lemma SkipEmpty(data: Bytes, pos: nat)
    ensures pos >= |data| ==> Skip(Fdo, data, pos) == None
  {
  }

  lemma {:induction false} WalkNAgrees(data: Bytes, pos: nat, n: nat, stack: nat)
    requires WrapFreeN(data, pos, n)
    ensures WalkN(data, pos, n, stack) == Need(SkipN(Fdo, data, pos, n)) || WalkN(data, pos, n, stack) == Crash
    ensures stack > Left(data, pos) ==> WalkN(data, pos, n, stack) != Crash
    decreases Left(data, pos), 1, n
  {
    hide Skip, Walk, WrapFree;
    if n > 0 {
      WalkAgrees(data, pos, stack);
      if Skip(Fdo, data, pos).Some? { WalkNAgrees(data, Skip(Fdo, data, pos).value, n - 1, stack); }
    }
  }

  /** Whatever `Skip` walks over without leaving the 64-bit numbers is wrap-free. */
  lemma {:induction false} SkipWrapFree(data: Bytes, pos: nat)
    requires Skip(Fdo, data, pos).Some? && Skip(Fdo, data, pos).value < TWO64
    ensures WrapFree(data, pos)
    decreases Left(data, pos), 0, 0
  {
    hide ReadHead, Skip, SkipN;
    var h := ReadHead(Fdo, data, pos);
    if h.Some? {
      var (major, arg, p) := h.value;
      SkipAfterHead(Fdo, data, pos, major, arg, p);
      if 4 <= major <= 6 {
        SkipNWrapFree(data, p, if major == 4 then arg else if major == 5 then 2 * arg else 1);
      }
    }
  }

  lemma {:induction false} SkipNWrapFree(data: Bytes, pos: nat, n: nat)
    requires SkipN(Fdo, data, pos, n).Some? && SkipN(Fdo, data, pos, n).value < TWO64
    ensures WrapFreeN(data, pos, n)
    decreases Left(data, pos), 1, n
  {
    hide Skip, WrapFree;
    if n > 0 {
      SkipNWrapFree(data, Skip(Fdo, data, pos).value, n - 1);
      SkipWrapFree(data, pos);
    }
  }

  // ---- what the decoder skips ----

  /** Levels of nesting below an item. */
  ghost function Height(it: Item): nat
    decreases it, 1
  {
    if it.Atom? || it.kids == [] then 0 else 1 + MaxHeight(it.kids)
  }

  ghost function MaxHeight(items: seq<Item>): nat
    decreases items, 0
  {
    if items == [] then 0 else Max(Height(items[0]), MaxHeight(items[1..]))
  }

  /** An item of the decoder's language is skipped exactly, if the stack has room
      for its nesting, and otherwise the stack runs out. */
  lemma {:induction false} WalkItem(it: Item, data: Bytes, pos: nat, stack: nat)
    requires InLang(Fdo, it) && At(data, pos, Encode(it))
    ensures Walk(data, pos, stack) == if Height(it) < stack then Got(pos + |Encode(it)|) else Crash
    decreases it, 1
  {
    hide TailLen, ReadHead, MapItems, WalkN;
    var h := it.head;
    if stack > 0 {
      if it.Atom? {
        AtConcat(data, pos, h.Bytes(), it.body);
        WalkHead(h, data, pos, stack);
      } else {
        AtConcat(data, pos, h.Bytes(), EncodeAll(it.kids));
        WalkHead(h, data, pos, stack);
        WalkItems(it.kids, data, pos + |h.Bytes()|, stack - 1);
      }
    }
  }

  /** The walk, told in terms of the head that stands at `pos`. */
  lemma {:induction false} WalkHead(h: Head, data: Bytes, pos: nat, stack: nat)
    requires TailLen(Fdo, h.major, h.info) == Some(|h.tail|) && At(data, pos, h.Bytes()) && stack > 0
    ensures IsNode(h) ==> Walk(data, pos, stack) == WalkN(data, pos + |h.Bytes()|, KidCount(Fdo, h), stack - 1)
    ensures !IsNode(h) && pos + |h.Bytes()| + BodyLen(h) <= |data| ==>
              Walk(data, pos, stack) == Got(pos + |h.Bytes()| + BodyLen(h))
  {
    hide WalkN, ReadHead;
    HeadAt(Fdo, h, data, pos);
    HeadMajor(data, pos);
    assert data[pos] == data[pos..pos + |h.Bytes()|][0];
  }

  lemma {:induction false} WalkItems(items: seq<Item>, data: Bytes, pos: nat, stack: nat)
    requires AllInLang(Fdo, items) && At(data, pos, EncodeAll(items))
    ensures WalkN(data, pos, |items|, stack)
         == if items == [] || MaxHeight(items) < stack then Got(pos + |EncodeAll(items)|) else Crash
    decreases items, 0
  {
    hide Walk, Encode, InLang, Height;
    if items != [] {
      AtConcat(data, pos, Encode(items[0]), EncodeAll(items[1..]));
      WalkItem(items[0], data, pos, stack);
      WalkItems(items[1..], data, pos + |Encode(items[0])|, stack);
    }
  }

  /** Exactly what the decoder skips: a wrap-free walk ends at `e`, inside the
      buffer, if and only if the bytes up to `e` are one item of the decoder's
      language and the stack has room for it. */
  lemma WalkExact(data: Bytes, pos: nat, stack: nat, e: nat)
    requires e <= |data| < TWO63
    ensures WrapFree(data, pos) && Walk(data, pos, stack) == Got(e) <==>
            pos <= e && exists it :: InLang(Fdo, it) && data[pos..e] == Encode(it) && Height(it) < stack
  {
    hide Skip, Walk, WrapFree, InLang, Encode, Height;
    if WrapFree(data, pos) && Walk(data, pos, stack) == Got(e) {
      WalkAgrees(data, pos, stack);
      var it := SkipSound(Fdo, data, pos);
      WalkItem(it, data, pos, stack);
    }
    if pos <= e && exists it :: InLang(Fdo, it) && data[pos..e] == Encode(it) && Height(it) < stack {
      var it :| InLang(Fdo, it) && data[pos..e] == Encode(it) && Height(it) < stack;
      SkipEncoded(Fdo, it, data, pos);
      SkipWrapFree(data, pos);
      WalkItem(it, data, pos, stack);
    }
  }

  /** Portable items, which the other two skippers take as well, are skipped exactly
      whatever stands before and after them. */
  lemma PortableWalk(it: Item, before: Bytes, after: Bytes, stack: nat)
    requires WellFormed(it) && Portable(it)
    ensures Walk(before + Encode(it) + after, |before|, stack)
         == if Height(it) < stack then Got(|before| + |Encode(it)|) else Crash
  {
    PortableInEvery(Fdo, it);
    AtPrefix(before, Encode(it), after);
    WalkItem(it, before + Encode(it) + after, |before|, stack);
  }

  /** A walk that ends inside `h` depends on `h` alone, even if it wraps on the way:
      the same bytes at any place of a larger buffer are walked the same way. */
  lemma {:induction false} WalkLocal(h: Bytes, pos: nat, stack: nat, data: Bytes, base: nat)
    requires At(data, base, h) && |data| < TWO63
    requires Walk(h, pos, stack).Got? && Walk(h, pos, stack).value <= |h|
    ensures Walk(data, base + pos, stack) == Got(base + Walk(h, pos, stack).value)
    decreases stack, 0
  {
    hide ReadHead, TailLen, WalkN;
    assert h[pos] == data[base..base + |h|][pos] == data[base + pos];
    if h[pos] / 32 != 7 {
      HeadLocal(h, pos, data, base);
      ArgBound(h, pos);
      HeadMajor(h, pos);
      var (major, arg, p) := ReadHead(Fdo, h, pos).value;
      if major >= 4 {
        WalkNLocal(h, p, if major == 4 then arg else if major == 5 then 2 * arg else 1, stack - 1, data, base);
      }
    }
  }

  lemma HeadLocal(h: Bytes, pos: nat, data: Bytes, base: nat)
    requires At(data, base, h) && ReadHead(Fdo, h, pos).Some?
    ensures var (major, arg, p) := ReadHead(Fdo, h, pos).value;
            ReadHead(Fdo, data, base + pos) == Some((major, arg, base + p))
  {
    var (major, arg, p) := ReadHead(Fdo, h, pos).value;
    var d := data[base..base + |h|];
    assert forall k :: 0 <= k < |h| ==> h[k] == d[k] == data[base + k];
    assert h[pos + 1..p] == data[base + pos + 1..base + p];
  }

  lemma {:induction false} WalkNLocal(h: Bytes, pos: nat, n: nat, stack: nat, data: Bytes, base: nat)
    requires At(data, base, h) && |data| < TWO63
    requires WalkN(h, pos, n, stack).Got? && WalkN(h, pos, n, stack).value <= |h|
    ensures WalkN(data, base + pos, n, stack) == Got(base + WalkN(h, pos, n, stack).value)
    decreases stack, n + 1
  {
    hide Walk;
    if n > 0 {
      var p := Walk(h, pos, stack).value;
      if n > 1 { WalkInside(h, p, stack); }
      WalkLocal(h, pos, stack, data, base);
      WalkNLocal(h, p, n - 1, stack, data, base);
    }
  }

  lemma WalkInside(h: Bytes, pos: nat, stack: nat)
    requires Walk(h, pos, stack).Got?
    ensures pos < |h| && stack > 0
  {
  }

  /** Bytes that could start a string long enough to wrap. */
  predicate HugeAt(data: Bytes, i: nat) {
    i + 1 < |data| && (data[i] == 0x5b || data[i] == 0x7b) && data[i + 1] == 0xff
  }

  const TWO56: nat := 0x100_0000_0000_0000

  lemma {:induction false} BeFirst(s: Bytes)
    requires s != []
    ensures BeNat(s) < (s[0] as int + 1) * Pow256(|s| - 1)
  {
    if |s| > 1 {
      var init := s[..|s| - 1];
      BeFirst(init);
      var a, p := s[0] as int + 1, Pow256(|s| - 2);
      assert BeNat(s) <= (a * p - 1) * 256 + 255;
      assert (a * p) * 256 == a * (p * 256);
    } else {
      assert BeNat(s[..0]) == 0;
      assert Pow256(0) == 1;
    }
  }

  lemma WrapNeedsHuge(data: Bytes, pos: nat)
    requires |data| < TWO56 && ReadHead(Fdo, data, pos).Some? && 2 <= ReadHead(Fdo, data, pos).value.0 <= 3
    requires ReadHead(Fdo, data, pos).value.2 + ReadHead(Fdo, data, pos).value.1 >= TWO64
    ensures HugeAt(data, pos)
  {
    var (major, arg, p) := ReadHead(Fdo, data, pos).value;
    var t := data[pos + 1..p];
    BeBound(t);
    Pow256Values();
    assert Pow256(0) == 1;
    assert data[pos] % 32 == 27;
    BeFirst(t);
    assert Pow256(7) == TWO56 by { assert Pow256(8) == Pow256(7) * 256; }
    assert t[0] == data[pos + 1];
  }

  /** Without such bytes no walk wraps. */
  lemma {:induction false} NoHugeWrapFree(data: Bytes, pos: nat)
    requires |data| < TWO56 && forall i: nat :: pos <= i ==> !HugeAt(data, i)
    ensures WrapFree(data, pos)
    decreases Left(data, pos), 0, 0
  {
    hide ReadHead, HugeAt;
    var h := ReadHead(Fdo, data, pos);
    if h.Some? {
      var (major, arg, p) := h.value;
      if 2 <= major <= 3 {
        if p + arg >= TWO64 { WrapNeedsHuge(data, pos); }
      } else if 4 <= major <= 6 {
        NoHugeWrapFreeN(data, p, if major == 4 then arg else if major == 5 then 2 * arg else 1);
      }
    }
  }

  lemma {:induction false} NoHugeWrapFreeN(data: Bytes, pos: nat, n: nat)
    requires |data| < TWO56 && forall i: nat :: pos <= i ==> !HugeAt(data, i)
    ensures WrapFreeN(data, pos, n)
    decreases Left(data, pos), 1, n
  {
    hide Skip, WrapFree, HugeAt;
    if n > 0 {
      NoHugeWrapFree(data, pos);
      if Skip(Fdo, data, pos).Some? { NoHugeWrapFreeN(data, Skip(Fdo, data, pos).value, n - 1); }
    }
  }

  /** A guard a caller can check on the bytes alone: nothing in them can start a
      string long enough to wrap, and the stack has room for any nesting. */
  predicate Calm(data: Bytes, stack: nat) {
    |data| < TWO56 && |data| < stack && forall i :: 0 <= i < |data| ==> !HugeAt(data, i)
  }

  /** Calm bytes never crash the decoder, wherever it starts, and it skips them as
      `Skip` does. */
  lemma CalmNeverCrashes(data: Bytes, pos: nat, stack: nat)
    requires Calm(data, stack)
    ensures Walk(data, pos, stack) == Need(Skip(Fdo, data, pos))
    ensures ReadString(data, pos, 2) != Crash && ReadString(data, pos, 3) != Crash
  {
    hide ReadHead, Skip, Walk, WrapFree;
    assert forall i: nat :: !HugeAt(data, i);
    NoHugeWrapFree(data, pos);
    WalkAgrees(data, pos, stack);
    var h := ReadHead(Fdo, data, pos);
    if h.Some? && 2 <= h.value.0 <= 3 && h.value.2 + h.value.1 >= TWO64 { WrapNeedsHuge(data, pos); }
  }

  lemma CalmSpan(data: Bytes, a: nat, b: nat, stack: nat)
    requires Calm(data, stack) && a <= b <= |data|
    ensures Calm(data[a..b], stack)
  {
    forall i | 0 <= i < b - a ensures !HugeAt(data[a..b], i) {
      assert !HugeAt(data, a + i);
    }
  }

  // ---- the condition is needed ----

  /** A string of 2^64 - 1 bytes, of which none is there. */
  const HUGE: Bytes := [0x5b, 0xff, 0xff, 0xff, 0xff, 0xff, 0xff, 0xff, 0xff]

  /** An array whose first element takes the cursor back to the array. */
  const ROUND: Bytes := [0x82, 0x5b, 0xff, 0xff, 0xff, 0xff, 0xff, 0xff, 0xff, 0xf6]

  lemma BeOfOnes(s: Bytes)
    requires forall i :: 0 <= i < |s| ==> s[i] == 0xff
    ensures BeNat(s) == Pow256(|s|) - 1
  {
    if s != [] { BeOfOnes(s[..|s| - 1]); }
  }

  /** Skipping it succeeds, inside the buffer, on bytes that are no item. */
  lemma HugeIsSkipped(stack: nat)
    requires stack > 0
    ensures Walk(HUGE, 0, stack) == Got(8) && ReadString(HUGE, 0, 2) == Crash
    ensures !exists it :: InLang(Fdo, it) && HUGE[0..8] == Encode(it)
    ensures !WrapFree(HUGE, 0)
  {
    hide Skip, InLang, Encode, BeNat;
    var t := HUGE[1..9];
    BeOfOnes(t);
    Pow256Values();
    assert 0x5b / 32 == 2 && 0x5b % 32 == 27;
    assert ReadHead(Fdo, HUGE, 0) == Some((2, TWO64 - 1, 9));
    SkipAfterHead(Fdo, HUGE, 0, 2, TWO64 - 1, 9);
    SkipExact(Fdo, HUGE, 0, 8);
  }

  lemma RoundHeads()
    ensures ReadHead(Fdo, ROUND, 0) == Some((4, 2, 1)) && ReadHead(Fdo, ROUND, 1) == Some((2, TWO64 - 10, 10))
  {
    hide BeNat;
    var t := ROUND[2..10];
    assert t[..7] == ROUND[2..9];
    BeOfOnes(t[..7]);
    BeLast(t);
    Pow256Values();
    assert Pow256(8) == Pow256(7) * 256;
    assert 0x82 / 32 == 4 && 0x82 % 32 == 2 && 0x5b / 32 == 2 && 0x5b % 32 == 27;
  }

  /** No stack is large enough for this one, wherever it stands. */
  lemma {:induction false} RoundNeverEnds(data: Bytes, pos: nat, stack: nat)
    requires At(data, pos, ROUND) && |data| < TWO63
    ensures Walk(data, pos, stack) == Crash
  {
    hide ReadHead;
    RoundHeads();
    HeadLocal(ROUND, 0, data, pos);
    HeadLocal(ROUND, 1, data, pos);
    HeadMajor(data, pos);
    HeadMajor(data, pos + 1);
    if stack > 1 {
      RoundNeverEnds(data, pos, stack - 1);
      assert Walk(data, pos + 1, stack - 1) == Got(pos);
      assert WalkN(data, pos, 1, stack - 1) == Crash;
      assert WalkN(data, pos + 1, 2, stack - 1) == Crash;
    } else if stack == 1 {
      assert WalkN(data, pos + 1, 2, 0) == Crash;
    }
  }

  lemma BeLast(s: Bytes)
    requires s != []
    ensures BeNat(s) == BeNat(s[..|s| - 1]) * 256 + s[|s| - 1]
  {
  }
}
