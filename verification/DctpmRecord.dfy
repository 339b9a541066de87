/**
 The DCTPM credential record and its item 10, DCMinFirmwareRev (dctpm.rs): reading
 it, and replacing or appending it without touching any other item.
 */
module DctpmRecord {
  import opened Base
  import opened Cbor

  type u64 = x: int | 0 <= x < TWO64

  /** Index of DCMinFirmwareRev in the array. */
  const REV_ITEM: nat := 10

  // ---- what the walker guarantees here ----

  lemma ArgBound(d: Dialect, data: Bytes, pos: nat)
    requires ReadHead(d, data, pos).Some?
    ensures ReadHead(d, data, pos).value.1 < TWO64
  {
    var info := data[pos] % 32;
    var k := TailLen(d, data[pos] / 32, info).value;
    BeBound(data[pos + 1..pos + 1 + k]);
    Pow256Values();
    assert Pow256(0) == 1;
  }

  /** This walker never steps outside the buffer. */
  lemma {:induction false} SkipInside(data: Bytes, pos: nat)
    ensures Skip(Dctpm, data, pos).Some? ==> Skip(Dctpm, data, pos).value <= |data|
    decreases Left(data, pos), 0, 0
  {
    var r := ReadHead(Dctpm, data, pos);
    if r.Some? {
      var (major, arg, p) := r.value;
      SkipAfterHead(Dctpm, data, pos, major, arg, p);
      if 4 <= major <= 6 {
        SkipNInside(data, p, if major == 4 then arg else if major == 5 then MapItems(Dctpm, arg) else 1);
      }
    }
  }

  lemma {:induction false} SkipNInside(data: Bytes, pos: nat, n: nat)
    requires pos <= |data|
    ensures SkipN(Dctpm, data, pos, n).Some? ==> SkipN(Dctpm, data, pos, n).value <= |data|
    decreases Left(data, pos), 1, n
  {
    if n != 0 {
      SkipInside(data, pos);
      var r := Skip(Dctpm, data, pos);
      if r.Some? { SkipNInside(data, r.value, n - 1); }
    }
  }

  // ---- the two operations, as functions of the bytes ----

  /** DCMinFirmwareRev of a record; a ten-item record has the value 0. */
  function RevOf(dctpm: Bytes): Option<nat> {
    var (major, n, p) :- ReadHead(Dctpm, dctpm, 0);
    if major != 4 || n < 10 then None
    else if n <= REV_ITEM then Some(0)
    else
      var q :- SkipN(Dctpm, dctpm, p, REV_ITEM);
      var (m, v, _) :- ReadHead(Dctpm, dctpm, q);
      if m == 0 then Some(v) else None
  }

  /** The spans a record falls into: the number of items, the first ten items,
      and whatever follows item 10. */
  datatype Spans = Spans(count: u64, firstTen: Bytes, rest: Bytes)

  function SpansOf(dctpm: Bytes): Option<Spans> {
    var (major, n, p) :- ReadHead(Dctpm, dctpm, 0);
    if major != 4 || n < 10 then None
    else
      ArgBound(Dctpm, dctpm, 0);
      var q :- SkipN(Dctpm, dctpm, p, REV_ITEM);
      SkipNInside(dctpm, p, REV_ITEM);
      if n <= REV_ITEM then Some(Spans(n, dctpm[p..q], []))
      else
        var s :- Skip(Dctpm, dctpm, q);
        SkipInside(dctpm, q);
        var e :- SkipN(Dctpm, dctpm, s, n - REV_ITEM - 1);
        SkipNInside(dctpm, s, n - REV_ITEM - 1);
        Some(Spans(n, dctpm[p..q], dctpm[s..e]))
  }

  function EncodeUint(v: u64): Bytes { HeadFor(0, v).Bytes() }

  function WithRev(dctpm: Bytes, rev: u64): Option<Bytes> {
    var s :- SpansOf(dctpm);
    Some(HeadFor(4, Max(s.count, REV_ITEM + 1)).Bytes() + s.firstTen + EncodeUint(rev) + s.rest)
  }

  // ---- the same operations as the source runs them ----

  /** `dctpm::skip`. */
  method SkipItem(data: Bytes, pos: nat) returns (r: Option<nat>)
    ensures r == Skip(Dctpm, data, pos)
    decreases Left(data, pos), 0
  {
    var h := ReadHead(Dctpm, data, pos);
    if h.None? { return None; }
    var (major, arg, p) := h.value;
    SkipAfterHead(Dctpm, data, pos, major, arg, p);
    if major < 2 || major == 7 {
      return Some(p);
    } else if major < 4 {
      return if p + arg > |data| then None else Some(p + arg);
    } else if major == 6 {
      r := SkipItem(data, p);
    } else {
      r := SkipItems(data, p, if major == 4 then arg else 2 * arg % TWO64);
    }
  }

  method SkipItems(data: Bytes, pos: nat, n: nat) returns (r: Option<nat>)
    ensures r == SkipN(Dctpm, data, pos, n)
    decreases Left(data, pos), 1
  {
    hide Skip;
    var p, i := pos, 0;
    while i < n
      invariant i <= n && pos <= p
      invariant SkipN(Dctpm, data, pos, n) == SkipN(Dctpm, data, p, n - i)
    {
      r := SkipItem(data, p);
      if r.None? { return; }
      p, i := r.value, i + 1;
    }
    return Some(p);
  }

  method MinFirmwareRev(dctpm: Bytes) returns (r: Option<nat>)
    ensures r == RevOf(dctpm)
  {
    hide Skip, SkipN, ReadHead;
    var h := ReadHead(Dctpm, dctpm, 0);
    if h.None? || h.value.0 != 4 || h.value.1 < 10 { return None; }
    if h.value.1 <= REV_ITEM { return Some(0); }
    var q := SkipItems(dctpm, h.value.2, REV_ITEM);
    if q.None? { return None; }
    h := ReadHead(Dctpm, dctpm, q.value);
    return if h.Some? && h.value.0 == 0 then Some(h.value.1) else None;
  }

  method WithMinFirmwareRev(dctpm: Bytes, rev: u64) returns (r: Option<Bytes>)
    ensures r == WithRev(dctpm, rev)
  {
    hide Skip, SkipN, ReadHead, HeadFor;
    var h := ReadHead(Dctpm, dctpm, 0);
    if h.None? || h.value.0 != 4 || h.value.1 < 10 { return None; }
    ArgBound(Dctpm, dctpm, 0);
    var n, start := h.value.1, h.value.2;
    var q := SkipItems(dctpm, start, REV_ITEM);
    if q.None? { return None; }
    SkipNInside(dctpm, start, REV_ITEM);
    var rest: Bytes := [];
    if n > REV_ITEM {
      var s := SkipItem(dctpm, q.value);
      if s.None? { return None; }
      SkipInside(dctpm, q.value);
      var e := SkipItems(dctpm, s.value, n - REV_ITEM - 1);
      if e.None? { return None; }
      SkipNInside(dctpm, s.value, n - REV_ITEM - 1);
      rest := dctpm[s.value..e.value];
    }
    var out := HeadFor(4, Max(n, REV_ITEM + 1)).Bytes();
    out := out + dctpm[start..q.value];
    out := out + EncodeUint(rev);
    out := out + rest;
    return Some(out);
  }

  // ---- what they mean: a sequence of items with item 10 replaced ----

  /** `d` begins with an array of ten or more items, here `items`, under head `h`. */
  ghost predicate IsRecord(d: Bytes, h: Head, items: seq<Item>) {
    && h.major == 4 && TailLen(Dctpm, 4, h.info) == Some(|h.tail|) && h.Arg() == |items|
    && |items| >= 10 && AllInLang(Dctpm, items)
    && At(d, 0, h.Bytes() + EncodeAll(items))
  }

  function UintItem(v: u64): Item { Atom(HeadFor(0, v), []) }

  function SetRev(items: seq<Item>, rev: u64): seq<Item>
    requires |items| >= 10
  {
    items[..10] + [UintItem(rev)] + (if |items| > 10 then items[11..] else [])
  }

  lemma {:induction false} EncodeAllConcat(a: seq<Item>, b: seq<Item>)
    ensures EncodeAll(a + b) == EncodeAll(a) + EncodeAll(b)
    decreases |a|
  {
    hide Encode;
    if a == [] {
      assert a + b == b;
    } else {
      assert (a + b)[1..] == a[1..] + b;
      EncodeAllConcat(a[1..], b);
    }
  }

  lemma EncodeOne(it: Item)
    ensures EncodeAll([it]) == Encode(it)
  {
    assert EncodeAll([it][1..]) == [];
  }

  lemma RecordSpans(d: Bytes, h: Head, items: seq<Item>)
    requires IsRecord(d, h, items) && |items| < TWO64
    ensures ReadHead(Dctpm, d, 0) == Some((4, |items|, |h.Bytes()|))
    ensures var q := |h.Bytes()| + |EncodeAll(items[..10])|;
            && SkipN(Dctpm, d, |h.Bytes()|, 10) == Some(q)
            && (|items| > 10 ==> At(d, q, Encode(items[10])))
            && SpansOf(d) == Some(Spans(|items|, EncodeAll(items[..10]),
                                        if |items| > 10 then EncodeAll(items[11..]) else []))
  {
    hide Skip, SkipN, Encode, EncodeAll, InLang, ReadHead, TailLen;
    var p := |h.Bytes()|;
    AtConcat(d, 0, h.Bytes(), EncodeAll(items));
    HeadAt(Dctpm, h, d, 0);
    assert items == items[..10] + items[10..];
    EncodeAllConcat(items[..10], items[10..]);
    AtConcat(d, p, EncodeAll(items[..10]), EncodeAll(items[10..]));
    assert AllInLang(Dctpm, items[..10]);
    SkipNEncoded(Dctpm, items[..10], d, p);
    var q := p + |EncodeAll(items[..10])|;
    if |items| > 10 {
      assert items[10..] == [items[10]] + items[11..];
      EncodeAllConcat([items[10]], items[11..]);
      EncodeOne(items[10]);
      AtConcat(d, q, Encode(items[10]), EncodeAll(items[11..]));
      SkipEncoded(Dctpm, items[10], d, q);
      assert AllInLang(Dctpm, items[11..]);
      SkipNEncoded(Dctpm, items[11..], d, q + |Encode(items[10])|);
    }
  }

  lemma RecordSound(d: Bytes) returns (h: Head, items: seq<Item>)
    requires SpansOf(d).Some?
    ensures IsRecord(d, h, items) && |items| < TWO64
  {
    hide Encode, EncodeAll, InLang, Skip, SkipN;
    var (major, n, p) := ReadHead(Dctpm, d, 0).value;
    ArgBound(Dctpm, d, 0);
    h := Head(4, d[0] % 32, d[1..p]);
    assert h.Bytes() == d[0..p];
    SkipNAdd(Dctpm, d, p, 10, n - 10);
    var q := SkipN(Dctpm, d, p, 10).value;
    SkipNTail(d, q, n - 10);
    SkipNInside(d, p, n);
    items := SkipNSound(Dctpm, d, p, n);
    AtConcat(d, 0, h.Bytes(), EncodeAll(items));
  }

  lemma SkipNTail(d: Bytes, q: nat, k: nat)
    requires k > 0 ==> Skip(Dctpm, d, q).Some? && SkipN(Dctpm, d, Skip(Dctpm, d, q).value, k - 1).Some?
    ensures SkipN(Dctpm, d, q, k).Some?
  {
  }

  /** What is read from a record: item 10 if it is an unsigned integer, and 0 from a
      ten-item record. Bytes that start with no array of ten or more are none. */
  lemma RevMeaning(d: Bytes)
    ensures forall h, items: seq<Item> :: |items| < TWO64 && IsRecord(d, h, items) ==>
              RevOf(d) == if |items| == 10 then Some(0)
                          else if items[10].head.major == 0 then Some(items[10].head.Arg()) else None
    ensures RevOf(d).Some? ==> exists h, n: nat :: n >= 10 && HeadOf(Dctpm, h, 4, n) && At(d, 0, h.Bytes())
  {
    hide Encode, EncodeAll, InLang, Skip, SkipN, ReadHead;
    forall h, items: seq<Item> | |items| < TWO64 && IsRecord(d, h, items)
      ensures RevOf(d) == if |items| == 10 then Some(0)
                          else if items[10].head.major == 0 then Some(items[10].head.Arg()) else None
    {
      RecordSpans(d, h, items);
      if |items| > 10 { ItemHeadAt(d, |h.Bytes()| + |EncodeAll(items[..10])|, items[10]); }
    }
    if RevOf(d).Some? {
      var (major, n, p) := ReadHead(Dctpm, d, 0).value;
      ReadHeadExact(Dctpm, d, 0, 4, n, p);
    }
  }

  lemma ItemHeadAt(d: Bytes, pos: nat, it: Item)
    requires InLang(Dctpm, it) && At(d, pos, Encode(it))
    ensures ReadHead(Dctpm, d, pos) == Some((it.head.major, it.head.Arg(), pos + |it.head.Bytes()|))
  {
    hide ReadHead, EncodeAll;
    AtConcat(d, pos, it.head.Bytes(), if it.Atom? then it.body else EncodeAll(it.kids));
    HeadAt(Dctpm, it.head, d, pos);
  }

  /** A record can be updated exactly when it starts with a complete array of ten
      or more items, and the update is the array with item 10 replaced (or
      appended) and every other item's bytes kept. */
  lemma WithRevMeaning(d: Bytes, rev: u64)
    ensures WithRev(d, rev).Some? <==> exists h, items :: |items| < TWO64 && IsRecord(d, h, items)
    ensures forall h, items: seq<Item> :: |items| < TWO64 && IsRecord(d, h, items) ==>
              && |SetRev(items, rev)| < TWO64
              && WithRev(d, rev) == Some(Encode(Node(HeadFor(4, |SetRev(items, rev)|), SetRev(items, rev))))
  {
    hide Encode, EncodeAll, InLang, Skip, SkipN, HeadFor;
    if WithRev(d, rev).Some? {
      var h, items := RecordSound(d);
    }
    forall h, items: seq<Item> | |items| < TWO64 && IsRecord(d, h, items)
      ensures |SetRev(items, rev)| < TWO64
           && WithRev(d, rev) == Some(Encode(Node(HeadFor(4, |SetRev(items, rev)|), SetRev(items, rev))))
    {
      RecordSpans(d, h, items);
      SetRevEncoding(items, rev);
    }
  }

  lemma SetRevEncoding(items: seq<Item>, rev: u64)
    requires 10 <= |items| < TWO64
    ensures |SetRev(items, rev)| == Max(|items|, 11) < TWO64
    ensures Encode(Node(HeadFor(4, |SetRev(items, rev)|), SetRev(items, rev)))
         == HeadFor(4, Max(|items|, 11)).Bytes() + EncodeAll(items[..10]) + EncodeUint(rev)
            + (if |items| > 10 then EncodeAll(items[11..]) else [])
  {
    hide EncodeAll, HeadFor;
    var rest := if |items| > 10 then items[11..] else [];
    assert |SetRev(items, rev)| == Max(|items|, 11);
    assert SetRev(items, rev) == items[..10] + ([UintItem(rev)] + rest);
    EncodeAllConcat(items[..10], [UintItem(rev)] + rest);
    EncodeAllConcat([UintItem(rev)], rest);
    EncodeOne(UintItem(rev));
    assert Encode(UintItem(rev)) == EncodeUint(rev) + [] == EncodeUint(rev);
    EncodeNone();
    var out := HeadFor(4, Max(|items|, 11)).Bytes();
    assert out + (EncodeAll(items[..10]) + (EncodeUint(rev) + EncodeAll(rest)))
        == out + EncodeAll(items[..10]) + EncodeUint(rev) + EncodeAll(rest);
  }

  lemma EncodeNone() ensures EncodeAll([]) == [] { }

  /** The updated bytes, with anything after them, are again such a record. */
  lemma UpdatedIsRecord(d: Bytes, rev: u64, after: Bytes) returns (h: Head, items: seq<Item>)
    requires WithRev(d, rev).Some?
    ensures |items| < TWO64 && |items| >= 10 && IsRecord(d, h, items)
    ensures |SetRev(items, rev)| < TWO64
    ensures IsRecord(WithRev(d, rev).value + after, HeadFor(4, |SetRev(items, rev)|), SetRev(items, rev))
  {
    hide EncodeAll, HeadFor, Skip, SkipN, ReadHead, TailLen;
    h, items := RecordSound(d);
    WithRevMeaning(d, rev);
    var items' := SetRev(items, rev);
    HeadForArg(4, |items'|);
    UintInLang(rev);
    forall i | 0 <= i < |items'| ensures InLang(Dctpm, items'[i]) {
      if i < 10 { assert items'[i] == items[i]; }
      else if i > 10 { assert items'[i] == items[i]; }
    }
    var u := HeadFor(4, |items'|).Bytes() + EncodeAll(items');
    assert WithRev(d, rev).value == u;
    assert [] + u + after == u + after;
    AtPrefix([], u, after);
  }

  lemma UintInLang(rev: u64)
    ensures InLang(Dctpm, UintItem(rev)) && UintItem(rev).head.Arg() == rev
    ensures UintItem(rev).head.major == 0
  {
    HeadForArg(0, rev);
  }

  /** Reading back what was written, whatever index bytes follow. */
  lemma ReadBack(d: Bytes, rev: u64, after: Bytes)
    requires WithRev(d, rev).Some?
    ensures RevOf(WithRev(d, rev).value + after) == Some(rev)
  {
    hide EncodeAll, HeadFor, Skip, SkipN, ReadHead, IsRecord, WithRev;
    var h, items := UpdatedIsRecord(d, rev, after);
    var u := WithRev(d, rev).value + after;
    var items' := SetRev(items, rev);
    RecordSpans(u, HeadFor(4, |items'|), items');
    assert items'[10] == UintItem(rev);
    var q := SkipN(Dctpm, u, |HeadFor(4, |items'|).Bytes()|, 10).value;
    UintAt(u, q, rev);
  }

  lemma UintAt(u: Bytes, q: nat, rev: u64)
    requires At(u, q, Encode(UintItem(rev)))
    ensures ReadHead(Dctpm, u, q).Some?
    ensures ReadHead(Dctpm, u, q).value.0 == 0 && ReadHead(Dctpm, u, q).value.1 == rev
  {
    hide ReadHead, HeadFor;
    assert Encode(UintItem(rev)) == HeadFor(0, rev).Bytes() + [] == HeadFor(0, rev).Bytes();
    HeadForAt(Dctpm, 0, rev, u, q);
  }

  /** Every item but item 10 keeps its bytes, and nothing is added or dropped
      (apart from the appended item 10 of a ten-item record). */
  lemma OtherItemsKept(d: Bytes, rev: u64, after: Bytes)
    requires WithRev(d, rev).Some?
    ensures SpansOf(WithRev(d, rev).value + after)
         == Some(SpansOf(d).value.(count := Max(SpansOf(d).value.count, REV_ITEM + 1)))
  {
    hide EncodeAll, HeadFor, Skip, SkipN, ReadHead, IsRecord, WithRev, SpansOf;
    var h, items := UpdatedIsRecord(d, rev, after);
    var items' := SetRev(items, rev);
    RecordSpans(d, h, items);
    RecordSpans(WithRev(d, rev).value + after, HeadFor(4, |items'|), items');
    assert items'[..10] == items[..10];
    EncodeNone();
    if |items| > 10 { assert items'[11..] == items[11..]; } else { assert items'[11..] == []; }
  }

  /** A second update overwrites the first exactly. */
  lemma LastUpdateWins(d: Bytes, r1: u64, after: Bytes, r2: u64)
    requires WithRev(d, r1).Some?
    ensures WithRev(WithRev(d, r1).value + after, r2) == WithRev(d, r2)
  {
    hide SpansOf;
    OtherItemsKept(d, r1, after);
  }
}
