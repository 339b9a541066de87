/**
 CBOR data items (RFC 8949) and the three hand-written skippers of the client:
 `cose::cbor_skip`, `CborDecoder::skip_value` and `dctpm::skip`.

 The three walk the same shape but differ in detail: which argument widths they
 read, how many bytes they take for a major type 7 item, and whether they check
 that a string or a float payload lies inside the buffer. `Dialect` names the
 walker; `InLang` is the grammar each one really accepts.

 Positions are unbounded here. For `Fdo` that is an idealisation, because the
 cursor of `skip_value` can wrap and its recursion need not end: module Cursor has
 the walk as it is and says when it is the `Skip` of this module.

 A head byte `b` is written `major * 32 + info`, so `b >> 5` is `b / 32` and
 `b & 0x1f` is `b % 32`.
 */
module Cbor {
  import opened Base

  datatype Dialect = Cose | Fdo | Dctpm

  type Major = x: int | 0 <= x < 8
  type Info = x: int | 0 <= x < 32

  /** Bytes that follow the head byte, or None where the walker gives up. */
  function TailLen(d: Dialect, major: Major, info: Info): Option<nat> {
    if major == 7 && d == Cose then
      Some(if info == 24 then 1 else if info == 25 then 2 else if info == 26 then 4 else if info == 27 then 8 else 0)
    else if major == 7 && d == Fdo then
      Some(if info == 25 then 2 else if info == 26 then 4 else if info == 27 then 8 else 0)
    else if info < 24 then Some(0)
    else if info == 24 then Some(1)
    else if info == 25 then Some(2)
    else if info == 26 then Some(4)
    else if info == 27 && d != Cose then Some(8)
    else None
  }

  function ArgOf(info: Info, tail: Bytes): nat {
    if info < 24 then info else BeNat(tail)
  }

  /** Items in a map of `arg` pairs; `dctpm::skip` doubles a u64, which wraps. */
  function MapItems(d: Dialect, arg: nat): nat {
    if d == Dctpm then 2 * arg % TWO64 else 2 * arg
  }

  /** Read a head whose argument lies inside `data`: (major, argument, next position). */
  function ReadHead(d: Dialect, data: Bytes, pos: nat): (r: Option<(Major, nat, nat)>)
    ensures r.Some? ==> pos < r.value.2 <= |data|
  {
    if pos >= |data| then None else
      var major, info := data[pos] / 32, data[pos] % 32;
      var k :- TailLen(d, major, info);
      if pos + 1 + k > |data| then None
      else Some((major, ArgOf(info, data[pos + 1..pos + 1 + k]), pos + 1 + k))
  }

  ghost function Left(data: Bytes, pos: nat): nat {
    if pos < |data| then |data| - pos else 0
  }

  /** Position after one item. It may lie beyond the end of `data` where the
      walker steps over a payload it never looks at. */
  function Skip(d: Dialect, data: Bytes, pos: nat): (r: Option<nat>)
    ensures r.Some? ==> pos < |data| && pos < r.value
    decreases Left(data, pos), 0, 0
  {
    if pos >= |data| then None
    else if data[pos] / 32 == 7 && d != Dctpm then
      Some(pos + 1 + TailLen(d, 7, data[pos] % 32).value)
    else
      var (major, arg, p) :- ReadHead(d, data, pos);
      if major == 2 || major == 3 then
        if d != Fdo && p + arg > |data| then None else Some(p + arg)
      else if major == 4 then SkipN(d, data, p, arg)
      else if major == 5 then SkipN(d, data, p, MapItems(d, arg))
      else if major == 6 then Skip(d, data, p)
      else Some(p)
  }

  /** Position after `n` consecutive items. */
  function SkipN(d: Dialect, data: Bytes, pos: nat, n: nat): (r: Option<nat>)
    ensures r.Some? ==> pos <= r.value
    decreases Left(data, pos), 1, n
  {
    if n == 0 then Some(pos)
    else
      var p :- Skip(d, data, pos);
      SkipN(d, data, p, n - 1)
  }

  // ---- the grammar ----

  datatype Head = Head(major: Major, info: Info, tail: Bytes) {
    function Arg(): nat { ArgOf(info, tail) }
    function Bytes(): Bytes { [major * 32 + info] + tail }
  }

  /** Items below a head of a container or a tag. */
  function KidCount(d: Dialect, h: Head): nat {
    if h.major == 4 then h.Arg() else if h.major == 5 then MapItems(d, h.Arg()) else 1
  }

  predicate IsNode(h: Head) { 4 <= h.major <= 6 }

  function BodyLen(h: Head): nat {
    if h.major == 2 || h.major == 3 then h.Arg() else 0
  }

  datatype Item = Atom(head: Head, body: Bytes) | Node(head: Head, kids: seq<Item>)

  /** Definite-length items as walker `d` understands them. */
  ghost predicate InLang(d: Dialect, it: Item)
    decreases it, 1
  {
    var h := it.head;
    TailLen(d, h.major, h.info) == Some(|h.tail|) &&
    match it
    case Atom(_, body) => !IsNode(h) && |body| == BodyLen(h)
    case Node(_, kids) => IsNode(h) && |kids| == KidCount(d, h) && AllInLang(d, kids)
  }

  ghost predicate AllInLang(d: Dialect, items: seq<Item>)
    decreases items, 0
  {
    forall i :: 0 <= i < |items| ==> InLang(d, items[i])
  }

  function Encode(it: Item): Bytes
    decreases it, 1
  {
    match it
    case Atom(h, body) => h.Bytes() + body
    case Node(h, kids) => h.Bytes() + EncodeAll(kids)
  }

  function EncodeAll(items: seq<Item>): Bytes
    decreases items, 0
  {
    if items == [] then [] else Encode(items[0]) + EncodeAll(items[1..])
  }

  // ---- every item of the language is skipped exactly ----

  lemma {:induction false} HeadAt(d: Dialect, h: Head, data: Bytes, pos: nat)
    requires TailLen(d, h.major, h.info) == Some(|h.tail|)
    requires At(data, pos, h.Bytes())
    ensures ReadHead(d, data, pos) == Some((h.major, h.Arg(), pos + 1 + |h.tail|))
  {
    AtConcat(data, pos, [h.major * 32 + h.info], h.tail);
    assert data[pos] == data[pos..pos + 1][0] == h.major * 32 + h.info;
    assert data[pos] / 32 == h.major && data[pos] % 32 == h.info;
  }

  /** `h` is a head walker `d` reads, of this major type and argument. */
  predicate HeadOf(d: Dialect, h: Head, major: Major, arg: nat) {
    h.major == major && TailLen(d, major, h.info) == Some(|h.tail|) && h.Arg() == arg
  }

  /** A head is read at `pos` exactly when one stands there. */
  lemma {:induction false} ReadHeadExact(d: Dialect, data: Bytes, pos: nat, major: Major, arg: nat, p: nat)
    ensures ReadHead(d, data, pos) == Some((major, arg, p)) <==>
            exists h :: HeadOf(d, h, major, arg) && At(data, pos, h.Bytes()) && p == pos + |h.Bytes()|
  {
    if ReadHead(d, data, pos) == Some((major, arg, p)) {
      var h := Head(major, data[pos] % 32, data[pos + 1..p]);
      assert h.Bytes() == data[pos..p];
      assert HeadOf(d, h, major, arg);
    }
    forall h | HeadOf(d, h, major, arg) && At(data, pos, h.Bytes()) && p == pos + |h.Bytes()|
      ensures ReadHead(d, data, pos) == Some((major, arg, p))
    {
      HeadAt(d, h, data, pos);
    }
  }

  /** What `Skip` does once the head has been read. */
  lemma {:induction false} SkipAfterHead(d: Dialect, data: Bytes, pos: nat, major: Major, arg: nat, p: nat)
    requires ReadHead(d, data, pos) == Some((major, arg, p))
    ensures major < 2 || major == 7 ==> Skip(d, data, pos) == Some(p)
    ensures major == 2 || major == 3 ==>
              Skip(d, data, pos) == if d != Fdo && p + arg > |data| then None else Some(p + arg)
    ensures major == 4 ==> Skip(d, data, pos) == SkipN(d, data, p, arg)
    ensures major == 5 ==> Skip(d, data, pos) == SkipN(d, data, p, MapItems(d, arg))
    ensures major == 6 ==> Skip(d, data, pos) == Skip(d, data, p) == SkipN(d, data, p, 1)
  {
    if major == 6 && Skip(d, data, p).Some? {
      assert SkipN(d, data, Skip(d, data, p).value, 0) == Skip(d, data, p);
    }
  }

  /** Skipping, told in terms of the head that stands at `pos`. */
  lemma {:induction false} SkipHead(d: Dialect, h: Head, data: Bytes, pos: nat)
    requires TailLen(d, h.major, h.info) == Some(|h.tail|) && At(data, pos, h.Bytes())
    ensures IsNode(h) ==> Skip(d, data, pos) == SkipN(d, data, pos + |h.Bytes()|, KidCount(d, h))
    ensures !IsNode(h) && pos + |h.Bytes()| + BodyLen(h) <= |data| ==>
              Skip(d, data, pos) == Some(pos + |h.Bytes()| + BodyLen(h))
  {
    HeadAt(d, h, data, pos);
    SkipAfterHead(d, data, pos, h.major, h.Arg(), pos + 1 + |h.tail|);
  }

  lemma {:induction false} SkipEncoded(d: Dialect, it: Item, data: Bytes, pos: nat)
    requires InLang(d, it) && At(data, pos, Encode(it))
    ensures Skip(d, data, pos) == Some(pos + |Encode(it)|)
    decreases it, 1
  {
    hide Skip, SkipN, TailLen, ReadHead, MapItems;
    var h := it.head;
    if it.Atom? {
      AtConcat(data, pos, h.Bytes(), it.body);
      SkipHead(d, h, data, pos);
    } else {
      AtConcat(data, pos, h.Bytes(), EncodeAll(it.kids));
      SkipHead(d, h, data, pos);
      SkipNEncoded(d, it.kids, data, pos + |h.Bytes()|);
    }
  }

  lemma {:induction false} SkipNEncoded(d: Dialect, items: seq<Item>, data: Bytes, pos: nat)
    requires AllInLang(d, items)
    requires At(data, pos, EncodeAll(items))
    ensures SkipN(d, data, pos, |items|) == Some(pos + |EncodeAll(items)|)
    decreases items, 0
  {
    hide Skip, Encode, InLang;
    if items != [] {
      AtConcat(data, pos, Encode(items[0]), EncodeAll(items[1..]));
      SkipEncoded(d, items[0], data, pos);
      SkipNEncoded(d, items[1..], data, pos + |Encode(items[0])|);
    }
  }

  // ---- whatever is skipped inside the buffer is an item of the language ----

  /** The head a walker has read, rebuilt from the bytes it covers. */
  lemma {:induction false} HeadSound(d: Dialect, data: Bytes, pos: nat) returns (h: Head)
    requires Skip(d, data, pos).Some? && Skip(d, data, pos).value <= |data|
    ensures TailLen(d, h.major, h.info) == Some(|h.tail|)
    ensures At(data, pos, h.Bytes())
    ensures !IsNode(h) ==> pos + |h.Bytes()| + BodyLen(h) <= |data|
  {
    var major, info := data[pos] / 32, data[pos] % 32;
    assert TailLen(d, major, info).Some?;
    var p := pos + 1 + TailLen(d, major, info).value;
    assert p <= |data|;
    h := Head(major, info, data[pos + 1..p]);
    assert h.Bytes() == data[pos..p];
  }

  lemma MadeAtom(d: Dialect, h: Head, body: Bytes)
    requires TailLen(d, h.major, h.info) == Some(|h.tail|) && !IsNode(h) && |body| == BodyLen(h)
    ensures InLang(d, Atom(h, body)) && Encode(Atom(h, body)) == h.Bytes() + body
  {
  }

  lemma MadeNode(d: Dialect, h: Head, kids: seq<Item>)
    requires TailLen(d, h.major, h.info) == Some(|h.tail|) && IsNode(h)
    requires |kids| == KidCount(d, h) && AllInLang(d, kids)
    ensures InLang(d, Node(h, kids)) && Encode(Node(h, kids)) == h.Bytes() + EncodeAll(kids)
  {
  }

  lemma {:induction false} SkipSound(d: Dialect, data: Bytes, pos: nat) returns (it: Item)
    requires Skip(d, data, pos).Some? && Skip(d, data, pos).value <= |data|
    ensures InLang(d, it) && At(data, pos, Encode(it))
    ensures Skip(d, data, pos) == Some(pos + |Encode(it)|)
    decreases Left(data, pos), 0, 0
  {
    hide Skip, SkipN, TailLen, ReadHead, MapItems, InLang, Encode, EncodeAll, AllInLang;
    var h := HeadSound(d, data, pos);
    var p := pos + |h.Bytes()|;
    SkipHead(d, h, data, pos);
    if IsNode(h) {
      var kids := SkipNSound(d, data, p, KidCount(d, h));
      MadeNode(d, h, kids);
      it := Node(h, kids);
      AtConcat(data, pos, h.Bytes(), EncodeAll(kids));
    } else {
      var body := data[p..p + BodyLen(h)];
      MadeAtom(d, h, body);
      it := Atom(h, body);
      AtConcat(data, pos, h.Bytes(), body);
    }
  }

  lemma {:induction false} SkipNSound(d: Dialect, data: Bytes, pos: nat, n: nat) returns (items: seq<Item>)
    requires pos <= |data|
    requires SkipN(d, data, pos, n).Some? && SkipN(d, data, pos, n).value <= |data|
    ensures |items| == n && AllInLang(d, items)
    ensures At(data, pos, EncodeAll(items))
    ensures SkipN(d, data, pos, n) == Some(pos + |EncodeAll(items)|)
    decreases Left(data, pos), 1, n
  {
    hide Encode, InLang;
    if n == 0 {
      items := [];
    } else {
      var it := SkipSound(d, data, pos);
      var rest := SkipNSound(d, data, pos + |Encode(it)|, n - 1);
      items := [it] + rest;
      assert items[1..] == rest;
      AtConcat(data, pos, Encode(it), EncodeAll(rest));
    }
  }

  /** A walker stops at `e`, inside the buffer, exactly when the bytes from `pos`
      to `e` are one item of its language. (For the TO2 decoder with its real cursor
      see Cursor.WalkExact.) */
  lemma SkipExact(d: Dialect, data: Bytes, pos: nat, e: nat)
    requires e <= |data|
    ensures Skip(d, data, pos) == Some(e) <==>
            pos <= e && exists it :: InLang(d, it) && data[pos..e] == Encode(it)
  {
    if Skip(d, data, pos) == Some(e) {
      var it := SkipSound(d, data, pos);
      assert data[pos..e] == Encode(it);
    }
    if pos <= e && exists it :: InLang(d, it) && data[pos..e] == Encode(it) {
      var it :| InLang(d, it) && data[pos..e] == Encode(it);
      SkipEncoded(d, it, data, pos);
    }
  }

  lemma SkipNExact(d: Dialect, data: Bytes, pos: nat, n: nat, e: nat)
    requires pos <= |data| && e <= |data|
    ensures SkipN(d, data, pos, n) == Some(e) <==>
            pos <= e && exists s :: |s| == n && AllInLang(d, s) && data[pos..e] == EncodeAll(s)
  {
    if SkipN(d, data, pos, n) == Some(e) {
      var s := SkipNSound(d, data, pos, n);
      assert data[pos..e] == EncodeAll(s);
    }
    if pos <= e && exists s :: |s| == n && AllInLang(d, s) && data[pos..e] == EncodeAll(s) {
      var s :| |s| == n && AllInLang(d, s) && data[pos..e] == EncodeAll(s);
      SkipNEncoded(d, s, data, pos);
    }
  }

  /** Skipping depends on nothing but the bytes consumed: the same bytes between
      any other neighbours, at any other offset, are skipped the same way. */
  lemma SkipNLocal(d: Dialect, data: Bytes, pos: nat, n: nat, data': Bytes, pos': nat)
    requires pos <= |data|
    requires SkipN(d, data, pos, n).Some? && SkipN(d, data, pos, n).value <= |data|
    requires At(data', pos', data[pos..SkipN(d, data, pos, n).value])
    ensures SkipN(d, data', pos', n) == Some(pos' + SkipN(d, data, pos, n).value - pos)
  {
    var s := SkipNSound(d, data, pos, n);
    SkipNEncoded(d, s, data', pos');
  }

  lemma SkipNAdd(d: Dialect, data: Bytes, pos: nat, m: nat, n: nat)
    ensures SkipN(d, data, pos, m + n) ==
            (var r := SkipN(d, data, pos, m); if r.None? then None else SkipN(d, data, r.value, n))
    decreases m
  {
    if m != 0 {
      var r := Skip(d, data, pos);
      if r.Some? { SkipNAdd(d, data, r.value, m - 1, n); }
    }
  }

  // ---- the items all three walkers agree on ----

  /** Well-formed definite-length items of RFC 8949 section 3, in any (not only
      the shortest) argument width. */
  ghost predicate WellFormed(it: Item)
    decreases it
  {
    var h := it.head;
    && h.info <= 27
    && |h.tail| == (if h.info < 24 then 0 else if h.info == 24 then 1 else if h.info == 25 then 2
                    else if h.info == 26 then 4 else 8)
    && match it
       case Atom(_, body) => !IsNode(h) && |body| == BodyLen(h)
       case Node(_, kids) =>
         && IsNode(h)
         && |kids| == (if h.major == 4 then h.Arg() else if h.major == 5 then 2 * h.Arg() else 1)
         && forall i :: 0 <= i < |kids| ==> WellFormed(kids[i])
  }

  /** No eight-byte argument (outside floats) and no two-byte simple value. */
  ghost predicate Portable(it: Item)
    decreases it
  {
    && (it.head.major == 7 ==> it.head.info != 24)
    && (it.head.major != 7 ==> it.head.info <= 26)
    && (it.Node? ==> forall i :: 0 <= i < |it.kids| ==> Portable(it.kids[i]))
  }

  lemma {:induction false} PortableInEvery(d: Dialect, it: Item)
    requires WellFormed(it) && Portable(it)
    ensures InLang(d, it)
    decreases it
  {
    if it.Node? {
      forall i | 0 <= i < |it.kids| ensures InLang(d, it.kids[i]) { PortableInEvery(d, it.kids[i]); }
      BeBound(it.head.tail);
      Pow256Values();
    }
  }

  /** Each of the three walkers stops exactly at the end of a portable item,
      whatever stands before and after it. */
  lemma WalkersAgree(d: Dialect, it: Item, before: Bytes, after: Bytes)
    requires WellFormed(it) && Portable(it)
    ensures Skip(d, before + Encode(it) + after, |before|) == Some(|before| + |Encode(it)|)
  {
    PortableInEvery(d, it);
    AtPrefix(before, Encode(it), after);
    SkipEncoded(d, it, before + Encode(it) + after, |before|);
  }

  /** The restriction is needed: on a two-byte simple value the decoder used for
      TO2 payloads stops one byte early, and the COSE walker gives up on an
      eight-byte argument. */
  lemma WalkersDiffer()
    ensures Skip(Cose, [0xf8, 0x20], 0) == Skip(Dctpm, [0xf8, 0x20], 0) == Some(2)
    ensures Skip(Fdo, [0xf8, 0x20], 0) == Some(1)
    ensures Skip(Cose, [0x1b, 0, 0, 0, 0, 0, 0, 0, 1], 0) == None
    ensures Skip(Dctpm, [0x1b, 0, 0, 0, 0, 0, 0, 0, 1], 0) == Some(9)
  {
  }

  // ---- writing heads ----

  /** The shortest head for `v`, as the encoders of cose.rs and dctpm.rs build it. */
  function HeadFor(major: Major, v: nat): (h: Head)
    requires v < TWO64
  {
    if v < 24 then Head(major, v, [])
    else if v < 256 then Head(major, 24, BeBytes(v, 1))
    else if v < 65536 then Head(major, 25, BeBytes(v, 2))
    else if v < TWO32 then Head(major, 26, BeBytes(v, 4))
    else Head(major, 27, BeBytes(v, 8))
  }

  lemma HeadForArg(major: Major, v: nat)
    requires v < TWO64
    ensures HeadFor(major, v).Arg() == v && HeadFor(major, v).major == major
    ensures major != 7 ==> TailLen(Dctpm, major, HeadFor(major, v).info) == Some(|HeadFor(major, v).tail|)
    ensures major != 7 ==> TailLen(Fdo, major, HeadFor(major, v).info) == Some(|HeadFor(major, v).tail|)
    ensures major != 7 && v < TWO32 ==> TailLen(Cose, major, HeadFor(major, v).info) == Some(|HeadFor(major, v).tail|)
  {
    Pow256Values();
    if 24 <= v < 256 { BeRoundTrip(v, 1); }
    else if 256 <= v < 65536 { BeRoundTrip(v, 2); }
    else if 65536 <= v < TWO32 { BeRoundTrip(v, 4); }
    else if TWO32 <= v { BeRoundTrip(v, 8); }
  }

  /** Reading back a head just written. */
  lemma HeadForAt(d: Dialect, major: Major, v: nat, data: Bytes, pos: nat)
    requires v < TWO64 && major != 7 && (d == Cose ==> v < TWO32)
    requires At(data, pos, HeadFor(major, v).Bytes())
    ensures ReadHead(d, data, pos) == Some((major, v, pos + |HeadFor(major, v).Bytes()|))
  {
    HeadForArg(major, v);
    HeadAt(d, HeadFor(major, v), data, pos);
  }
}
