/**
 The bare-metal-onboarding session (bmo.rs): a state machine fed with whatever
 messages the peer sends, which must reach Complete only with an image that an
 authenticated statement covers.

 Each message carries the results of the HTTP fetches it may trigger; those, and
 the messages, are arbitrary. Human-readable result texts and informational
 fields are not modelled.
 */
module Bmo {
  import opened Base
  import opened Cbor
  import opened Cursor
  import opened CoseSign1
  import opened Platforms
  import opened FdoCodec
  import opened Artifacts
  import opened Chunking

  // ---- image-begin ----

  datatype Begin = Begin(totalSize: nat, requireAck: bool, deliveryMode: u8, url: Option<Bytes>, tlsCa: Option<Bytes>,
                         expectedHash: Option<Bytes>, metaSigner: Option<Bytes>, bootArgs: Option<Bytes>)

  const INLINE: u8 := 0
  const URL: u8 := 1
  const META_URL: u8 := 2

  function BeginKinds(key: int): Kind {
    if key in {0, 4, 5, -6} then KNum
    else if key in {1, -1, -2, -3, -4, -5, 6, -7} then KText
    else if key in {7, -8, 8, -9, 9, -10} then KBlob
    else if key == 3 then KFlag
    else KSkip
  }

  /** Generic keys 5-9 folded with their legacy aliases -6..-10; an unknown large
      mode becomes 255, which no branch supports. */
  function BeginOf(f: Fields): Option<Begin> {
    var mode :- MergeAlias(GetNum(f, 5), GetNum(f, -6));
    var url :- MergeAlias(GetText(f, 6), GetText(f, -7));
    var tlsCa :- MergeAlias(GetBlob(f, 7), GetBlob(f, -8));
    var hash :- MergeAlias(GetBlob(f, 8), GetBlob(f, -9));
    var signer :- MergeAlias(GetBlob(f, 9), GetBlob(f, -10));
    var size := GetNum(f, 0);
    Some(Begin(if size.Some? then size.value else 0,
               3 in f && f[3] == Flag(true),
               if mode.None? then 0 else if mode.value > 255 then 255 else mode.value,
               url, tlsCa, hash, signer, GetText(f, -2)))
  }

  /** A generic key and its legacy alias carry different values. */
  predicate Clash(f: Fields, generic: int) {
    generic in f && -1 - generic in f && f[generic] != f[-1 - generic]
  }

  /** Every field holds the kind of value its key calls for. */
  predicate Typed(f: Fields) {
    forall k :: k in f ==> match BeginKinds(k)
                           case KNum => f[k].Num?
                           case KText => f[k].Text?
                           case KBlob => f[k].Blob?
                           case KFlag => f[k].Flag?
                           case KSkip => false
  }

  function ToGeneric(f: Fields): Fields {
    map k | k in f.Keys + {5, 6, 7, 8, 9} && !(-10 <= k <= -6) && (k in f || (5 <= k <= 9 && -1 - k in f))
        :: if k in f then f[k] else f[-1 - k]
  }

  /** A begin message is malformed exactly when some alias pair clashes, and
      otherwise it does not matter which numbering was used. */
  lemma AliasesExactly(f: Fields)
    requires Typed(f)
    ensures BeginOf(f).None? <==> exists k :: 5 <= k <= 9 && Clash(f, k)
    ensures BeginOf(f).Some? ==> BeginOf(ToGeneric(f)) == BeginOf(f)
  {
    var g := ToGeneric(f);
    AliasPair(f, 5, -6);
    AliasPair(f, 6, -7);
    AliasPair(f, 7, -8);
    AliasPair(f, 8, -9);
    AliasPair(f, 9, -10);
    assert (0 in g <==> 0 in f) && (3 in g <==> 3 in f) && (-2 in g <==> -2 in f);
  }

  lemma AliasPair(f: Fields, k: int, l: int)
    requires Typed(f) && 5 <= k <= 9 && l == -1 - k
    ensures var g := ToGeneric(f);
            && (MergeAlias(GetNum(f, k), GetNum(f, l)).None? <==> k == 5 && Clash(f, k))
            && (MergeAlias(GetText(f, k), GetText(f, l)).None? <==> k == 6 && Clash(f, k))
            && (MergeAlias(GetBlob(f, k), GetBlob(f, l)).None? <==> k >= 7 && Clash(f, k))
            && (!Clash(f, k) ==>
                 && MergeAlias(GetNum(g, k), GetNum(g, l)) == MergeAlias(GetNum(f, k), GetNum(f, l))
                 && MergeAlias(GetText(g, k), GetText(g, l)) == MergeAlias(GetText(f, k), GetText(f, l))
                 && MergeAlias(GetBlob(g, k), GetBlob(g, l)) == MergeAlias(GetBlob(f, k), GetBlob(f, l)))
  {
    var g := ToGeneric(f);
    assert l !in g && (k in g <==> k in f || l in f);
    assert k in f ==> BeginKinds(k) == if k == 5 then KNum else if k == 6 then KText else KBlob;
    assert l in f ==> BeginKinds(l) == if k == 5 then KNum else if k == 6 then KText else KBlob;
  }

  function ParsedBegin(env: Env, data: Bytes): Read<Begin> {
    var (f, _) :- FieldsOf(env, BeginKinds, data);
    Need(BeginOf(f))
  }

  /** The fields of a begin message under the generic or the legacy numbering. */
  function BeginPairs(b: Begin, legacy: bool): seq<(int, Option<Value>)> {
    [(0, Some(Num(b.totalSize))), (3, Some(Flag(b.requireAck))), (-2, OptText(b.bootArgs)),
     (if legacy then -6 else 5, Some(Num(b.deliveryMode))), (if legacy then -7 else 6, OptText(b.url)),
     (if legacy then -8 else 7, OptBlob(b.tlsCa)), (if legacy then -9 else 8, OptBlob(b.expectedHash)),
     (if legacy then -10 else 9, OptBlob(b.metaSigner))]
  }

  /** Parsing a printed begin message gives it back, in either numbering. */
  lemma BeginRoundTrip(env: Env, b: Begin, legacy: bool, after: Bytes)
    requires AllOk(env, BeginKinds, BeginPairs(b, legacy))
    ensures ParsedBegin(env, PrintMap(BeginPairs(b, legacy)) + after) == Got(b)
  {
    hide FieldsOf, PrintMap, AllOk;
    var ps := BeginPairs(b, legacy);
    var f := RecordRoundTrip(env, BeginKinds, ps, after);
    forall i | 0 <= i < 8 ensures Holds(f, ps[i].0, ps[i].1) {}
    forall k | k in {5, 6, 7, 8, 9} ensures legacy ==> k !in f {}
    forall k | k in {-6, -7, -8, -9, -10} ensures !legacy ==> k !in f {}
    BeginHeld(f, b, legacy);
  }

  lemma BeginHeld(f: Fields, b: Begin, legacy: bool)
    requires forall i :: 0 <= i < 8 ==> Holds(f, BeginPairs(b, legacy)[i].0, BeginPairs(b, legacy)[i].1)
    requires if legacy then 5 !in f && 6 !in f && 7 !in f && 8 !in f && 9 !in f
             else -6 !in f && -7 !in f && -8 !in f && -9 !in f && -10 !in f
    ensures BeginOf(f) == Some(b)
  {
    var ps := BeginPairs(b, legacy);
    assert Holds(f, ps[0].0, ps[0].1) && Holds(f, ps[1].0, ps[1].1) && Holds(f, ps[2].0, ps[2].1)
      && Holds(f, ps[3].0, ps[3].1);
    assert Holds(f, ps[4].0, ps[4].1) && Holds(f, ps[5].0, ps[5].1) && Holds(f, ps[6].0, ps[6].1)
      && Holds(f, ps[7].0, ps[7].1);
  }

  /** The three delivery modes are told apart by their number, and no other number,
      however large, is taken for one of them. */
  lemma ModeExactly(f: Fields, n: nat, k: u8)
    requires 5 in f && f[5] == Num(n) && BeginOf(f).Some? && k <= 2
    ensures BeginOf(f).value.deliveryMode == k <==> n == k
  {
  }

  lemma {:induction false} CollectTyped(env: Env, f: Fields, ps: seq<(int, Value)>)
    requires Typed(f) && forall i :: 0 <= i < |ps| ==> PairOk(env, BeginKinds, ps[i].0, ps[i].1)
    ensures Typed(Collect(f, ps))
    decreases |ps|
  {
    hide BeginKinds;
    if ps != [] {
      assert PairOk(env, BeginKinds, ps[0].0, ps[0].1);
      CollectTyped(env, f[ps[0].0 := ps[0].1], ps[1..]);
    }
  }

  /** A printed map of known keys, in any mixture of the two numberings, is refused
      exactly when a generic key and its alias disagree, and otherwise it means the
      same as its generic form. */
  lemma MixedBeginExactly(env: Env, ps: seq<(int, Value)>, after: Bytes)
    requires |ps| < 65536 && forall i :: 0 <= i < |ps| ==> PairOk(env, BeginKinds, ps[i].0, ps[i].1)
    ensures var f, r := Collect(map[], ps), ParsedBegin(env, FdoHead(5, |ps|) + PairsBytes(ps) + after);
            && (r == Bad <==> exists k :: 5 <= k <= 9 && Clash(f, k))
            && (r != Bad ==> r == Need(BeginOf(ToGeneric(f))))
  {
    hide FieldsOf, PairsBytes, FdoHead, BeginOf, PairOk, Collect;
    FieldsRoundTrip(env, BeginKinds, ps, after);
    CollectTyped(env, map[], ps);
    var f := Collect(map[], ps);
    AliasesExactly(f);
  }

  // ---- image-end and image-data ----

  /** The bstr under key 1 of an image-end map; Bad means there is no hash. */
  function EndHashFrom(data: Bytes, pos: nat, n: nat, stack: nat): Read<Bytes>
    decreases n
  {
    if n == 0 then Bad
    else
      var (key, p) :- ReadInt32(data, pos);
      if key == 1 then
        var (h, _) :- ReadString(data, p, 2);
        Got(h)
      else
        var q :- Walk(data, p, stack);
        EndHashFrom(data, q, n - 1, stack)
  }

  function EndHash(data: Bytes, stack: nat): Read<Bytes> {
    var (n, p) :- ReadMapLen(data, 0);
    EndHashFrom(data, p, n, stack)
  }

  method ParseImageEndHash(data: Bytes, stack: nat) returns (r: Read<Bytes>)
    ensures r == EndHash(data, stack)
  {
    hide ReadMapLen, ReadInt32, ReadString, Walk;
    var h := ReadMapLen(data, 0);
    if !h.Got? { return h.PropagateFailure(); }
    var dec := new CborDecoder(data);
    dec.pos := h.value.1;
    var n, i := h.value.0, 0;
    while i < n
      invariant i <= n && fresh(dec)
      invariant EndHash(data, stack) == EndHashFrom(data, dec.pos, n - i, stack)
    {
      var key := dec.Take(ReadInt32(data, dec.pos));
      if !key.Got? { return key.PropagateFailure(); }
      if key.value == 1 {
        r := dec.ReadBytes();
        return;
      }
      var skipped := dec.SkipValue(stack);
      if !skipped.Got? { return skipped.PropagateFailure(); }
      i := i + 1;
    }
    return Bad;
  }

  /** A chunk is normally a bstr; anything else is taken as it is. */
  function Chunk(value: Bytes): (r: Read<Bytes>)
    ensures r != Bad
  {
    if value != [] && value[0] / 32 == 2 then
      match ReadString(value, 0, 2)
      case Got((inner, _)) => Got(inner)
      case Bad => Got(value)
      case Crash => Crash
    else Got(value)
  }

  /** The program dies on exactly those chunks whose length field points beyond
      the 64-bit numbers. */
  lemma ChunkCrashesExactly(value: Bytes)
    requires |value| < TWO63
    ensures Chunk(value) == Crash <==>
            (var h := ReadHead(Fdo, value, 0); h.Some? && h.value.0 == 2 && h.value.2 + h.value.1 >= TWO64)
  {
    hide ReadHead;
    var h := ReadHead(Fdo, value, 0);
    if h.Some? {
      HeadMajor(value, 0);
      if h.value.0 == 2 { BackwardsExactly(value, 0, 1); }
    }
  }

  /** A chunk that starts with a whole byte string, under a head of any width, is
      that string's contents. */
  lemma ChunkOfString(h: Head, b: Bytes, after: Bytes)
    requires HeadOf(Fdo, h, 2, |b|)
    ensures Chunk(h.Bytes() + b + after) == Got(b)
  {
    hide ReadHead;
    var value := h.Bytes() + b + after;
    assert value[0..|h.Bytes()|] == h.Bytes() && value[|h.Bytes()|..|h.Bytes()| + |b|] == b;
    HeadAt(Fdo, h, value, 0);
    assert value[0] == value[0..|h.Bytes()|][0];
  }

  /** What any chunk decodes to: the contents of the byte string it starts with, if
      that is all there; the bytes as they are, if it starts with anything else or
      with a string that is cut off; or a crash. */
  lemma ChunkExactly(value: Bytes)
    requires |value| < TWO63
    ensures var h := ReadHead(Fdo, value, 0);
            if h.Some? && h.value.0 == 2 && h.value.2 + h.value.1 <= |value|
            then Chunk(value) == Got(value[h.value.2..h.value.2 + h.value.1])
            else if h.Some? && h.value.0 == 2 && h.value.2 + h.value.1 >= TWO64 then Chunk(value) == Crash
            else Chunk(value) == Got(value)
  {
    hide ReadHead;
    var h := ReadHead(Fdo, value, 0);
    if h.Some? {
      HeadMajor(value, 0);
      ArgBound(value, 0);
    }
  }

  // ---- printed image-end maps ----

  function KeyItems(ps: seq<(int, Item)>): Bytes {
    if ps == [] then [] else KeyBytes(ps[0].0) + Encode(ps[0].1) + KeyItems(ps[1..])
  }

  /** Pairs with other keys than 1, whose values the decoder can skip. */
  ghost predicate OtherPairs(ps: seq<(int, Item)>, stack: nat) {
    forall i :: 0 <= i < |ps| ==>
      -65536 <= ps[i].0 < 65536 && ps[i].0 != 1 && InLang(Fdo, ps[i].1) && Height(ps[i].1) < stack
  }

  lemma {:induction false} SkipPairs(data: Bytes, pos: nat, ps: seq<(int, Item)>, n: nat, stack: nat)
    requires OtherPairs(ps, stack) && At(data, pos, KeyItems(ps)) && |ps| <= n
    ensures EndHashFrom(data, pos, n, stack) == EndHashFrom(data, pos + |KeyItems(ps)|, n - |ps|, stack)
    decreases |ps|
  {
    hide ReadInt32, ReadString, Walk, InLang, Encode, Height, KeyBytes;
    if ps != [] {
      var (k, it) := ps[0];
      AtConcat(data, pos, KeyBytes(k) + Encode(it), KeyItems(ps[1..]));
      AtConcat(data, pos, KeyBytes(k), Encode(it));
      KeyAt(data, pos, k);
      var p := pos + |KeyBytes(k)|;
      WalkItem(it, data, p, stack);
      SkipPairs(data, p + |Encode(it)|, ps[1..], n - 1, stack);
    }
  }

  lemma EndMapAt(data: Bytes, n: nat, stack: nat)
    requires n < 65536 && At(data, 0, FdoHead(5, n))
    ensures EndHash(data, stack) == EndHashFrom(data, |FdoHead(5, n)|, n, stack)
  {
    hide ReadMapLen, EndHashFrom, FdoHead;
    MapLenAt(data, n);
  }

  lemma EndHashAt(data: Bytes, pos: nat, n: nat, h: Bytes, stack: nat)
    requires 0 < n && |h| < 65536 && At(data, pos, KeyBytes(1) + FdoBstr(h))
    ensures EndHashFrom(data, pos, n, stack) == Got(h)
  {
    hide ReadInt32, ReadString, KeyBytes, FdoHead;
    AtConcat(data, pos, KeyBytes(1), FdoBstr(h));
    KeyAt(data, pos, 1);
    StringAt(2, data, pos + |KeyBytes(1)|, h);
  }

  /** The hash of a printed image-end is the byte string under key 1, whatever
      stands before and after it. */
  lemma EndHashRoundTrip(n: nat, ps: seq<(int, Item)>, h: Bytes, after: Bytes, stack: nat)
    requires OtherPairs(ps, stack) && |h| < 65536 && |ps| < n < 65536
    ensures EndHash(FdoHead(5, n) + (KeyItems(ps) + (KeyBytes(1) + FdoBstr(h))) + after, stack) == Got(h)
  {
    hide EndHash, EndHashFrom, KeyItems, KeyBytes, FdoHead, FdoBstr, OtherPairs;
    var head, tail := FdoHead(5, n), KeyBytes(1) + FdoBstr(h);
    var data := head + (KeyItems(ps) + tail) + after;
    assert data[0..|head|] == head;
    EndMapAt(data, n, stack);
    AtPrefix(head, KeyItems(ps) + tail, after);
    AtConcat(data, |head|, KeyItems(ps), tail);
    SkipPairs(data, |head|, ps, n, stack);
    EndHashAt(data, |head| + |KeyItems(ps)|, n - |ps|, h, stack);
  }

  /** And an image-end without that key has none. */
  lemma NoEndHash(ps: seq<(int, Item)>, after: Bytes, stack: nat)
    requires OtherPairs(ps, stack) && |ps| < 65536
    ensures EndHash(FdoHead(5, |ps|) + KeyItems(ps) + after, stack) == Bad
  {
    hide EndHash, EndHashFrom, KeyItems, FdoHead, OtherPairs;
    var head := FdoHead(5, |ps|);
    var data := head + KeyItems(ps) + after;
    assert data[0..|head|] == head;
    EndMapAt(data, |ps|, stack);
    AtPrefix(head, KeyItems(ps), after);
    SkipPairs(data, |head|, ps, |ps|, stack);
    NoPairs(data, |head| + |KeyItems(ps)|, stack);
  }

  lemma NoPairs(data: Bytes, pos: nat, stack: nat) ensures EndHashFrom(data, pos, 0, stack) == Bad { }

  // ---- settings ----

  /** `n` pairs of texts. */
  function SetPairs(env: Env, data: Bytes, pos: nat, n: nat): Read<seq<(Bytes, Bytes)>>
    decreases n
  {
    if n == 0 then Got([])
    else
      var (two, p) :- ReadLen(data, pos, 4);
      if two != 2 then Bad
      else
        var (name, q) :- ReadText(env.utf8, data, p);
        var (value, e) :- ReadText(env.utf8, data, q);
        var rest :- SetPairs(env, data, e, n - 1);
        Got([(name, value)] + rest)
  }

  function ParsedSet(env: Env, data: Bytes): Read<seq<(Bytes, Bytes)>> {
    var (n, p) :- ReadLen(data, 0, 4);
    if n == 0 then Bad else SetPairs(env, data, p, n)
  }

  method ParseBmoSet(env: Env, data: Bytes) returns (r: Read<seq<(Bytes, Bytes)>>)
    ensures r == ParsedSet(env, data)
  {
    hide ReadLen, ReadText;
    var dec := new CborDecoder(data);
    var n := dec.ReadArrayLen();
    if !n.Got? { return n.PropagateFailure(); }
    if n.value == 0 { return Bad; }
    var params: seq<(Bytes, Bytes)> := [];
    ghost var start := dec.pos;
    var i := 0;
    PrependNone(SetPairs(env, data, start, n.value));
    while i < n.value
      invariant i <= n.value && fresh(dec)
      invariant SetPairs(env, data, start, n.value) == Prepend(params, SetPairs(env, data, dec.pos, n.value - i))
    {
      var two := dec.ReadArrayLen();
      if !two.Got? { return two.PropagateFailure(); }
      if two.value != 2 { return Bad; }
      var name := dec.Take(ReadText(env.utf8, data, dec.pos));
      if !name.Got? { return name.PropagateFailure(); }
      var value := dec.Take(ReadText(env.utf8, data, dec.pos));
      if !value.Got? { return value.PropagateFailure(); }
      i := i + 1;
      PrependCons(params, (name.value, value.value), SetPairs(env, data, dec.pos, n.value - i));
      params := params + [(name.value, value.value)];
    }
    assert params + [] == params;
    return Got(params);
  }

  function SetBytes(ps: seq<(Bytes, Bytes)>): Bytes {
    if ps == [] then [] else FdoHead(4, 2) + FdoTstr(ps[0].0) + FdoTstr(ps[0].1) + SetBytes(ps[1..])
  }

  predicate SetFits(env: Env, p: (Bytes, Bytes)) {
    |p.0| < 65536 && |p.1| < 65536 && env.utf8(p.0) && env.utf8(p.1)
  }

  lemma TextAt(env: Env, data: Bytes, pos: nat, t: Bytes)
    requires |t| < 65536 && env.utf8(t) && At(data, pos, FdoTstr(t))
    ensures ReadText(env.utf8, data, pos) == Got((t, pos + |FdoTstr(t)|))
  {
    hide ReadString, FdoHead;
    StringAt(3, data, pos, t);
  }

  lemma SetPairAt(env: Env, data: Bytes, pos: nat, p: (Bytes, Bytes)) returns (q: nat, r: nat, e: nat)
    requires SetFits(env, p) && At(data, pos, FdoHead(4, 2) + FdoTstr(p.0) + FdoTstr(p.1))
    ensures ReadLen(data, pos, 4) == Got((2, q)) && ReadText(env.utf8, data, q) == Got((p.0, r))
    ensures ReadText(env.utf8, data, r) == Got((p.1, e)) && e == pos + |FdoHead(4, 2) + FdoTstr(p.0) + FdoTstr(p.1)|
  {
    hide ReadHead, ReadText, FdoHead, FdoTstr;
    AtConcat(data, pos, FdoHead(4, 2) + FdoTstr(p.0), FdoTstr(p.1));
    AtConcat(data, pos, FdoHead(4, 2), FdoTstr(p.0));
    FdoHeadAt(4, 2, data, pos);
    q := pos + |FdoHead(4, 2)|;
    TextAt(env, data, q, p.0);
    r := q + |FdoTstr(p.0)|;
    TextAt(env, data, r, p.1);
    e := r + |FdoTstr(p.1)|;
  }

  lemma {:induction false} SetPairsAt(env: Env, data: Bytes, pos: nat, ps: seq<(Bytes, Bytes)>)
    requires (forall i :: 0 <= i < |ps| ==> SetFits(env, ps[i])) && At(data, pos, SetBytes(ps))
    ensures SetPairs(env, data, pos, |ps|) == Got(ps)
    decreases |ps|
  {
    hide ReadLen, ReadText, FdoHead, FdoTstr, SetFits;
    if ps != [] {
      var first := FdoHead(4, 2) + FdoTstr(ps[0].0) + FdoTstr(ps[0].1);
      AtConcat(data, pos, first, SetBytes(ps[1..]));
      var q, r, e := SetPairAt(env, data, pos, ps[0]);
      SetPairsAt(env, data, e, ps[1..]);
      assert ps == [ps[0]] + ps[1..];
    }
  }

  /** Printed settings are read back; an empty list is refused. */
  lemma SetRoundTrip(env: Env, ps: seq<(Bytes, Bytes)>, after: Bytes)
    requires |ps| < 65536 && forall i :: 0 <= i < |ps| ==> SetFits(env, ps[i])
    ensures ParsedSet(env, FdoHead(4, |ps|) + SetBytes(ps) + after) == if ps == [] then Bad else Got(ps)
  {
    hide ReadHead, FdoHead, SetPairs, SetBytes, SetFits;
    var h := FdoHead(4, |ps|);
    var data := h + SetBytes(ps) + after;
    assert data[0..|h|] == h;
    FdoHeadAt(4, |ps|, data, 0);
    AtPrefix(h, SetBytes(ps), after);
    SetPairsAt(env, data, |h|, ps);
  }

  // ---- authorisation ----

  /** Who the peer proved to be in ProveOVHdr. */
  datatype Peer = OwnerDirect | DelegatePeer(provision: bool) | NoPeer

  datatype Ctx = Ctx(pf: Platform, owner: Option<Bytes>, peer: Peer, guid: Option<Bytes>)

  datatype AuthResult = SignedOk | SignedFailed | UnsignedModel1 | UnsignedModel2 | UnsignedLegacy | UnsignedRefused {
    predicate IsAuthorized() { !SignedFailed? && !UnsignedRefused? }

    function ToAuthority(): Authority {
      match this
      case UnsignedModel1 => Channel
      case UnsignedModel2 => Channel
      case UnsignedLegacy => Unauthenticated
      case _ => Artifact
    }
  }

  const CT_BEGIN: Bytes := Ascii("application/cbor+fdo.bmo.image-begin")
  const CT_SET: Bytes := Ascii("application/cbor+fdo.bmo.set")

  function UnsignedAuth(ctx: Ctx): AuthResult {
    match ctx.peer
    case OwnerDirect => UnsignedModel1
    case DelegatePeer(provision) => if provision then UnsignedModel2 else UnsignedRefused
    case NoPeer => if ctx.owner.Some? then UnsignedRefused else UnsignedLegacy
  }

  ghost function Authorize(ctx: Ctx, data: Bytes, contentType: Bytes): (AuthResult, Option<Bytes>) {
    if !IsTag18(data) then (UnsignedAuth(ctx), None)
    else
      var inner := if ctx.owner.None? then None else BmoPayload(ctx.pf, data, ctx.owner.value, contentType, ctx.guid);
      if inner.Some? then (SignedOk, inner) else (SignedFailed, None)
  }

  method CheckBmoAuthorization(ctx: Ctx, data: Bytes, contentType: Bytes)
    returns (auth: AuthResult, inner: Option<Bytes>)
    ensures (auth, inner) == Authorize(ctx, data, contentType)
  {
    hide BmoPayload;
    if !IsTag18(data) {
      return UnsignedAuth(ctx), None;
    }
    inner := None;
    if ctx.owner.Some? {
      inner := VerifyBmoSigned(ctx.pf, data, ctx.owner.value, contentType, ctx.guid);
    }
    auth := if inner.Some? then SignedOk else SignedFailed;
  }

  /** The whole authorisation matrix. A signed message is judged by its signature
      alone and never falls back to channel authority; an unsigned one passes for
      the owner, for a provisioning delegate, or where there is no owner at all. */
  lemma AuthorizationMatrix(ctx: Ctx, data: Bytes, contentType: Bytes)
    ensures var (auth, inner) := Authorize(ctx, data, contentType);
            && (IsTag18(data) ==>
                  (auth.IsAuthorized() <==>
                     ctx.owner.Some? && BmoPayload(ctx.pf, data, ctx.owner.value, contentType, ctx.guid).Some?))
            && (IsTag18(data) && auth.IsAuthorized() ==>
                  && auth.ToAuthority() == Artifact
                  && inner == BmoPayload(ctx.pf, data, ctx.owner.value, contentType, ctx.guid))
            && (!IsTag18(data) ==> inner == None)
            && (!IsTag18(data) ==>
                  (auth.IsAuthorized() <==> || ctx.peer == OwnerDirect || ctx.peer == DelegatePeer(true)
                                            || (ctx.peer == NoPeer && ctx.owner.None?)))
            && (!IsTag18(data) && auth.IsAuthorized() ==>
                  auth.ToAuthority() == if ctx.peer == NoPeer then Unauthenticated else Channel)
  {
    hide BmoPayload;
  }

  /** A signed inline begin must commit to the image's hash. */
  predicate BindsContent(authority: Authority, b: Begin) {
    !(authority == Artifact && b.deliveryMode == INLINE && b.expectedHash.None?)
  }

  ghost function ParsedInput(inner: Option<Bytes>, value: Bytes): Bytes {
    if inner.Some? then inner.value else value
  }

  /** Authority and contents of a begin message that is let through. */
  ghost function AcceptedBegin(ctx: Ctx, value: Bytes): Option<(Authority, Begin)> {
    var (auth, inner) := Authorize(ctx, value, CT_BEGIN);
    if !auth.IsAuthorized() then None
    else
      var b :- ParsedBegin(ctx.pf.env, ParsedInput(inner, value)).Try();
      if BindsContent(auth.ToAuthority(), b) then Some((auth.ToAuthority(), b)) else None
  }

  // ---- delivery by URL ----

  predicate SizeOk(b: Begin, image: Bytes) { b.totalSize > 0 ==> |image| == b.totalSize }

  function UrlImage(pf: Platform, b: Begin, fetched: Option<Bytes>): Option<Bytes> {
    if b.url.None? then None
    else
      match UrlHashDecision(b.expectedHash)
      case Refuse(_) => None
      case Use(h) =>
        var image :- fetched;
        if SizeOk(b, image) && pf.sha256(image) == h then Some(image) else None
  }

  method ProcessUrlDelivery(pf: Platform, b: Begin, fetched: Option<Bytes>) returns (r: Option<Bytes>)
    ensures r == UrlImage(pf, b, fetched)
  {
    if b.url.None? { return None; }
    var d := UrlHashDecision(b.expectedHash);
    if d.Refuse? { return None; }
    if fetched.None? { return None; }
    if b.totalSize > 0 && |fetched.value| != b.totalSize { return None; }
    return if pf.sha256(fetched.value) != d.value then None else fetched;
  }

  /** An image is delivered by URL exactly when it is what was fetched, has the
      announced size and the hash the begin message commits to. */
  lemma UrlImageExactly(pf: Platform, b: Begin, fetched: Option<Bytes>, image: Bytes)
    ensures UrlImage(pf, b, fetched) == Some(image) <==>
            b.url.Some? && fetched == Some(image) && SizeOk(b, image) && b.expectedHash == Some(pf.sha256(image))
  {
  }

  /** The meta-payload a fetch yields, and whether a signature vouches for it. */
  ghost function FetchedMeta(ctx: Ctx, b: Begin, fetched: Option<Bytes>): Read<(MetaPayload, bool)> {
    var data :- Need(fetched);
    var (inner, authenticated) :- Need(AuthenticateMeta(ctx.pf, data, b.metaSigner, ctx.owner));
    var meta :- MetaOf(ctx.pf.env, inner);
    Got((meta, authenticated))
  }

  ghost function MetaImage(ctx: Ctx, b: Begin, fetchedMeta: Option<Bytes>, fetchedImage: Option<Bytes>): Read<Bytes> {
    if b.url.None? then Bad
    else
      var (meta, authenticated) :- FetchedMeta(ctx, b, fetchedMeta);
      if CheckUnauthenticatedMeta(meta, authenticated, b.expectedHash).Some? then Bad
      else
        match MetaHashDecision(b.expectedHash, authenticated, meta.expectedHash)
        case Refuse(_) => Bad
        case Use(required) =>
          var image :- Need(fetchedImage);
          if forall i :: 0 <= i < |required| ==> required[i] == ctx.pf.sha256(image) then Got(image) else Bad
  }

  method ProcessMetaUrlDelivery(ctx: Ctx, b: Begin, fetchedMeta: Option<Bytes>, fetchedImage: Option<Bytes>)
    returns (r: Read<Bytes>)
    ensures r == MetaImage(ctx, b, fetchedMeta, fetchedImage)
  {
    hide AuthenticateMeta, FieldsOf;
    if b.url.None? || fetchedMeta.None? { return Bad; }
    var inner := VerifyAndExtractMeta(ctx.pf, fetchedMeta.value, b.metaSigner, ctx.owner);
    if inner.None? { return Bad; }
    var meta := ParseMetaPayload(ctx.pf.env, inner.value.0);
    if !meta.Got? { return meta.PropagateFailure(); }
    var refused := CheckUnauthenticatedMeta(meta.value, inner.value.1, b.expectedHash);
    if refused.Some? { return Bad; }
    var plan := MetaHashDecision(b.expectedHash, inner.value.1, meta.value.expectedHash);
    if plan.Refuse? || fetchedImage.None? { return Bad; }
    var computed := ctx.pf.sha256(fetchedImage.value);
    var i := 0;
    while i < |plan.value|
      invariant i <= |plan.value|
      invariant forall k :: 0 <= k < i ==> plan.value[k] == computed
    {
      if plan.value[i] != computed { return Bad; }
      i := i + 1;
    }
    return Got(fetchedImage.value);
  }

  method ParseMetaPayload(env: Env, data: Bytes) returns (r: Read<MetaPayload>)
    ensures r == MetaOf(env, data)
  {
    hide FieldsOf;
    var f := ParseFields(env, MetaKinds, data);
    if !f.Got? { return f.PropagateFailure(); }
    var mime, url := GetText(f.value.0, 0), GetText(f.value.0, 1);
    if mime.None? || url.None? { return Bad; }
    return Got(MetaPayload(mime.value, url.value, GetBlob(f.value.0, 2), GetBlob(f.value.0, 4),
                           GetText(f.value.0, 5), f.value.1));
  }

  // ---- the state machine ----

  /** The four states of the source, and Crashed: the program has stopped for good
      while it was decoding a message. */
  datatype State = Idle | AwaitingData | Complete | Error | Crashed

  datatype Session = Session(state: State, begin: Option<Begin>, image: Bytes, chunks: nat, bytesReceived: nat,
                             authority: Authority)

  const FRESH: Session := Session(Idle, None, [], 0, 0, Unauthenticated)

  /** A ServiceInfo message, with what its first and second HTTP fetch return. */
  datatype Msg = Msg(key: Bytes, value: Bytes, fetch1: Option<Bytes>, fetch2: Option<Bytes>)

  datatype Reply = ImageResult(ok: bool) | ImageAck | SetResponse

  const KEY_BEGIN: Bytes := Ascii("fdo.bmo:image-begin")
  const KEY_DATA: Bytes := Ascii("fdo.bmo:image-data-")
  const KEY_END: Bytes := Ascii("fdo.bmo:image-end")
  const KEY_SET: Bytes := Ascii("fdo.bmo:set")

  predicate IsBegin(m: Msg) { m.key == KEY_BEGIN }
  predicate IsData(m: Msg) { !IsBegin(m) && KEY_DATA <= m.key }
  predicate IsEnd(m: Msg) { !IsBegin(m) && !IsData(m) && m.key == KEY_END }
  predicate IsSet(m: Msg) { !IsBegin(m) && !IsData(m) && !IsEnd(m) && m.key == KEY_SET }

  function Fail(s: Session): (Session, Option<Reply>) { (s.(state := Error), Some(ImageResult(false))) }

  function Halt(s: Session): (Session, Option<Reply>) { (s.(state := Crashed), None) }

  function Finish(s: Session, b: Begin, image: Read<Bytes>): (Session, Option<Reply>) {
    if image.Bad? then Fail(s)
    else if image.Crash? then Halt(s)
    else (s.(state := Complete, begin := Some(b), image := image.value, bytesReceived := |image.value|),
          Some(ImageResult(true)))
  }

  ghost function OnBegin(ctx: Ctx, s: Session, m: Msg): (Session, Option<Reply>) {
    var (auth, inner) := Authorize(ctx, m.value, CT_BEGIN);
    if !auth.IsAuthorized() then Fail(s)
    else
      var s1 := s.(authority := auth.ToAuthority());
      var b := ParsedBegin(ctx.pf.env, ParsedInput(inner, m.value));
      if b.Bad? then (s1.(state := Error), None)
      else if b.Crash? then Halt(s1)
      else if !BindsContent(s1.authority, b.value) then Fail(s1)
      else Deliver(ctx, s1, b.value, m)
  }

  ghost function Deliver(ctx: Ctx, s: Session, b: Begin, m: Msg): (Session, Option<Reply>) {
    if b.deliveryMode == INLINE then
      (s.(state := AwaitingData, begin := Some(b), image := [], chunks := 0, bytesReceived := 0),
       if b.requireAck then Some(ImageAck) else None)
    else if b.deliveryMode == URL then Finish(s, b, Need(UrlImage(ctx.pf, b, m.fetch1)))
    else if b.deliveryMode == META_URL then Finish(s, b, MetaImage(ctx, b, m.fetch1, m.fetch2))
    else Fail(s)
  }

  function OnData(s: Session, m: Msg): (Session, Option<Reply>) {
    if s.state != AwaitingData then (s, None)
    else
      match Chunk(m.value)
      case Crash => Halt(s)
      case Got(c) => (s.(image := s.image + c, chunks := s.chunks + 1, bytesReceived := s.bytesReceived + |c|), None)
  }

  function OnEnd(pf: Platform, s: Session, m: Msg): (Session, Option<Reply>) {
    if s.state != AwaitingData then (s, Some(ImageResult(false)))
    else if s.begin.Some? && s.begin.value.totalSize > 0 && s.bytesReceived != s.begin.value.totalSize then Fail(s)
    else if EndHash(m.value, pf.env.stack).Crash? then Halt(s)
    else
      var beginHash := if s.begin.Some? then s.begin.value.expectedHash else None;
      match InlineHashDecision(s.authority, beginHash, EndHash(m.value, pf.env.stack).Try())
      case Refuse(_) => Fail(s)
      case Use(h) => if pf.sha256(s.image) != h then Fail(s) else (s.(state := Complete), Some(ImageResult(true)))
  }

  ghost function OnSet(ctx: Ctx, s: Session, m: Msg): (Session, Option<Reply>) {
    var (auth, inner) := Authorize(ctx, m.value, CT_SET);
    if !auth.IsAuthorized() then (s.(state := Error), Some(SetResponse))
    else if ParsedSet(ctx.pf.env, ParsedInput(inner, m.value)).Crash? then Halt(s)
    else (s, Some(SetResponse))
  }

  ghost function Process(ctx: Ctx, s: Session, m: Msg): (Session, Option<Reply>) {
    if s.state == Crashed then (s, None)
    else if IsBegin(m) then OnBegin(ctx, s, m)
    else if IsData(m) then OnData(s, m)
    else if IsEnd(m) then OnEnd(ctx.pf, s, m)
    else if IsSet(m) then OnSet(ctx, s, m)
    else (s, None)
  }

  /** The session object. */
  class BmoSession {
    var state: State
    var begin: Option<Begin>
    var image: Bytes
    var chunks: nat
    var bytesReceived: nat
    var authority: Authority

    function View(): Session
      reads this
    {
      Session(state, begin, image, chunks, bytesReceived, authority)
    }

    constructor ()
      ensures View() == FRESH
    {
      state, begin, image, chunks, bytesReceived, authority := Idle, None, [], 0, 0, Unauthenticated;
    }

    method ProcessBmoMessage(ctx: Ctx, m: Msg) returns (reply: Option<Reply>)
      modifies this
      ensures (View(), reply) == Process(ctx, old(View()), m)
    {
      hide OnBegin, OnData, OnEnd, Authorize, ParsedSet, IsBegin, IsData, IsEnd, IsSet;
      if state == Crashed {
        reply := None;
      } else if IsBegin(m) {
        reply := ImageBegin(ctx, m);
      } else if IsData(m) {
        reply := ImageData(m);
      } else if IsEnd(m) {
        reply := ImageEnd(ctx.pf, m);
      } else if IsSet(m) {
        var auth, inner := CheckBmoAuthorization(ctx, m.value, CT_SET);
        reply := Some(SetResponse);
        if !auth.IsAuthorized() {
          state := Error;
        } else {
          var params := ParseBmoSet(ctx.pf.env, if inner.Some? then inner.value else m.value);
          if params.Crash? {
            state := Crashed;
            reply := None;
          }
        }
      } else {
        reply := None;
      }
    }

    method ImageBegin(ctx: Ctx, m: Msg) returns (reply: Option<Reply>)
      modifies this
      ensures (View(), reply) == OnBegin(ctx, old(View()), m)
    {
      hide Authorize, FieldsOf, UrlImage, MetaImage, BeginOf;
      var auth, inner := CheckBmoAuthorization(ctx, m.value, CT_BEGIN);
      if !auth.IsAuthorized() {
        state := Error;
        return Some(ImageResult(false));
      }
      authority := auth.ToAuthority();
      var fields := ParseFields(ctx.pf.env, BeginKinds, if inner.Some? then inner.value else m.value);
      var parsed := if fields.Got? then Need(BeginOf(fields.value.0)) else fields.PropagateFailure();
      if !parsed.Got? {
        state := if parsed.Bad? then Error else Crashed;
        return None;
      }
      var b := parsed.value;
      if !BindsContent(authority, b) {
        state := Error;
        return Some(ImageResult(false));
      }
      if b.deliveryMode == INLINE {
        state, image, begin, chunks, bytesReceived := AwaitingData, [], Some(b), 0, 0;
        return if b.requireAck then Some(ImageAck) else None;
      }
      var fetched: Read<Bytes> := Bad;
      if b.deliveryMode == URL {
        var image := ProcessUrlDelivery(ctx.pf, b, m.fetch1);
        fetched := Need(image);
      } else if b.deliveryMode == META_URL {
        fetched := ProcessMetaUrlDelivery(ctx, b, m.fetch1, m.fetch2);
      }
      if fetched.Bad? {
        state := Error;
        return Some(ImageResult(false));
      }
      if fetched.Crash? {
        state := Crashed;
        return None;
      }
      image, bytesReceived := fetched.value, |fetched.value|;
      begin, state := Some(b), Complete;
      return Some(ImageResult(true));
    }

    method ImageData(m: Msg) returns (reply: Option<Reply>)
      modifies this
      ensures (View(), reply) == OnData(old(View()), m)
    {
      reply := None;
      if state != AwaitingData { return; }
      var c := Chunk(m.value);
      if c.Crash? {
        state := Crashed;
        return;
      }
      image := image + c.value;
      chunks := chunks + 1;
      bytesReceived := bytesReceived + |c.value|;
    }

    method ImageEnd(pf: Platform, m: Msg) returns (reply: Option<Reply>)
      modifies this
      ensures (View(), reply) == OnEnd(pf, old(View()), m)
    {
      hide EndHash;
      if state != AwaitingData { return Some(ImageResult(false)); }
      if begin.Some? && begin.value.totalSize > 0 && bytesReceived != begin.value.totalSize {
        state := Error;
        return Some(ImageResult(false));
      }
      var endHash := ParseImageEndHash(m.value, pf.env.stack);
      if endHash.Crash? {
        state := Crashed;
        return None;
      }
      var beginHash := if begin.Some? then begin.value.expectedHash else None;
      var d := InlineHashDecision(authority, beginHash, endHash.Try());
      if d.Refuse? || pf.sha256(image) != d.value {
        state := Error;
        return Some(ImageResult(false));
      }
      state := Complete;
      return Some(ImageResult(true));
    }
  }

  // ---- runs ----

  ghost function Run(ctx: Ctx, ms: seq<Msg>): Session {
    if ms == [] then FRESH else Process(ctx, Run(ctx, ms[..|ms| - 1]), ms[|ms| - 1]).0
  }

  /** The decoded chunks of the data messages, in order of arrival. */
  function Chunks(ms: seq<Msg>): Bytes {
    if ms == [] then []
    else Chunks(ms[..|ms| - 1]) + ChunkOf(ms[|ms| - 1])
  }

  function ChunkOf(m: Msg): Bytes {
    if IsData(m) && Chunk(m.value).Got? then Chunk(m.value).value else []
  }

  /** Message `i` is the last image-begin of the run and was let through as `b`
      under `authority`. */
  ghost predicate BegunAt(ctx: Ctx, ms: seq<Msg>, i: nat, authority: Authority, b: Begin) {
    && i < |ms| && IsBegin(ms[i]) && AcceptedBegin(ctx, ms[i].value) == Some((authority, b))
    && forall k :: i < k < |ms| ==> !IsBegin(ms[k])
  }

  ghost predicate Receiving(ctx: Ctx, ms: seq<Msg>, i: nat, s: Session) {
    && s.begin.Some? && BegunAt(ctx, ms, i, s.authority, s.begin.value)
    && s.begin.value.deliveryMode == INLINE && s.image == Chunks(ms[i + 1..])
  }

  /** Why the image of a completed session may be used. `i` is the begin message,
      `j` the message that completed the transfer. */
  ghost predicate Justified(ctx: Ctx, ms: seq<Msg>, i: nat, j: nat, s: Session) {
    && i <= j < |ms| && s.begin.Some? && BegunAt(ctx, ms, i, s.authority, s.begin.value)
    && var b, h := s.begin.value, ctx.pf.sha256(s.image);
    // a hash in the begin message always decides
    && (b.expectedHash.Some? ==> b.expectedHash.value == h)
    && ((b.deliveryMode == INLINE && ByChunks(ctx.pf.env.stack, ms, i, j, s, h))
        || (b.deliveryMode == URL && i == j && ms[i].fetch1 == Some(s.image) && b.expectedHash.Some?
            && SizeOk(b, s.image))
        || (b.deliveryMode == META_URL && i == j && ms[i].fetch2 == Some(s.image) && ByMeta(ctx, b, ms[i].fetch1, h)))
  }

  /** Inline: exactly the chunks between begin and end, of the announced size;
      without a begin hash, an end hash that did not need a signature. */
  ghost predicate ByChunks(stack: nat, ms: seq<Msg>, i: nat, j: nat, s: Session, h: Bytes)
    requires i < |ms| && j < |ms| && s.begin.Some?
  {
    && i < j && IsEnd(ms[j]) && s.image == Chunks(ms[i + 1..j]) && SizeOk(s.begin.value, s.image)
    && (s.begin.value.expectedHash.None? ==> s.authority != Artifact && EndHash(ms[j].value, stack) == Got(h))
  }

  /** The fetched bytes carry the meta-payload `meta`: signed as the begin message
      demands, or, unsigned, where it demands nothing. */
  ghost predicate Carries(ctx: Ctx, b: Begin, fetched: Option<Bytes>, meta: MetaPayload, authenticated: bool) {
    && fetched.Some?
    && if authenticated then
         exists inner ::
           MetaSigned(ctx.pf, fetched.value, b.metaSigner, ctx.owner, inner) && MetaOf(ctx.pf.env, inner) == Got(meta)
       else
         !IsTag18(fetched.value) && b.metaSigner.None? && MetaOf(ctx.pf.env, fetched.value) == Got(meta)
  }

  lemma FetchedMetaExactly(ctx: Ctx, b: Begin, fetched: Option<Bytes>, meta: MetaPayload, authenticated: bool)
    ensures FetchedMeta(ctx, b, fetched) == Got((meta, authenticated))
      <==> Carries(ctx, b, fetched, meta, authenticated)
  {
    hide AuthenticateMeta, MetaSigned, MetaOf;
    var signer, owner := b.metaSigner, ctx.owner;
    if FetchedMeta(ctx, b, fetched) == Got((meta, authenticated)) {
      var (inner, a) := AuthenticateMeta(ctx.pf, fetched.value, signer, owner).value;
      AuthenticateMetaExactly(ctx.pf, fetched.value, signer, owner, inner, a);
    }
    if Carries(ctx, b, fetched, meta, authenticated) {
      if authenticated {
        var inner :| MetaSigned(ctx.pf, fetched.value, signer, owner, inner) && MetaOf(ctx.pf.env, inner) == Got(meta);
        AuthenticateMetaExactly(ctx.pf, fetched.value, signer, owner, inner, true);
      } else {
        AuthenticateMetaExactly(ctx.pf, fetched.value, signer, owner, fetched.value, false);
      }
    }
  }

  /** Meta-URL: every hash of the meta-payload matches; without a begin hash the
      meta-payload is signed and carries one; an unsigned one gives no orders. */
  ghost predicate ByMeta(ctx: Ctx, b: Begin, fetched: Option<Bytes>, h: Bytes) {
    exists meta, authenticated ::
      && Carries(ctx, b, fetched, meta, authenticated)
      && (meta.expectedHash.Some? ==> meta.expectedHash.value == h)
      && (b.expectedHash.None? ==> authenticated && meta.expectedHash == Some(h))
      && (!authenticated ==> meta.tlsCa.None? && meta.bootArgs.None? && meta.extraKeys == [])
  }

  ghost predicate Inv(ctx: Ctx, ms: seq<Msg>, s: Session) {
    && s.bytesReceived == |s.image|
    && (s.state == AwaitingData ==> exists i: nat :: Receiving(ctx, ms, i, s))
    && (s.state == Complete ==> exists i: nat, j: nat :: Justified(ctx, ms, i, j, s))
  }

  lemma BeginStep(ctx: Ctx, ms: seq<Msg>, s: Session, m: Msg)
    requires Inv(ctx, ms, s) && IsBegin(m)
    ensures Inv(ctx, ms + [m], OnBegin(ctx, s, m).0)
  {
    hide Authorize, ParsedBegin, ByMeta, IsBegin;
    var s' := OnBegin(ctx, s, m).0;
    var ms', i := ms + [m], |ms|;
    if s'.state == AwaitingData || s'.state == Complete {
      assert BegunAt(ctx, ms', i, s'.authority, s'.begin.value);
      if s'.state == AwaitingData {
        assert ms'[i + 1..] == [];
        assert Receiving(ctx, ms', i, s');
      } else {
        assert Justified(ctx, ms', i, i, s') by {
          if s'.begin.value.deliveryMode == META_URL {
            MetaImageExactly(ctx, s'.begin.value, m.fetch1, m.fetch2, s'.image);
          }
        }
      }
    }
  }

  /** An image is delivered by meta-URL exactly when it is what was fetched, has
      the hash of the begin message, if any, and the meta-payload vouches for it. */
  lemma MetaImageExactly(ctx: Ctx, b: Begin, fetchedMeta: Option<Bytes>, fetchedImage: Option<Bytes>, image: Bytes)
    ensures MetaImage(ctx, b, fetchedMeta, fetchedImage) == Got(image) <==>
            && b.url.Some? && fetchedImage == Some(image)
            && ByMeta(ctx, b, fetchedMeta, ctx.pf.sha256(image))
            && (b.expectedHash.Some? ==> b.expectedHash.value == ctx.pf.sha256(image))
  {
    hide FetchedMeta, Carries;
    forall meta, a
      ensures FetchedMeta(ctx, b, fetchedMeta) == Got((meta, a)) <==> Carries(ctx, b, fetchedMeta, meta, a)
    {
      FetchedMetaExactly(ctx, b, fetchedMeta, meta, a);
    }
    if FetchedMeta(ctx, b, fetchedMeta).Got? {
      var (meta, authenticated) := FetchedMeta(ctx, b, fetchedMeta).value;
      assert Carries(ctx, b, fetchedMeta, meta, authenticated);
      MetaDecisionExactly(b.expectedHash, authenticated, meta.expectedHash);
      var d := MetaHashDecision(b.expectedHash, authenticated, meta.expectedHash);
      if d.Use? {
        assert b.expectedHash.Some? ==> b.expectedHash.value in d.value;
        assert meta.expectedHash.Some? ==> meta.expectedHash.value in d.value;
      }
    }
  }

  lemma DataStep(ctx: Ctx, ms: seq<Msg>, s: Session, m: Msg)
    requires Inv(ctx, ms, s) && IsData(m) && s.state == AwaitingData
    ensures Inv(ctx, ms + [m], OnData(s, m).0)
  {
    hide AcceptedBegin, Chunk, Chunks, IsBegin, IsData;
    EndIsEnd(m);
    var i: nat :| Receiving(ctx, ms, i, s);
    var ms' := ms + [m];
    var s' := OnData(s, m).0;
    assert ms'[i + 1..] == ms[i + 1..] + [m];
    ChunksSnoc(ms[i + 1..], m);
    assert Receiving(ctx, ms', i, s');
  }

  lemma ChunksSnoc(ms: seq<Msg>, m: Msg)
    ensures Chunks(ms + [m]) == Chunks(ms) + ChunkOf(m)
  {
    hide ChunkOf;
    assert (ms + [m])[..|ms|] == ms;
  }

  lemma EndStep(ctx: Ctx, ms: seq<Msg>, s: Session, m: Msg)
    requires Inv(ctx, ms, s) && IsEnd(m) && s.state == AwaitingData
    ensures Inv(ctx, ms + [m], OnEnd(ctx.pf, s, m).0)
  {
    hide AcceptedBegin, EndHash, Chunks, IsBegin, IsData, IsEnd, InlineHashDecision;
    EndIsEnd(m);
    var s' := OnEnd(ctx.pf, s, m).0;
    if s'.state == Complete {
      InlineDecisionExactly(s.authority, s.begin.value.expectedHash, EndHash(m.value, ctx.pf.env.stack).Try(),
                            ctx.pf.sha256(s.image));
      var i: nat :| Receiving(ctx, ms, i, s);
      var ms', j := ms + [m], |ms|;
      assert ms'[i + 1..j] == ms[i + 1..];
      assert Justified(ctx, ms', i, j, s');
    }
  }

  lemma StillReceiving(ctx: Ctx, ms: seq<Msg>, i: nat, s: Session, m: Msg)
    requires Receiving(ctx, ms, i, s) && !IsBegin(m) && !IsData(m)
    ensures Receiving(ctx, ms + [m], i, s)
  {
    hide AcceptedBegin, IsBegin, IsData, Chunks;
    assert (ms + [m])[i + 1..] == ms[i + 1..] + [m];
    ChunksSnoc(ms[i + 1..], m);
    assert Chunks(ms[i + 1..]) + [] == Chunks(ms[i + 1..]);
  }

  lemma StillJustified(ctx: Ctx, ms: seq<Msg>, i: nat, j: nat, s: Session, m: Msg)
    requires Justified(ctx, ms, i, j, s) && !IsBegin(m)
    ensures Justified(ctx, ms + [m], i, j, s)
  {
    hide AcceptedBegin, IsBegin, IsEnd, EndHash, ByMeta, Chunks, SizeOk;
    var ms' := ms + [m];
    assert ms'[i] == ms[i] && ms'[j] == ms[j];
    if i < j { assert ms'[i + 1..j] == ms[i + 1..j]; }
  }

  /** Messages that leave the session alone leave its justification alone. */
  lemma IdleStep(ctx: Ctx, ms: seq<Msg>, s: Session, m: Msg)
    requires Inv(ctx, ms, s) && !IsBegin(m) && (s.state == AwaitingData ==> !IsData(m))
    ensures Inv(ctx, ms + [m], s)
  {
    hide Receiving, Justified, IsBegin, IsData;
    if s.state == AwaitingData {
      var i: nat :| Receiving(ctx, ms, i, s);
      StillReceiving(ctx, ms, i, s, m);
    } else if s.state == Complete {
      var i: nat, j: nat :| Justified(ctx, ms, i, j, s);
      StillJustified(ctx, ms, i, j, s, m);
    }
  }

  /** Every message, in every state, keeps the invariant. */
  lemma StepKeeps(ctx: Ctx, ms: seq<Msg>, s: Session, m: Msg)
    requires Inv(ctx, ms, s)
    ensures Inv(ctx, ms + [m], Process(ctx, s, m).0)
  {
    hide Inv, Authorize, OnBegin, EndHash, Chunk, ParsedSet, IsBegin, IsData, IsEnd, IsSet;
    EndIsEnd(m);
    if s.state == Crashed {
      CrashedStep(ctx, ms, s, m);
    } else if IsBegin(m) {
      BeginStep(ctx, ms, s, m);
    } else if IsData(m) && s.state == AwaitingData {
      DataStep(ctx, ms, s, m);
    } else if IsEnd(m) && s.state == AwaitingData {
      EndStep(ctx, ms, s, m);
    } else {
      IdleStep(ctx, ms, s, m);
      if IsSet(m) { StoppedStep(ctx, ms + [m], s); }
    }
  }

  lemma CrashedStep(ctx: Ctx, ms: seq<Msg>, s: Session, m: Msg)
    requires Inv(ctx, ms, s) && s.state == Crashed
    ensures Inv(ctx, ms + [m], s)
  {
  }

  lemma StoppedStep(ctx: Ctx, ms: seq<Msg>, s: Session)
    requires Inv(ctx, ms, s)
    ensures Inv(ctx, ms, s.(state := Error)) && Inv(ctx, ms, s.(state := Crashed))
  {
  }

  lemma {:induction false} RunInv(ctx: Ctx, ms: seq<Msg>)
    ensures Inv(ctx, ms, Run(ctx, ms))
    decreases |ms|
  {
    hide Process;
    if ms != [] {
      var init, m := ms[..|ms| - 1], ms[|ms| - 1];
      RunInv(ctx, init);
      StepKeeps(ctx, init, Run(ctx, init), m);
      assert init + [m] == ms;
    }
  }

  // ---- what holds of every run ----

  /** A session that any message stream has brought to Complete holds an image
      covered by an authenticated statement. */
  lemma CompleteIsJustified(ctx: Ctx, ms: seq<Msg>)
    requires Run(ctx, ms).state == Complete
    ensures exists i: nat, j: nat :: Justified(ctx, ms, i, j, Run(ctx, ms))
  {
    hide Run, Justified;
    RunInv(ctx, ms);
  }

  /** The messages of one transfer: begin, chunks and end, or a begin whose image
      is fetched. */
  datatype Transfer = Inline(begin: Msg, datas: seq<Msg>, end: Msg) | Fetched(begin: Msg) {
    function Msgs(): seq<Msg> { if Inline? then [begin] + datas + [end] else [begin] }
  }

  /** A transfer in one of the three modes that keeps the rules: the begin is let
      through, nothing in it kills the decoder, and the hash policy settles on the
      hash of `image`. */
  ghost predicate Honest(ctx: Ctx, t: Transfer, authority: Authority, b: Begin, image: Bytes) {
    && IsBegin(t.begin) && AcceptedBegin(ctx, t.begin.value) == Some((authority, b))
    && var h := ctx.pf.sha256(image);
    match t
    case Inline(_, datas, e) =>
      && b.deliveryMode == INLINE && image == Chunks(datas) && SizeOk(b, image)
      && (forall k :: 0 <= k < |datas| ==> IsData(datas[k]) && Chunk(datas[k].value).Got?)
      && IsEnd(e) && !EndHash(e.value, ctx.pf.env.stack).Crash?
      && InlineHashDecision(authority, b.expectedHash, EndHash(e.value, ctx.pf.env.stack).Try()) == Use(h)
    case Fetched(m) =>
      || (b.deliveryMode == URL && b.url.Some? && m.fetch1 == Some(image) && SizeOk(b, image)
          && b.expectedHash == Some(h))
      || (&& b.deliveryMode == META_URL && b.url.Some? && m.fetch2 == Some(image) && ByMeta(ctx, b, m.fetch1, h)
          && (b.expectedHash.Some? ==> b.expectedHash.value == h))
  }

  /** And an honest transfer does complete, whatever came before it, as long as that
      has not stopped the program. */
  lemma HonestTransferCompletes(ctx: Ctx, before: seq<Msg>, t: Transfer, authority: Authority, b: Begin, image: Bytes)
    requires Run(ctx, before).state != Crashed && Honest(ctx, t, authority, b, image)
    ensures var s := Run(ctx, before + t.Msgs());
            s.state == Complete && s.image == image && s.begin == Some(b) && s.authority == authority
  {
    hide Run, Process, AcceptedBegin, EndHash, Chunk, Chunks, IsBegin, IsData, IsEnd, ByMeta, InlineHashDecision;
    if t.Inline? {
      var ms := before + [t.begin] + t.datas;
      HonestData(ctx, before, t.begin, t.datas, authority, b);
      assert before + t.Msgs() == ms + [t.end];
      BytesConserved(ctx, ms);
      RunSnoc(ctx, ms, t.end);
      HonestEnd(ctx, Run(ctx, ms), t.end);
    } else {
      RunSnoc(ctx, before, t.begin);
      HonestFetch(ctx, Run(ctx, before), t.begin, authority, b, image);
    }
  }

  lemma RunSnoc(ctx: Ctx, ms: seq<Msg>, m: Msg)
    ensures Run(ctx, ms + [m]) == Process(ctx, Run(ctx, ms), m).0
  {
    hide Process;
    assert (ms + [m])[..|ms|] == ms;
  }

  lemma HonestEnd(ctx: Ctx, s: Session, e: Msg)
    requires s.state == AwaitingData && s.begin.Some? && IsEnd(e) && !EndHash(e.value, ctx.pf.env.stack).Crash?
    requires SizeOk(s.begin.value, s.image) && s.bytesReceived == |s.image|
    requires InlineHashDecision(s.authority, s.begin.value.expectedHash, EndHash(e.value, ctx.pf.env.stack).Try())
          == Use(ctx.pf.sha256(s.image))
    ensures Process(ctx, s, e).0 == s.(state := Complete)
  {
    hide EndHash, IsBegin, IsData, IsEnd, InlineHashDecision;
    EndIsEnd(e);
  }

  lemma HonestFetch(ctx: Ctx, s: Session, m: Msg, authority: Authority, b: Begin, image: Bytes)
    requires s.state != Crashed && Honest(ctx, Fetched(m), authority, b, image)
    ensures var s' := Process(ctx, s, m).0;
            s'.state == Complete && s'.image == image && s'.begin == Some(b) && s'.authority == authority
  {
    hide Authorize, ParsedBegin, IsBegin, UrlImage, MetaImage, ByMeta;
    UrlImageExactly(ctx.pf, b, m.fetch1, image);
    MetaImageExactly(ctx, b, m.fetch1, m.fetch2, image);
  }

  lemma EndIsEnd(e: Msg)
    ensures IsEnd(e) ==> !IsBegin(e) && !IsData(e)
    ensures IsData(e) ==> !IsBegin(e)
  {
  }

  /** An inline begin that is let through restarts the transfer from any state. */
  lemma HonestBegin(ctx: Ctx, s: Session, m: Msg, authority: Authority, b: Begin)
    requires s.state != Crashed
    requires IsBegin(m) && AcceptedBegin(ctx, m.value) == Some((authority, b)) && b.deliveryMode == INLINE
    ensures Process(ctx, s, m).0 == Session(AwaitingData, Some(b), [], 0, 0, authority)
  {
    hide Authorize, ParsedBegin, IsBegin, IsData, IsEnd, IsSet;
  }

  lemma {:induction false} HonestData(ctx: Ctx, before: seq<Msg>, m: Msg, datas: seq<Msg>, authority: Authority,
                                      b: Begin)
    requires Run(ctx, before).state != Crashed
    requires IsBegin(m) && AcceptedBegin(ctx, m.value) == Some((authority, b)) && b.deliveryMode == INLINE
    requires forall k :: 0 <= k < |datas| ==> IsData(datas[k]) && Chunk(datas[k].value).Got?
    ensures var s := Run(ctx, before + [m] + datas);
            s.state == AwaitingData && s.image == Chunks(datas) && s.begin == Some(b) && s.authority == authority
    decreases |datas|
  {
    hide Run, AcceptedBegin, OnBegin, OnEnd, OnSet, Chunk, IsBegin, IsData, IsEnd, IsSet;
    if datas == [] {
      assert before + [m] + datas == before + [m];
      RunSnoc(ctx, before, m);
      HonestBegin(ctx, Run(ctx, before), m, authority, b);
    } else {
      var init, d := datas[..|datas| - 1], datas[|datas| - 1];
      HonestData(ctx, before, m, init, authority, b);
      assert before + [m] + datas == before + [m] + init + [d];
      RunSnoc(ctx, before + [m] + init, d);
      EndIsEnd(d);
    }
  }

  // ---- an inline transfer, byte for byte ----

  function Flatten(bs: seq<Bytes>): Bytes {
    if bs == [] then [] else Flatten(bs[..|bs| - 1]) + bs[|bs| - 1]
  }

  /** A data message that carries `b` as one byte string, under a head of any width. */
  ghost predicate IsPiece(m: Msg, b: Bytes) {
    IsData(m) && exists h :: HeadOf(Fdo, h, 2, |b|) && m.value == h.Bytes() + b
  }

  ghost predicate Pieces(datas: seq<Msg>, bs: seq<Bytes>) {
    |datas| == |bs| && forall k :: 0 <= k < |bs| ==> IsPiece(datas[k], bs[k])
  }

  lemma PieceMeans(m: Msg, b: Bytes)
    requires IsPiece(m, b)
    ensures IsData(m) && Chunk(m.value) == Got(b)
  {
    hide HeadOf, Chunk, IsData;
    var h :| HeadOf(Fdo, h, 2, |b|) && m.value == h.Bytes() + b;
    assert h.Bytes() + b + [] == h.Bytes() + b;
    ChunkOfString(h, b, []);
  }

  lemma {:induction false} PiecesAreImage(datas: seq<Msg>, bs: seq<Bytes>)
    requires Pieces(datas, bs)
    ensures Chunks(datas) == Flatten(bs)
    ensures forall k :: 0 <= k < |datas| ==> IsData(datas[k]) && Chunk(datas[k].value).Got?
    decreases |bs|
  {
    hide IsPiece, Chunk, IsData;
    forall k | 0 <= k < |datas| ensures IsData(datas[k]) && Chunk(datas[k].value) == Got(bs[k]) {
      PieceMeans(datas[k], bs[k]);
    }
    if bs != [] { PiecesAreImage(datas[..|bs| - 1], bs[..|bs| - 1]); }
  }

  /** An image-end message as it is printed: a map with the hash, or nothing. */
  function EndBytes(endHash: Option<Bytes>): Bytes {
    if endHash.Some? then FdoHead(5, 1) + (KeyBytes(1) + FdoBstr(endHash.value)) else []
  }

  lemma EndBytesRead(endHash: Option<Bytes>, stack: nat)
    requires endHash.Some? ==> |endHash.value| < 65536
    ensures EndHash(EndBytes(endHash), stack) == Need(endHash)
  {
    hide KeyBytes, FdoBstr, FdoHead, EndHashFrom;
    if endHash.Some? {
      var tail := KeyBytes(1) + FdoBstr(endHash.value);
      assert KeyItems([]) + tail == tail;
      assert FdoHead(5, 1) + (KeyItems([]) + tail) + [] == EndBytes(endHash);
      EndHashRoundTrip(1, [], endHash.value, [], stack);
    }
  }

  /** The whole inline transfer: begun under `authority`, pieces sent, end sent. It
      completes, with exactly the pieces as its image, if and only if the size is
      the announced one and the hash of the pieces is the one in the begin message,
      not contradicted by the end, or, for an unsigned begin without a hash, the one
      in the end. Otherwise it ends in Error. */
  lemma InlineTransferExactly(ctx: Ctx, before: seq<Msg>, m: Msg, datas: seq<Msg>, bs: seq<Bytes>, e: Msg,
                              endHash: Option<Bytes>, authority: Authority, b: Begin)
    requires Run(ctx, before).state != Crashed
    requires IsBegin(m) && AcceptedBegin(ctx, m.value) == Some((authority, b)) && b.deliveryMode == INLINE
    requires Pieces(datas, bs) && IsEnd(e) && e.value == EndBytes(endHash)
    requires endHash.Some? ==> |endHash.value| < 65536
    ensures var s, image := Run(ctx, before + [m] + datas + [e]), Flatten(bs);
            var h := ctx.pf.sha256(image);
            && s.image == image && s.bytesReceived == |image|
            && s.state == (if && (b.totalSize > 0 ==> |image| == b.totalSize)
                              && if b.expectedHash.Some?
                                 then b.expectedHash.value == h && (endHash.Some? ==> endHash.value == h)
                                 else authority != Artifact && endHash == Some(h)
                           then Complete else Error)
  {
    hide Run, Process, AcceptedBegin, EndHash, EndBytes, Chunk, Chunks, IsBegin, IsData, IsEnd, Pieces;
    PiecesAreImage(datas, bs);
    HonestData(ctx, before, m, datas, authority, b);
    var ms := before + [m] + datas;
    BytesConserved(ctx, ms);
    RunSnoc(ctx, ms, e);
    EndBytesRead(endHash, ctx.pf.env.stack);
    EndMeans(ctx, Run(ctx, ms), e, b, endHash);
  }

  lemma EndMeans(ctx: Ctx, s: Session, e: Msg, b: Begin, endHash: Option<Bytes>)
    requires s.state == AwaitingData && s.begin == Some(b) && s.bytesReceived == |s.image|
    requires IsEnd(e) && EndHash(e.value, ctx.pf.env.stack) == Need(endHash)
    ensures var s', h := Process(ctx, s, e).0, ctx.pf.sha256(s.image);
            && s'.image == s.image && s'.bytesReceived == s.bytesReceived
            && s'.state == (if && (b.totalSize > 0 ==> |s.image| == b.totalSize)
                               && if b.expectedHash.Some?
                                  then b.expectedHash.value == h && (endHash.Some? ==> endHash.value == h)
                                  else s.authority != Artifact && endHash == Some(h)
                            then Complete else Error)
  {
    hide EndHash, IsBegin, IsData, IsEnd;
    EndIsEnd(e);
  }

  /** A mode that does not exist ends the session in Error. */
  lemma UnknownModeFails(ctx: Ctx, s: Session, m: Msg, authority: Authority, b: Begin)
    requires s.state != Crashed && IsBegin(m)
    requires AcceptedBegin(ctx, m.value) == Some((authority, b)) && b.deliveryMode > 2
    ensures Process(ctx, s, m).0.state == Error
  {
    hide Authorize, ParsedBegin, IsBegin;
  }

  // ---- what the peer is told, and settings ----

  /** Success is reported exactly by the message that completes a transfer. */
  lemma SuccessReportedExactly(ctx: Ctx, s: Session, m: Msg)
    ensures Process(ctx, s, m).1 == Some(ImageResult(true)) <==>
            Process(ctx, s, m).0.state == Complete && (IsBegin(m) || (IsEnd(m) && s.state == AwaitingData))
  {
    hide Authorize, ParsedBegin, ParsedSet, UrlImage, MetaImage, EndHash, Chunk, IsBegin, IsData, IsEnd, IsSet;
    EndIsEnd(m);
  }

  /** A settings message leaves the session as it is, if it is signed for the owner
      or comes from a peer that may provision, and ends it in Error otherwise. Only
      reading the settings can still kill the program. */
  lemma SetStep(ctx: Ctx, s: Session, m: Msg)
    requires IsSet(m) && s.state != Crashed
    ensures var allowed :=
              if IsTag18(m.value) then
                ctx.owner.Some? && exists payload ::
                  Provisioned(ctx.pf, m.value, ctx.owner.value, Ascii("application/cbor+fdo.bmo.set"), ctx.guid,
                              payload)
              else
                ctx.peer == OwnerDirect || ctx.peer == DelegatePeer(true) || (ctx.peer == NoPeer && ctx.owner.None?);
            var input := ParsedInput(Authorize(ctx, m.value, CT_SET).1, m.value);
            Process(ctx, s, m).0 == s.(state := if !allowed then Error
                                               else if ParsedSet(ctx.pf.env, input) == Crash then Crashed else s.state)
  {
    hide Authorize, BmoPayload, Provisioned, CT_SET, ParsedSet;
    AuthorizationMatrix(ctx, m.value, CT_SET);
    assert CT_SET == Ascii("application/cbor+fdo.bmo.set") by { ContentTypeOfSet(); }
    if IsTag18(m.value) && ctx.owner.Some? {
      forall payload
        ensures BmoPayload(ctx.pf, m.value, ctx.owner.value, CT_SET, ctx.guid) == Some(payload) <==>
                Provisioned(ctx.pf, m.value, ctx.owner.value, CT_SET, ctx.guid, payload)
      {
        BmoPayloadExactly(ctx.pf, m.value, ctx.owner.value, CT_SET, ctx.guid, payload);
      }
    }
  }

  lemma ContentTypeOfSet() ensures CT_SET == Ascii("application/cbor+fdo.bmo.set") { }

  // ---- sessions that do not crash ----

  /** The message, and the meta-payload it may fetch, are calm. */
  predicate CalmMsg(stack: nat, m: Msg) {
    Calm(m.value, stack) && (m.fetch1.Some? ==> Calm(m.fetch1.value, stack))
  }

  lemma CalmBegin(ctx: Ctx, m: Msg)
    requires CalmMsg(ctx.pf.env.stack, m)
    ensures var (auth, inner) := Authorize(ctx, m.value, CT_BEGIN);
            ParsedBegin(ctx.pf.env, ParsedInput(inner, m.value)) != Crash
  {
    hide Calm, ParseSign1, ReadFields, ReadMapLen, BeginOf;
    var (auth, inner) := Authorize(ctx, m.value, CT_BEGIN);
    var data := ParsedInput(inner, m.value);
    if inner.Some? { CalmPayload(m.value, ctx.pf.env.stack); }
    var h := ReadMapLen(data, 0);
    if h.Got? { CalmFields(ctx.pf.env, BeginKinds, data, h.value.1, h.value.0, map[], []); }
  }

  lemma CalmMeta(ctx: Ctx, b: Begin, m: Msg)
    requires CalmMsg(ctx.pf.env.stack, m)
    ensures MetaImage(ctx, b, m.fetch1, m.fetch2) != Crash
  {
    hide Calm, ParseSign1, ReadFields, ReadMapLen;
    if FetchedMeta(ctx, b, m.fetch1) == Crash {
      var data := m.fetch1.value;
      var (inner, _) := AuthenticateMeta(ctx.pf, data, b.metaSigner, ctx.owner).value;
      if inner != data { CalmPayload(data, ctx.pf.env.stack); }
      var h := ReadMapLen(inner, 0);
      if h.Got? { CalmFields(ctx.pf.env, MetaKinds, inner, h.value.1, h.value.0, map[], []); }
    }
  }

  lemma {:induction false} CalmEnd(data: Bytes, pos: nat, n: nat, stack: nat)
    requires Calm(data, stack)
    ensures EndHashFrom(data, pos, n, stack) != Crash
    decreases n
  {
    hide Calm, ReadInt32, ReadString, Walk;
    if n > 0 {
      var k := ReadInt32(data, pos);
      if k.Got? {
        CalmNeverCrashes(data, k.value.1, stack);
        var q := Walk(data, k.value.1, stack);
        if q.Got? { CalmEnd(data, q.value, n - 1, stack); }
      }
    }
  }

  lemma {:induction false} CalmPairs(env: Env, data: Bytes, pos: nat, n: nat)
    requires Calm(data, env.stack)
    ensures SetPairs(env, data, pos, n) != Crash
    decreases n
  {
    hide Calm, ReadLen, ReadString;
    if n > 0 {
      var two := ReadLen(data, pos, 4);
      if two.Got? {
        CalmNeverCrashes(data, two.value.1, env.stack);
        var name := ReadText(env.utf8, data, two.value.1);
        if name.Got? {
          CalmNeverCrashes(data, name.value.1, env.stack);
          var value := ReadText(env.utf8, data, name.value.1);
          if value.Got? { CalmPairs(env, data, value.value.1, n - 1); }
        }
      }
    }
  }

  lemma CalmSet(ctx: Ctx, m: Msg)
    requires CalmMsg(ctx.pf.env.stack, m)
    ensures var (auth, inner) := Authorize(ctx, m.value, CT_SET);
            ParsedSet(ctx.pf.env, ParsedInput(inner, m.value)) != Crash
  {
    hide Calm, ParseSign1, SetPairs, ReadLen;
    var (auth, inner) := Authorize(ctx, m.value, CT_SET);
    var data := ParsedInput(inner, m.value);
    if inner.Some? { CalmPayload(m.value, ctx.pf.env.stack); }
    var h := ReadLen(data, 0, 4);
    if h.Got? { CalmPairs(ctx.pf.env, data, h.value.1, h.value.0); }
  }

  lemma CalmStep(ctx: Ctx, s: Session, m: Msg)
    requires s.state != Crashed && CalmMsg(ctx.pf.env.stack, m)
    ensures Process(ctx, s, m).0.state != Crashed
  {
    hide Calm, Authorize, ParsedBegin, ParsedSet, MetaImage, EndHashFrom, ReadMapLen, ReadString, IsBegin, IsData,
      IsEnd, IsSet;
    if IsBegin(m) {
      CalmBegin(ctx, m);
      var b := ParsedBegin(ctx.pf.env, ParsedInput(Authorize(ctx, m.value, CT_BEGIN).1, m.value));
      if b.Got? { CalmMeta(ctx, b.value, m); }
    } else {
      CalmSet(ctx, m);
      CalmNeverCrashes(m.value, 0, ctx.pf.env.stack);
      var h := ReadMapLen(m.value, 0);
      if h.Got? { CalmEnd(m.value, h.value.1, h.value.0, ctx.pf.env.stack); }
    }
  }

  /** A session that is fed calm messages, whatever they say, never crashes. */
  lemma {:induction false} CalmRun(ctx: Ctx, ms: seq<Msg>)
    requires forall k :: 0 <= k < |ms| ==> CalmMsg(ctx.pf.env.stack, ms[k])
    ensures Run(ctx, ms).state != Crashed
    decreases |ms|
  {
    hide Process, CalmMsg;
    if ms != [] {
      CalmRun(ctx, ms[..|ms| - 1]);
      CalmStep(ctx, Run(ctx, ms[..|ms| - 1]), ms[|ms| - 1]);
    }
  }

  /** Nothing is lost or counted twice: the counter always equals the buffer. */
  lemma BytesConserved(ctx: Ctx, ms: seq<Msg>)
    ensures Run(ctx, ms).bytesReceived == |Run(ctx, ms).image|
  {
    hide Run, Justified, Receiving;
    RunInv(ctx, ms);
  }

  /** `value` is a signed image-begin that says `b`. */
  ghost predicate SignedBegin(ctx: Ctx, value: Bytes, b: Begin) {
    && IsTag18(value) && ctx.owner.Some?
    && exists payload ::
         && Provisioned(ctx.pf, value, ctx.owner.value, Ascii("application/cbor+fdo.bmo.image-begin"), ctx.guid,
                        payload)
         && ParsedBegin(ctx.pf.env, payload) == Got(b)
  }

  /** Exactly the begin messages that are let through, and under which authority. A
      tagged one must be signed for the owner, and commit to its image if that comes
      inline; an untagged one needs a peer that is the owner or may provision, or a
      device that knows no owner. */
  lemma AcceptedBeginExactly(ctx: Ctx, value: Bytes, authority: Authority, b: Begin)
    ensures AcceptedBegin(ctx, value) == Some((authority, b)) <==>
            match authority
            case Artifact => SignedBegin(ctx, value, b) && (b.deliveryMode == INLINE ==> b.expectedHash.Some?)
            case Channel =>
              && !IsTag18(value) && (ctx.peer == OwnerDirect || ctx.peer == DelegatePeer(true))
              && ParsedBegin(ctx.pf.env, value) == Got(b)
            case Unauthenticated =>
              !IsTag18(value) && ctx.peer == NoPeer && ctx.owner.None? && ParsedBegin(ctx.pf.env, value) == Got(b)
  {
    hide Authorize, BmoPayload, ParsedBegin, Provisioned, CT_BEGIN;
    AuthorizationMatrix(ctx, value, CT_BEGIN);
    if IsTag18(value) && ctx.owner.Some? {
      var owner := ctx.owner.value;
      forall payload
        ensures BmoPayload(ctx.pf, value, owner, CT_BEGIN, ctx.guid) == Some(payload) <==>
                Provisioned(ctx.pf, value, owner, Ascii("application/cbor+fdo.bmo.image-begin"), ctx.guid, payload)
      {
        BmoPayloadExactly(ctx.pf, value, owner, CT_BEGIN, ctx.guid, payload);
        ContentTypeOfBegin();
      }
    }
  }

  lemma ContentTypeOfBegin() ensures CT_BEGIN == Ascii("application/cbor+fdo.bmo.image-begin") { }

  /** What the authority under which a transfer was begun proves. */
  lemma BegunAuthority(ctx: Ctx, ms: seq<Msg>, i: nat, authority: Authority, b: Begin)
    requires BegunAt(ctx, ms, i, authority, b)
    ensures authority == Artifact <==> IsTag18(ms[i].value)
    ensures authority == Artifact ==>
              SignedBegin(ctx, ms[i].value, b) && (b.deliveryMode == INLINE ==> b.expectedHash.Some?)
    ensures authority == Channel <==>
            !IsTag18(ms[i].value) && (ctx.peer == OwnerDirect || ctx.peer == DelegatePeer(true))
    ensures authority == Unauthenticated ==> ctx.peer == NoPeer && ctx.owner.None?
    ensures authority != Artifact ==> ParsedBegin(ctx.pf.env, ms[i].value) == Got(b)
  {
    hide AcceptedBegin, SignedBegin, ParsedBegin, IsBegin;
    AcceptedBeginExactly(ctx, ms[i].value, authority, b);
    assert SignedBegin(ctx, ms[i].value, b) ==> IsTag18(ms[i].value) by { SignedIsTagged(ctx, ms[i].value, b); }
  }

  lemma SignedIsTagged(ctx: Ctx, value: Bytes, b: Begin)
    ensures SignedBegin(ctx, value, b) ==> IsTag18(value)
  {
    hide Provisioned, ParsedBegin;
  }

  /** Message `i` is an image-begin signed by the owner or a provisioning delegate
      of the owner, it says `b`, and what it says covers an image with hash `h`:
      by the hash in it, or, for a meta-URL, by the meta-payload it points to. */
  ghost predicate SignedFor(ctx: Ctx, ms: seq<Msg>, i: nat, b: Begin, h: Bytes) {
    && i < |ms| && IsBegin(ms[i]) && SignedBegin(ctx, ms[i].value, b)
    && (b.deliveryMode == INLINE || b.deliveryMode == URL ==> b.expectedHash == Some(h))
    && (b.deliveryMode == META_URL ==>
          (b.expectedHash.Some? ==> b.expectedHash.value == h) && ByMeta(ctx, b, ms[i].fetch1, h))
    && b.deliveryMode <= META_URL
  }

  /** A delegate without the provisioning permission can complete a session only
      by relaying an image-begin that the owner, or a provisioning delegate of
      the owner, signed, and only with an image that this message covers. */
  lemma OnboardOnlyDelegate(ctx: Ctx, ms: seq<Msg>)
    requires ctx.owner.Some? && ctx.peer == DelegatePeer(false) && Run(ctx, ms).state == Complete
    ensures var s := Run(ctx, ms);
            && s.authority == Artifact && s.begin.Some?
            && exists i: nat :: SignedFor(ctx, ms, i, s.begin.value, ctx.pf.sha256(s.image))
  {
    hide Run, SignedBegin, AcceptedBegin, IsBegin, ByMeta, ByChunks;
    CompleteIsJustified(ctx, ms);
    var s := Run(ctx, ms);
    var i: nat, j: nat :| Justified(ctx, ms, i, j, s);
    BegunAuthority(ctx, ms, i, s.authority, s.begin.value);
    UnsignedIsNeverArtifact(ctx, ms, i, s.authority, s.begin.value);
    assert SignedFor(ctx, ms, i, s.begin.value, ctx.pf.sha256(s.image));
  }

  lemma UnsignedIsNeverArtifact(ctx: Ctx, ms: seq<Msg>, i: nat, authority: Authority, b: Begin)
    requires BegunAt(ctx, ms, i, authority, b) && ctx.owner.Some? && ctx.peer == DelegatePeer(false)
    ensures authority == Artifact
  {
    hide AcceptedBegin, SignedBegin, ParsedBegin, IsBegin;
    BegunAuthority(ctx, ms, i, authority, b);
  }
}
