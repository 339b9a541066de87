/**
 Delivery rules shared by every transfer (chunking.rs): how a begin message was
 authorised, which hash must cover the image, the meta-payload and what an
 unauthenticated one may say, and the keyed maps both messages are.
 */
module Chunking {
  import opened Base
  import opened Cbor
  import opened Cursor
  import opened CoseSign1
  import opened Platforms
  import opened FdoCodec
  import opened Artifacts
  import Voucher

  datatype Authority = Artifact | Channel | Unauthenticated

  datatype HashPolicyError =
    BeginEndDisagree | SignedWithoutHash | NoHash | UnauthenticatedSource | InstructionFromUnauthenticatedMeta

  datatype Decision<+T> = Use(value: T) | Refuse(reason: HashPolicyError)

  // ---- hash decisions ----

  function InlineHashDecision(authority: Authority, beginHash: Option<Bytes>, endHash: Option<Bytes>): Decision<Bytes> {
    if beginHash.Some? && endHash.Some? && beginHash != endHash then Refuse(BeginEndDisagree)
    else if authority == Artifact && beginHash.None? then Refuse(SignedWithoutHash)
    else if beginHash.Some? then Use(beginHash.value)
    else if endHash.Some? then Use(endHash.value)
    else Refuse(NoHash)
  }

  function UrlHashDecision(beginHash: Option<Bytes>): Decision<Bytes> {
    if beginHash.Some? then Use(beginHash.value) else Refuse(UnauthenticatedSource)
  }

  function MetaHashDecision(beginHash: Option<Bytes>, authenticated: bool, metaHash: Option<Bytes>)
    : Decision<seq<Bytes>>
  {
    if !(beginHash.Some? || (authenticated && metaHash.Some?)) then Refuse(UnauthenticatedSource)
    else Use((if beginHash.Some? then [beginHash.value] else []) + (if metaHash.Some? then [metaHash.value] else []))
  }

  /** The whole inline table: a hash is used exactly when nobody contradicts it
      and it either stands in the begin message or arrived over an owner-bound
      channel; a refusal always means one of the three gaps. */
  lemma InlineDecisionExactly(authority: Authority, b: Option<Bytes>, e: Option<Bytes>, h: Bytes)
    ensures InlineHashDecision(authority, b, e) == Use(h) <==>
            (b == Some(h) && (e == None || e == Some(h))) || (b == None && e == Some(h) && authority != Artifact)
  {
  }

  /** A meta plan names every hash that was given, and at least one that is
      authenticated. */
  lemma MetaDecisionExactly(b: Option<Bytes>, authenticated: bool, m: Option<Bytes>)
    ensures var d := MetaHashDecision(b, authenticated, m);
            && (d.Use? <==> b.Some? || (authenticated && m.Some?))
            && (d.Use? ==> forall h :: h in d.value <==> b == Some(h) || m == Some(h))
  {
  }

  // ---- keyed maps ----

  datatype Value = Num(n: nat) | Text(t: Bytes) | Blob(b: Bytes) | Flag(f: bool)
  datatype Kind = KNum | KText | KBlob | KFlag | KSkip

  type Fields = map<int, Value>

  function ReadValue(env: Env, data: Bytes, pos: nat, kind: Kind): Read<(Option<Value>, nat)> {
    match kind
    case KNum => var (n, p) :- ReadLen(data, pos, 0); Got((Some(Num(n)), p))
    case KText => var (t, p) :- ReadText(env.utf8, data, pos); Got((Some(Text(t)), p))
    case KBlob => var (b, p) :- ReadString(data, pos, 2); Got((Some(Blob(b)), p))
    case KFlag =>
      if pos < |data| && (data[pos] == 0xf4 || data[pos] == 0xf5)
      then Got((Some(Flag(data[pos] == 0xf5)), pos + 1)) else Bad
    case KSkip => var p :- Walk(data, pos, env.stack); Got((None, p))
  }

  /** `n` pairs from `pos`; a later value for a key replaces an earlier one, and
      the keys whose values are skipped are collected. */
  function ReadFields(env: Env, kinds: int -> Kind, data: Bytes, pos: nat, n: nat, f: Fields, extra: seq<int>)
    : Read<(Fields, seq<int>)>
    decreases n
  {
    if n == 0 then Got((f, extra))
    else
      var (key, p) :- ReadInt32(data, pos);
      var (v, q) :- ReadValue(env, data, p, kinds(key));
      if v.Some? then ReadFields(env, kinds, data, q, n - 1, f[key := v.value], extra)
      else ReadFields(env, kinds, data, q, n - 1, f, extra + [key])
  }

  function FieldsOf(env: Env, kinds: int -> Kind, data: Bytes): Read<(Fields, seq<int>)> {
    var (n, p) :- ReadMapLen(data, 0);
    ReadFields(env, kinds, data, p, n, map[], [])
  }

  /** The parsing loop of both messages. */
  method ParseFields(env: Env, kinds: int -> Kind, data: Bytes) returns (r: Read<(Fields, seq<int>)>)
    ensures r == FieldsOf(env, kinds, data)
  {
    hide ReadMapLen, ReadInt32, ReadValue;
    var h := ReadMapLen(data, 0);
    if !h.Got? { return h.PropagateFailure(); }
    var f: Fields, extra: seq<int> := map[], [];
    var n, pos, i := h.value.0, h.value.1, 0;
    while i < n
      invariant i <= n
      invariant FieldsOf(env, kinds, data) == ReadFields(env, kinds, data, pos, n - i, f, extra)
    {
      var key := ReadInt32(data, pos);
      if !key.Got? { return key.PropagateFailure(); }
      var v := ReadValue(env, data, key.value.1, kinds(key.value.0));
      if !v.Got? { return v.PropagateFailure(); }
      pos := v.value.1;
      if v.value.0.Some? {
        f := f[key.value.0 := v.value.0.value];
      } else {
        extra := extra + [key.value.0];
      }
      i := i + 1;
    }
    return Got((f, extra));
  }

  /** Calm bytes never crash the loop. */
  lemma {:induction false} CalmFields(env: Env, kinds: int -> Kind, data: Bytes, pos: nat, n: nat, f: Fields,
                                      extra: seq<int>)
    requires Calm(data, env.stack)
    ensures ReadFields(env, kinds, data, pos, n, f, extra) != Crash
    decreases n
  {
    hide Calm, ReadHead, ReadString, Walk;
    if n > 0 {
      var k := ReadInt32(data, pos);
      if k.Got? {
        CalmNeverCrashes(data, k.value.1, env.stack);
        var v := ReadValue(env, data, k.value.1, kinds(k.value.0));
        if v.Got? {
          if v.value.0.Some? {
            CalmFields(env, kinds, data, v.value.1, n - 1, f[k.value.0 := v.value.0.value], extra);
          } else {
            CalmFields(env, kinds, data, v.value.1, n - 1, f, extra + [k.value.0]);
          }
        }
      }
    }
  }

  // ---- reading back a printed map ----

  /** A key in two bytes and a value of the kind the key calls for. */
  predicate PairOk(env: Env, kinds: int -> Kind, key: int, v: Value) {
    && -65536 <= key < 65536
    && match v
       case Num(n) => kinds(key) == KNum && n < 65536
       case Text(t) => kinds(key) == KText && env.utf8(t) && |t| < 65536
       case Blob(b) => kinds(key) == KBlob && |b| < 65536
       case Flag(_) => kinds(key) == KFlag
  }

  function KeyBytes(key: int): Bytes { if key >= 0 then FdoHead(0, key) else FdoHead(1, -1 - key) }

  function ValueBytes(v: Value): Bytes {
    match v
    case Num(n) => FdoHead(0, n)
    case Text(t) => FdoTstr(t)
    case Blob(b) => FdoBstr(b)
    case Flag(f) => [if f then 0xf5 else 0xf4]
  }

  function PairsBytes(ps: seq<(int, Value)>): Bytes {
    if ps == [] then [] else KeyBytes(ps[0].0) + ValueBytes(ps[0].1) + PairsBytes(ps[1..])
  }

  /** The fields a list of pairs stands for: the last value of each key. */
  function Collect(f: Fields, ps: seq<(int, Value)>): Fields
    decreases |ps|
  {
    if ps == [] then f else Collect(f[ps[0].0 := ps[0].1], ps[1..])
  }

  lemma KeyAt(data: Bytes, pos: nat, key: int)
    requires -65536 <= key < 65536 && At(data, pos, KeyBytes(key))
    ensures ReadInt32(data, pos) == Got((key, pos + |KeyBytes(key)|))
  {
    hide ReadHead, FdoHead;
    if key >= 0 { FdoHeadAt(0, key, data, pos); } else { FdoHeadAt(1, -1 - key, data, pos); }
  }

  lemma ValueAt(env: Env, kinds: int -> Kind, data: Bytes, pos: nat, key: int, v: Value)
    requires PairOk(env, kinds, key, v) && At(data, pos, ValueBytes(v))
    ensures ReadValue(env, data, pos, kinds(key)) == Got((Some(v), pos + |ValueBytes(v)|))
  {
    hide ReadHead, FdoHead, ReadString, Walk;
    match v
    case Num(n) => FdoHeadAt(0, n, data, pos);
    case Text(t) => StringAt(3, data, pos, t);
    case Blob(b) => StringAt(2, data, pos, b);
    case Flag(f) => assert data[pos] == data[pos..pos + 1][0];
  }

  lemma {:induction false} PairsAt(env: Env, kinds: int -> Kind, data: Bytes, pos: nat, ps: seq<(int, Value)>,
                                   f: Fields, extra: seq<int>)
    requires (forall i :: 0 <= i < |ps| ==> PairOk(env, kinds, ps[i].0, ps[i].1)) && At(data, pos, PairsBytes(ps))
    ensures ReadFields(env, kinds, data, pos, |ps|, f, extra) == Got((Collect(f, ps), extra))
    decreases |ps|
  {
    hide ReadInt32, ReadValue, KeyBytes, ValueBytes;
    if ps != [] {
      var (key, v) := ps[0];
      assert PairOk(env, kinds, key, v);
      AtConcat(data, pos, KeyBytes(key) + ValueBytes(v), PairsBytes(ps[1..]));
      AtConcat(data, pos, KeyBytes(key), ValueBytes(v));
      KeyAt(data, pos, key);
      var p := pos + |KeyBytes(key)|;
      ValueAt(env, kinds, data, p, key, v);
      PairsAt(env, kinds, data, p + |ValueBytes(v)|, ps[1..], f[key := v], extra);
    }
  }

  /** A printed map of known keys parses to the last value of each key, with
      nothing left over, whatever bytes follow it. */
  lemma FieldsRoundTrip(env: Env, kinds: int -> Kind, ps: seq<(int, Value)>, after: Bytes)
    requires |ps| < 65536 && forall i :: 0 <= i < |ps| ==> PairOk(env, kinds, ps[i].0, ps[i].1)
    ensures FieldsOf(env, kinds, FdoHead(5, |ps|) + PairsBytes(ps) + after) == Got((Collect(map[], ps), []))
  {
    hide ReadFields, PairsBytes, PairOk, ReadMapLen, FdoHead;
    var h := FdoHead(5, |ps|);
    var data := h + PairsBytes(ps) + after;
    assert data[0..|h|] == h;
    MapLenAt(data, |ps|);
    AtPrefix(h, PairsBytes(ps), after);
    PairsAt(env, kinds, data, |h|, ps, map[], []);
  }

  lemma MapLenAt(data: Bytes, n: nat)
    requires n < 65536 && At(data, 0, FdoHead(5, n))
    ensures ReadMapLen(data, 0) == Got((n, |FdoHead(5, n)|))
  {
    hide ReadHead;
    FdoHeadAt(5, n, data, 0);
    assert data[0] == data[0..|FdoHead(5, n)|][0] && FdoHead(5, n)[0] % 32 <= 25;
  }

  function GetText(f: Fields, key: int): Option<Bytes> {
    if key in f && f[key].Text? then Some(f[key].t) else None
  }

  function GetBlob(f: Fields, key: int): Option<Bytes> {
    if key in f && f[key].Blob? then Some(f[key].b) else None
  }

  function GetNum(f: Fields, key: int): Option<nat> {
    if key in f && f[key].Num? then Some(f[key].n) else None
  }

  /** Merge a generic field with its legacy alias; None is a malformed message. */
  function MergeAlias<T(==)>(generic: Option<T>, legacy: Option<T>): Option<Option<T>> {
    if generic.Some? && legacy.Some? && generic != legacy then None
    else if generic.Some? then Some(generic)
    else Some(legacy)
  }

  // ---- the meta-payload ----

  datatype MetaPayload = MetaPayload(mimeType: Bytes, url: Bytes, tlsCa: Option<Bytes>, expectedHash: Option<Bytes>,
                                     bootArgs: Option<Bytes>, extraKeys: seq<int>) {
    /** Fields that change what the device trusts or does. */
    predicate HasInstructions() { tlsCa.Some? || bootArgs.Some? || extraKeys != [] }
  }

  function MetaKinds(key: int): Kind {
    if key == 2 || key == 4 then KBlob else if 0 <= key <= 8 then KText else KSkip
  }

  function MetaOf(env: Env, data: Bytes): Read<MetaPayload> {
    var (f, extra) :- FieldsOf(env, MetaKinds, data);
    var mimeType :- Need(GetText(f, 0));
    var url :- Need(GetText(f, 1));
    Got(MetaPayload(mimeType, url, GetBlob(f, 2), GetBlob(f, 4), GetText(f, 5), extra))
  }

  /** A list of optional pairs, without the absent ones. */
  function Present(ps: seq<(int, Option<Value>)>): seq<(int, Value)> {
    if ps == [] then []
    else (if ps[0].1.Some? then [(ps[0].0, ps[0].1.value)] else []) + Present(ps[1..])
  }

  predicate AllOk(env: Env, kinds: int -> Kind, ps: seq<(int, Option<Value>)>) {
    forall i :: 0 <= i < |ps| && ps[i].1.Some? ==> PairOk(env, kinds, ps[i].0, ps[i].1.value)
  }

  predicate DistinctKeys(ps: seq<(int, Option<Value>)>) {
    forall i, j :: 0 <= i < j < |ps| ==> ps[i].0 != ps[j].0
  }

  lemma {:induction false} PresentOk(env: Env, kinds: int -> Kind, ps: seq<(int, Option<Value>)>)
    requires AllOk(env, kinds, ps)
    ensures |Present(ps)| <= |ps|
    ensures forall i :: 0 <= i < |Present(ps)| ==> PairOk(env, kinds, Present(ps)[i].0, Present(ps)[i].1)
  {
    hide PairOk;
    if ps != [] { PresentOk(env, kinds, ps[1..]); }
  }

  /** Each key holds its value, or nothing if that is absent. */
  ghost predicate Holds(f: Fields, key: int, v: Option<Value>) {
    if v.Some? then key in f && f[key] == v.value else key !in f
  }

  lemma {:induction false} CollectPresent(f: Fields, ps: seq<(int, Option<Value>)>)
    requires DistinctKeys(ps) && forall i :: 0 <= i < |ps| ==> ps[i].0 !in f
    ensures forall i :: 0 <= i < |ps| ==> Holds(Collect(f, Present(ps)), ps[i].0, ps[i].1)
    ensures forall k :: (forall i :: 0 <= i < |ps| ==> ps[i].0 != k) ==>
              (k in Collect(f, Present(ps)) <==> k in f) && (k in f ==> Collect(f, Present(ps))[k] == f[k])
    decreases |ps|
  {
    if ps != [] {
      var (key, v) := ps[0];
      var rest := ps[1..];
      var f' := if v.Some? then f[key := v.value] else f;
      CollectPresent(f', rest);
      assert Present(ps) == (if v.Some? then [(key, v.value)] else []) + Present(rest);
      assert if v.Some? then Present(ps)[1..] == Present(rest) else Present(ps) == Present(rest);
      assert Collect(f, Present(ps)) == Collect(f', Present(rest));
    }
  }

  function PrintMap(ps: seq<(int, Option<Value>)>): Bytes { FdoHead(5, |Present(ps)|) + PairsBytes(Present(ps)) }

  /** A printed record of optional fields comes back field by field. */
  lemma RecordRoundTrip(env: Env, kinds: int -> Kind, ps: seq<(int, Option<Value>)>, after: Bytes) returns (f: Fields)
    requires |ps| < 65536 && DistinctKeys(ps) && AllOk(env, kinds, ps)
    ensures FieldsOf(env, kinds, PrintMap(ps) + after) == Got((f, []))
    ensures forall i :: 0 <= i < |ps| ==> Holds(f, ps[i].0, ps[i].1)
    ensures forall k :: k in f ==> exists i :: 0 <= i < |ps| && ps[i].0 == k
  {
    hide FieldsOf, PairsBytes, PairOk, FdoHead;
    PresentOk(env, kinds, ps);
    FieldsRoundTrip(env, kinds, Present(ps), after);
    CollectPresent(map[], ps);
    f := Collect(map[], Present(ps));
  }

  function OptText(t: Option<Bytes>): Option<Value> { if t.Some? then Some(Text(t.value)) else None }

  function OptBlob(b: Option<Bytes>): Option<Value> { if b.Some? then Some(Blob(b.value)) else None }

  function MetaPairs(m: MetaPayload): seq<(int, Option<Value>)> {
    [(0, Some(Text(m.mimeType))), (1, Some(Text(m.url))), (2, OptBlob(m.tlsCa)), (4, OptBlob(m.expectedHash)),
     (5, OptText(m.bootArgs))]
  }

  /** Parsing a printed meta-payload gives it back, whatever follows. */
  lemma MetaRoundTrip(env: Env, m: MetaPayload, after: Bytes)
    requires m.extraKeys == [] && AllOk(env, MetaKinds, MetaPairs(m))
    ensures MetaOf(env, PrintMap(MetaPairs(m)) + after) == Got(m)
  {
    hide FieldsOf, PrintMap, AllOk;
    var ps := MetaPairs(m);
    var f := RecordRoundTrip(env, MetaKinds, ps, after);
    assert Holds(f, ps[0].0, ps[0].1) && Holds(f, ps[1].0, ps[1].1) && Holds(f, ps[2].0, ps[2].1);
    assert Holds(f, ps[3].0, ps[3].1) && Holds(f, ps[4].0, ps[4].1);
  }

  predicate IsTag18(data: Bytes) { data != [] && data[0] == 0xD2 }

  /** The inner meta-payload and whether a signature vouches for it. */
  ghost function AuthenticateMeta(pf: Platform, data: Bytes, metaSigner: Option<Bytes>, owner: Option<Bytes>)
    : Option<(Bytes, bool)>
  {
    match metaSigner
    case Some(signer) =>
      if !IsTag18(data) then None else
        var point :- pf.coseKey(signer);
        var s :- ParseSign1(data);
        if Voucher.VerifySign1(pf, s, AAD_META, point) then Some((s.payload, true)) else None
    case None =>
      if IsTag18(data) then
        var o :- owner;
        var inner :- SignedPayload(pf, data, o, AAD_META);
        Some((inner, true))
      else Some((data, false))
  }

  method VerifyAndExtractMeta(pf: Platform, data: Bytes, metaSigner: Option<Bytes>, owner: Option<Bytes>)
    returns (r: Option<(Bytes, bool)>)
    ensures r == AuthenticateMeta(pf, data, metaSigner, owner)
  {
    hide ParseSign1, SignedPayload, AAD_META, Voucher.VerifySign1;
    if metaSigner.Some? {
      if !IsTag18(data) { return None; }
      var point := pf.coseKey(metaSigner.value);
      if point.None? { return None; }
      var s := ParseSign1(data);
      if s.None? || !Voucher.VerifySign1(pf, s.value, AAD_META, point.value) { return None; }
      return Some((s.value.payload, true));
    }
    if !IsTag18(data) { return Some((data, false)); }
    if owner.None? { return None; }
    var inner := VerifyMetaSigned(pf, data, owner.value);
    return if inner.None? then None else Some((inner.value, true));
  }

  /** The meta-payload `inner` inside `data` is signed: by the publisher the begin
      message names, or, if it names none, for the owner. */
  ghost predicate MetaSigned(pf: Platform, data: Bytes, metaSigner: Option<Bytes>, owner: Option<Bytes>, inner: Bytes) {
    && IsTag18(data) && ParseSign1(data).Some?
    && var s, aad := ParseSign1(data).value, DomainAad(Ascii("FDO-FSIM-MetaPayload-v1"), 200);
    && s.payload == inner
    && match metaSigner
       case Some(signer) =>
         && pf.coseKey(signer).Some? && pf.alg(s.protected) == -7
         && pf.es256(SigStructure(s.protected, aad, inner), s.signature, pf.coseKey(signer).value)
       case None => owner.Some? && OwnerSigned(pf, s, owner.value, aad)
  }

  /** What a fetched meta-payload yields: the signed payload, reported as such, or
      the untagged bytes themselves, reported as unsigned, where no publisher was
      named. Nothing else gets through. */
  lemma AuthenticateMetaExactly(pf: Platform, data: Bytes, metaSigner: Option<Bytes>, owner: Option<Bytes>,
                                inner: Bytes, authenticated: bool)
    ensures AuthenticateMeta(pf, data, metaSigner, owner) == Some((inner, authenticated)) <==>
            if authenticated then MetaSigned(pf, data, metaSigner, owner, inner)
            else !IsTag18(data) && metaSigner.None? && inner == data
  {
    hide ParseSign1, SignedPayload, OwnerSigned, DomainAad, SigStructure;
    if owner.Some? { SignedPayloadExactly(pf, data, owner.value, AAD_META, inner); }
  }

  function CheckUnauthenticatedMeta(meta: MetaPayload, authenticated: bool, beginHash: Option<Bytes>)
    : Option<HashPolicyError>
  {
    if authenticated then None
    else if beginHash.None? then Some(UnauthenticatedSource)
    else if meta.HasInstructions() then Some(InstructionFromUnauthenticatedMeta)
    else None
  }
}
