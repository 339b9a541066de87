/**
 The TO2 message codec of fdo.rs: an encoder that appends to a buffer, a decoder
 that moves a cursor, the ServiceInfo array and the COSE_Encrypt0 envelope.

 The encoder writes lengths in at most two bytes, so a length of 65536 or more
 is written modulo 65536; the round trips below hold exactly below that bound.
 */
module FdoCodec {
  import opened Base
  import opened Cbor
  import opened Cursor
  import opened CoseSign1

  // ---- the decoder object ----

  class CborDecoder {
    const data: Bytes
    var pos: nat

    constructor (data: Bytes)
      ensures this.data == data && pos == 0
    {
      this.data := data;
      pos := 0;
    }

    method Take<T>(r: Read<(T, nat)>) returns (v: Read<T>)
      modifies this
      ensures r.Got? ==> v == Got(r.value.0) && pos == r.value.1
      ensures !r.Got? ==> v == r.PropagateFailure()
    {
      if !r.Got? { return r.PropagateFailure(); }
      pos := r.value.1;
      return Got(r.value.0);
    }

    method ReadArrayLen() returns (v: Read<nat>)
      modifies this
      ensures var r := ReadLen(data, old(pos), 4);
              if r.Got? then v.Got? && r.value == (v.value, pos) else v == r.PropagateFailure()
    {
      v := Take(ReadLen(data, pos, 4));
    }

    method ReadBytes() returns (v: Read<Bytes>)
      modifies this
      ensures var r := ReadString(data, old(pos), 2);
              if r.Got? then v.Got? && r.value == (v.value, pos) else v == r.PropagateFailure()
    {
      v := Take(ReadString(data, pos, 2));
    }

    /** `skip_value`, with room for `stack` nested calls: the cursor after it, or
        why there is none. */
    method SkipValue(stack: nat) returns (r: Read<nat>)
      modifies this
      ensures r == Walk(data, old(pos), stack) && (r.Got? ==> pos == r.value)
      decreases stack, 0
    {
      if stack == 0 { return Crash; }
      if pos >= |data| { return Bad; }
      var major, info := data[pos] / 32, data[pos] % 32;
      if major == 7 {
        pos := pos + 1 + (if info == 25 then 2 else if info == 26 then 4 else if info == 27 then 8 else 0);
        return Got(pos);
      }
      var h := ReadHead(Fdo, data, pos);
      if h.None? { return Bad; }
      var len := h.value.1;
      pos := h.value.2;
      if major < 2 {
        return Got(pos);
      } else if major < 4 {
        pos := Advance(data, pos, len);
        return Got(pos);
      } else {
        r := SkipValues(if major == 4 then len else if major == 5 then 2 * len else 1, stack - 1);
      }
    }

    /** The loop over the items of an array, or the keys and values of a map. */
    method SkipValues(n: nat, stack: nat) returns (r: Read<nat>)
      modifies this
      ensures r == WalkN(data, old(pos), n, stack) && (r.Got? ==> pos == r.value)
      decreases stack, n + 1
    {
      hide Walk;
      ghost var start := pos;
      var i := 0;
      while i < n
        invariant i <= n
        invariant WalkN(data, start, n, stack) == WalkN(data, pos, n - i, stack)
      {
        r := SkipValue(stack);
        if !r.Got? { return; }
        i := i + 1;
      }
      return Got(pos);
    }
  }

  // ---- what the encoder writes ----

  function FdoHead(major: Major, len: nat): Bytes {
    if len < 24 then [major * 32 + len]
    else if len < 256 then [major * 32 + 24, len]
    else [major * 32 + 25] + BeBytes(len, 2)
  }

  function FdoBstr(b: Bytes): Bytes { FdoHead(2, |b|) + b }

  function FdoTstr(b: Bytes): Bytes { FdoHead(3, |b|) + b }

  class CborEncoder {
    var buf: Bytes

    constructor ()
      ensures buf == []
    {
      buf := [];
    }

    method Push(bytes: Bytes)
      modifies this
      ensures buf == old(buf) + bytes
    {
      buf := buf + bytes;
    }

    /** Shared shape of `array`, `encode_map`, and the string headers. */
    method Header(major: Major, len: nat)
      modifies this
      ensures buf == old(buf) + FdoHead(major, len)
    {
      if len < 24 {
        Push([major * 32 + len]);
      } else if len < 256 {
        Push([major * 32 + 24, len]);
      } else {
        Push([major * 32 + 25, len / 256 % 256, len % 256]);
        assert BeBytes(len / 256 / 256, 0) == [] && BeBytes(len / 256, 1) == [len / 256 % 256];
        assert BeBytes(len, 2) == [len / 256 % 256, len % 256];
      }
    }

    method WriteBytes(b: Bytes)
      modifies this
      ensures buf == old(buf) + FdoBstr(b)
    {
      Header(2, |b|);
      Push(b);
    }

    method WriteText(b: Bytes)
      modifies this
      ensures buf == old(buf) + FdoTstr(b)
    {
      Header(3, |b|);
      Push(b);
    }
  }

  // ---- reading back a string just written ----

  lemma FdoHeadShort(major: Major, len: nat)
    requires len < 65536
    ensures FdoHead(major, len) == HeadFor(major, len).Bytes()
  {
    if 24 <= len < 256 {
      assert BeBytes(len / 256, 0) == [];
      assert BeBytes(len, 1) == [len % 256];
    }
  }

  /** In every case the head read back is the length modulo 65536. */
  lemma FdoHeadAt(major: Major, len: nat, data: Bytes, pos: nat)
    requires major != 7 && At(data, pos, FdoHead(major, len))
    ensures ReadHead(Fdo, data, pos) == Some((major, len % 65536, pos + |FdoHead(major, len)|))
  {
    hide ReadHead, HeadFor, FdoHead;
    if len < 65536 {
      FdoHeadShort(major, len);
      HeadForAt(Fdo, major, len, data, pos);
    } else {
      FdoHeadWrapped(major, len, data, pos);
    }
  }

  lemma FdoHeadWrapped(major: Major, len: nat, data: Bytes, pos: nat)
    requires major != 7 && len >= 65536 && At(data, pos, FdoHead(major, len))
    ensures ReadHead(Fdo, data, pos) == Some((major, len % 65536, pos + |FdoHead(major, len)|))
  {
    hide ReadHead, BeBytes, BeNat;
    var h := Head(major, 25, BeBytes(len, 2));
    assert h.Bytes() == FdoHead(major, len);
    HeadAt(Fdo, h, data, pos);
    BeTwoBytes(len);
  }

  lemma BeTwoBytes(n: nat)
    ensures BeNat(BeBytes(n, 2)) == n % 65536
  {
    assert BeBytes(n / 256 / 256, 0) == [];
    assert BeBytes(n / 256, 1) == [n / 256 % 256];
    var s := BeBytes(n, 2);
    assert s == [n / 256 % 256, n % 256];
    assert BeNat(s[..0]) == 0 && s[..1][..0] == s[..0];
    assert BeNat(s[..1]) == n / 256 % 256;
  }

  /** A string is read back exactly when its length fits; otherwise what is read,
      if anything, is shorter. */
  lemma StringAt(major: Major, data: Bytes, pos: nat, b: Bytes)
    requires (major == 2 || major == 3) && At(data, pos, FdoHead(major, |b|) + b)
    ensures |b| < 65536 ==> ReadString(data, pos, major) == Got((b, pos + |FdoHead(major, |b|)| + |b|))
    ensures |b| >= 65536 ==> ReadString(data, pos, major).Got? && |ReadString(data, pos, major).value.0| < |b|
  {
    hide ReadHead, FdoHead;
    AtConcat(data, pos, FdoHead(major, |b|), b);
    FdoHeadAt(major, |b|, data, pos);
  }

  // ---- the second Sig_structure builder ----

  function FdoSigStructure(protected: Bytes, aad: Bytes, payload: Bytes): Bytes {
    FdoHead(4, 4) + FdoTstr(SIGNATURE1) + FdoBstr(protected) + FdoBstr(aad) + FdoBstr(payload)
  }

  method BuildCoseSigStructure(protected: Bytes, aad: Bytes, payload: Bytes) returns (out: Bytes)
    ensures out == FdoSigStructure(protected, aad, payload)
  {
    hide FdoHead, FdoTstr, FdoBstr;
    var enc := new CborEncoder();
    enc.Header(4, 4);
    enc.WriteText(SIGNATURE1);
    enc.WriteBytes(protected);
    enc.WriteBytes(aad);
    enc.WriteBytes(payload);
    out := enc.buf;
  }

  lemma BstrSizes(b: Bytes)
    ensures |b| < 65536 ==> FdoBstr(b) == Bstr(b)
    ensures |b| >= 65536 ==> |FdoBstr(b)| < |Bstr(b)|
  {
    if |b| < 65536 { FdoHeadShort(2, |b|); }
  }

  /** The device signs with one builder and verifies with the other: they give
      the same bytes exactly when every part is shorter than 65536 bytes. */
  lemma BuildersAgreeExactly(protected: Bytes, aad: Bytes, payload: Bytes)
    ensures FdoSigStructure(protected, aad, payload) == SigStructure(protected, aad, payload) <==>
            |protected| < 65536 && |aad| < 65536 && |payload| < 65536
  {
    hide FdoBstr, Bstr;
    BstrSizes(protected);
    BstrSizes(aad);
    BstrSizes(payload);
    assert FdoHead(4, 4) + FdoTstr(SIGNATURE1) == [0x84, 0x6a] + SIGNATURE1;
  }

  /** ProveDevice20 as the device sends it: tag 18, empty unprotected map. */
  method BuildProveDevice(protected: Bytes, payload: Bytes, signature: Bytes) returns (out: Bytes)
    ensures out == [0xd2, 0x84] + FdoBstr(protected) + [0xa0] + FdoBstr(payload) + FdoBstr(signature)
  {
    hide FdoBstr;
    var enc := new CborEncoder();
    enc.Push([0xd2]);
    enc.Header(4, 4);
    enc.WriteBytes(protected);
    enc.Push([0xa0]);
    enc.WriteBytes(payload);
    enc.WriteBytes(signature);
    out := enc.buf;
  }

  /** Read by the client's own parser, that message has exactly its three parts. */
  lemma ProveDeviceParses(protected: Bytes, payload: Bytes, signature: Bytes)
    requires |protected| < 65536 && |payload| < 65536 && |signature| < 65536
    ensures ParseSign1([0xd2, 0x84] + FdoBstr(protected) + [0xa0] + FdoBstr(payload) + FdoBstr(signature))
         == Some(Sign1(protected, [0xa0], payload, signature))
  {
    hide FdoBstr, Bstr, ParseSign1;
    BstrSizes(protected);
    BstrSizes(payload);
    BstrSizes(signature);
    var empty := Node(Head(5, 0, []), []);
    EmptyMap();
    var out := [0xd2, 0x84] + FdoBstr(protected) + [0xa0] + FdoBstr(payload) + FdoBstr(signature);
    assert out == PrintSign1(true, protected, empty, Some(payload), signature)
        == PrintSign1(true, protected, empty, Some(payload), signature) + [];
    Sign1RoundTrip(true, protected, empty, Some(payload), signature, []);
  }

  lemma EmptyMap()
    ensures Encode(Node(Head(5, 0, []), [])) == [0xa0] && InLang(Cose, Node(Head(5, 0, []), []))
  {
    assert EncodeAll([]) == [];
  }

  // ---- ServiceInfo ----

  type Kv = (Bytes, Bytes)

  function EncodeKv(kv: Kv): Bytes { FdoHead(4, 2) + FdoTstr(kv.0) + FdoBstr(kv.1) }

  function EncodeKvs(kvs: seq<Kv>): Bytes {
    if kvs == [] then [] else EncodeKv(kvs[0]) + EncodeKvs(kvs[1..])
  }

  function EncodeServiceInfo(kvs: seq<Kv>): Bytes { FdoHead(4, |kvs|) + EncodeKvs(kvs) }

  lemma {:induction false} EncodeKvsSnoc(kvs: seq<Kv>, kv: Kv)
    ensures EncodeKvs(kvs + [kv]) == EncodeKvs(kvs) + EncodeKv(kv)
  {
    hide EncodeKv;
    if kvs == [] {
      assert EncodeKvs([kv][1..]) == [];
    } else {
      assert (kvs + [kv])[1..] == kvs[1..] + [kv];
      EncodeKvsSnoc(kvs[1..], kv);
    }
  }

  lemma KvAppended(before: Bytes, kv: Kv)
    ensures before + FdoHead(4, 2) + FdoTstr(kv.0) + FdoBstr(kv.1) == before + EncodeKv(kv)
  {
    hide FdoHead, FdoTstr, FdoBstr;
  }

  lemma NoKvs(h: Bytes)
    ensures h + EncodeKvs([]) == h
  {
  }

  lemma Reassociate(a: Bytes, b: Bytes, c: Bytes)
    ensures a + b + c == a + (b + c)
  {
  }

  /** The loop that encodes queued responses into the next DeviceSvcInfo. */
  method BuildServiceInfo(kvs: seq<Kv>) returns (out: Bytes)
    ensures out == EncodeServiceInfo(kvs)
  {
    hide FdoHead, FdoTstr, FdoBstr, EncodeKv, EncodeKvs;
    var enc := new CborEncoder();
    enc.Header(4, |kvs|);
    NoKvs(FdoHead(4, |kvs|));
    var i := 0;
    while i < |kvs|
      invariant i <= |kvs| && fresh(enc)
      invariant enc.buf == FdoHead(4, |kvs|) + EncodeKvs(kvs[..i])
    {
      ghost var before := enc.buf;
      enc.Header(4, 2);
      enc.WriteText(kvs[i].0);
      enc.WriteBytes(kvs[i].1);
      KvAppended(before, kvs[i]);
      EncodeKvsSnoc(kvs[..i], kvs[i]);
      assert kvs[..i + 1] == kvs[..i] + [kvs[i]];
      Reassociate(FdoHead(4, |kvs|), EncodeKvs(kvs[..i]), EncodeKv(kvs[i]));
      i := i + 1;
    }
    assert kvs[..|kvs|] == kvs;
    out := enc.buf;
  }

  /** One array element: a pair, or (for another arity) nothing, having skipped a
      single value. */
  function ReadEntry(env: Env, data: Bytes, pos: nat): Read<(Option<Kv>, nat)> {
    var (n, p) :- ReadLen(data, pos, 4);
    if n != 2 then
      var q :- Walk(data, p, env.stack);
      Got((None, q))
    else
      var (key, q) :- ReadText(env.utf8, data, p);
      var (value, e) :- ReadString(data, q, 2);
      Got((Some((key, value)), e))
  }

  function Entries(env: Env, data: Bytes, pos: nat, n: nat): (r: Read<seq<Kv>>)
    ensures r.Got? ==> |r.value| <= n
    decreases n
  {
    if n == 0 then Got([])
    else
      var (kv, p) :- ReadEntry(env, data, pos);
      var rest :- Entries(env, data, p, n - 1);
      Got(if kv.Some? then [kv.value] + rest else rest)
  }

  function ServiceInfoOf(env: Env, data: Bytes): Read<seq<Kv>> {
    if data == [] then Got([])
    else
      var (n, p) :- ReadLen(data, 0, 4);
      Entries(env, data, p, n)
  }

  /** The body of the parsing loop: one element read off the cursor. */
  method NextEntry(env: Env, dec: CborDecoder) returns (kv: Read<Option<Kv>>)
    modifies dec
    ensures var r := ReadEntry(env, dec.data, old(dec.pos));
            if r.Got? then kv.Got? && r.value == (kv.value, dec.pos) else kv == r.PropagateFailure()
  {
    hide ReadLen, ReadString, Walk;
    var len := dec.ReadArrayLen();
    if !len.Got? { return len.PropagateFailure(); }
    if len.value != 2 {
      var skipped := dec.SkipValue(env.stack);
      return if skipped.Got? then Got(None) else skipped.PropagateFailure();
    }
    var key := dec.Take(ReadText(env.utf8, dec.data, dec.pos));
    if !key.Got? { return key.PropagateFailure(); }
    var value := dec.ReadBytes();
    if !value.Got? { return value.PropagateFailure(); }
    return Got(Some((key.value, value.value)));
  }

  method ParseServiceInfoArray(env: Env, data: Bytes) returns (r: Read<seq<Kv>>)
    ensures r == ServiceInfoOf(env, data)
  {
    hide ReadLen, ReadEntry;
    if data == [] { return Got([]); }
    var dec := new CborDecoder(data);
    var n := dec.ReadArrayLen();
    if !n.Got? { return n.PropagateFailure(); }
    var entries: seq<Kv> := [];
    ghost var start := dec.pos;
    var i := 0;
    PrependNone(Entries(env, data, start, n.value));
    while i < n.value
      invariant i <= n.value && fresh(dec)
      invariant Entries(env, data, start, n.value) == Prepend(entries, Entries(env, data, dec.pos, n.value - i))
    {
      var kv := NextEntry(env, dec);
      if !kv.Got? { return kv.PropagateFailure(); }
      i := i + 1;
      if kv.value.Some? {
        PrependCons(entries, kv.value.value, Entries(env, data, dec.pos, n.value - i));
        entries := entries + [kv.value.value];
      }
    }
    assert entries + [] == entries;
    return Got(entries);
  }

  predicate KvFits(kv: Kv) { |kv.0| < 65536 && |kv.1| < 65536 }

  lemma KvAt(env: Env, data: Bytes, pos: nat, kv: Kv)
    requires env.utf8(kv.0) && At(data, pos, EncodeKv(kv))
    ensures KvFits(kv) ==> ReadEntry(env, data, pos) == Got((Some(kv), pos + |EncodeKv(kv)|))
    ensures !KvFits(kv) && ReadEntry(env, data, pos).Got? ==>
              ReadEntry(env, data, pos).value.0.Some? && ReadEntry(env, data, pos).value.0.value != kv
  {
    hide ReadHead, FdoHead, Walk;
    AtConcat(data, pos, FdoHead(4, 2) + FdoTstr(kv.0), FdoBstr(kv.1));
    AtConcat(data, pos, FdoHead(4, 2), FdoTstr(kv.0));
    FdoHeadAt(4, 2, data, pos);
    var p := pos + |FdoHead(4, 2)|;
    StringAt(3, data, p, kv.0);
    StringAt(2, data, p + |FdoTstr(kv.0)|, kv.1);
  }

  lemma {:induction false} EntriesRoundTrip(env: Env, data: Bytes, pos: nat, kvs: seq<Kv>)
    requires (forall i :: 0 <= i < |kvs| ==> env.utf8(kvs[i].0)) && At(data, pos, EncodeKvs(kvs))
    ensures Entries(env, data, pos, |kvs|) == Got(kvs) <==> forall i :: 0 <= i < |kvs| ==> KvFits(kvs[i])
    decreases |kvs|
  {
    hide EncodeKv, KvFits, ReadEntry;
    if kvs != [] {
      var kv, rest := kvs[0], kvs[1..];
      AtConcat(data, pos, EncodeKv(kv), EncodeKvs(rest));
      KvAt(env, data, pos, kv);
      if KvFits(kv) {
        var p := pos + |EncodeKv(kv)|;
        EntriesRoundTrip(env, data, p, rest);
        assert kvs == [kv] + rest;
        var r := Entries(env, data, p, |rest|);
        if r.Got? && r.value != rest { assert ([kv] + r.value)[1..] == r.value; }
        assert (forall i :: 0 <= i < |kvs| ==> KvFits(kvs[i]))
          <==> (forall i :: 0 <= i < |rest| ==> KvFits(rest[i])) by {
          assert forall i :: 0 <= i < |rest| ==> rest[i] == kvs[i + 1];
          assert forall i :: 0 < i < |kvs| ==> kvs[i] == rest[i - 1];
        }
      }
    }
  }

  /** Decoding inverts encoding for exactly the lists whose number of pairs, keys
      and values all stay below 65536. */
  lemma ServiceInfoRoundTrip(env: Env, kvs: seq<Kv>)
    requires forall i :: 0 <= i < |kvs| ==> env.utf8(kvs[i].0)
    ensures ServiceInfoOf(env, EncodeServiceInfo(kvs)) == Got(kvs) <==>
            |kvs| < 65536 && forall i :: 0 <= i < |kvs| ==> KvFits(kvs[i])
  {
    hide Entries, EncodeKvs, FdoHead, ReadHead;
    var data := EncodeServiceInfo(kvs);
    var h := FdoHead(4, |kvs|);
    assert data[0..|h|] == h && data[|h|..] == EncodeKvs(kvs);
    FdoHeadAt(4, |kvs|, data, 0);
    if |kvs| < 65536 { EntriesRoundTrip(env, data, |h|, kvs); }
  }

  /** The two builders of a domain AAD, `[tag]`, agree as well. */
  lemma AadBuildersAgree(tag: Bytes)
    requires |tag| < 65536
    ensures DomainAad(tag, 200) == FdoHead(4, 1) + FdoTstr(tag)
  {
    FdoHeadShort(3, |tag|);
    assert FdoHead(4, 1) == [0x81];
  }

  // ---- COSE_Encrypt0 ----

  /** Protected header {1: 3}, alg = A256GCM. */
  const A256GCM_HEADER: Bytes := [0xa1, 0x01, 0x03]

  function EncryptedMessage(nonce: Bytes, ciphertext: Bytes): Bytes {
    [0xd0, 0x83, 0x43, 0xa1, 0x01, 0x03, 0xa1, 0x05] + FdoBstr(nonce) + FdoBstr(ciphertext)
  }

  method BuildEncryptedMessage(nonce: Bytes, ciphertext: Bytes) returns (out: Bytes)
    ensures out == EncryptedMessage(nonce, ciphertext)
  {
    hide FdoBstr;
    var enc := new CborEncoder();
    enc.Push([0xd0]);
    enc.Header(4, 3);
    enc.Header(2, 3);
    enc.Push(A256GCM_HEADER);
    enc.Header(5, 1);
    enc.Push([0x05]);
    enc.WriteBytes(nonce);
    enc.WriteBytes(ciphertext);
    out := enc.buf;
  }

  /** The unprotected map: the last value under key 5 is the IV. */
  function IvFrom(data: Bytes, pos: nat, n: nat, nonce: Bytes, stack: nat): Read<(Bytes, nat)>
    decreases n
  {
    if n == 0 then Got((nonce, pos))
    else
      var (key, p) :- ReadLen(data, pos, 0);
      if key == 5 then
        var (iv, q) :- ReadString(data, p, 2);
        IvFrom(data, q, n - 1, iv, stack)
      else
        var q :- Walk(data, p, stack);
        IvFrom(data, q, n - 1, nonce, stack)
  }

  /** Tag number: a small tag inline, otherwise a whole integer item after it. */
  function ReadEncryptTag(data: Bytes): Read<(nat, nat)> {
    if data == [] || data[0] / 32 != 6 then Bad
    else if data[0] % 32 < 24 then Got((data[0] % 32, 1))
    else ReadLen(data, 1, 0)
  }

  function EncryptedParts(data: Bytes, stack: nat): Read<(Bytes, Bytes)> {
    var (tag, p0) :- ReadEncryptTag(data);
    if tag != 16 then Bad else
      var (n, p1) :- ReadLen(data, p0, 4);
      if n != 3 then Bad else
        var (_, p2) :- ReadString(data, p1, 2);
        var (m, p3) :- ReadMapLen(data, p2);
        var (nonce, p4) :- IvFrom(data, p3, m, [], stack);
        var (ciphertext, _) :- ReadString(data, p4, 2);
        if nonce == [] then Bad else Got((nonce, ciphertext))
  }

  method ParseEncryptedMessage(data: Bytes, stack: nat) returns (r: Read<(Bytes, Bytes)>)
    ensures r == EncryptedParts(data, stack)
  {
    hide ReadLen, ReadString, ReadMapLen, Walk;
    var tag := ReadEncryptTag(data);
    if !tag.Got? { return tag.PropagateFailure(); }
    if tag.value.0 != 16 { return Bad; }
    var dec := new CborDecoder(data);
    dec.pos := tag.value.1;
    var n := dec.ReadArrayLen();
    if !n.Got? { return n.PropagateFailure(); }
    if n.value != 3 { return Bad; }
    var protected := dec.ReadBytes();
    if !protected.Got? { return protected.PropagateFailure(); }
    var m := dec.Take(ReadMapLen(data, dec.pos));
    if !m.Got? { return m.PropagateFailure(); }
    var nonce: Bytes := [];
    ghost var start := dec.pos;
    var i := 0;
    while i < m.value
      invariant i <= m.value && fresh(dec)
      invariant IvFrom(data, start, m.value, [], stack) == IvFrom(data, dec.pos, m.value - i, nonce, stack)
    {
      var key := dec.Take(ReadLen(data, dec.pos, 0));
      if !key.Got? { return key.PropagateFailure(); }
      if key.value == 5 {
        var iv := dec.ReadBytes();
        if !iv.Got? { return iv.PropagateFailure(); }
        nonce := iv.value;
      } else {
        var skipped := dec.SkipValue(stack);
        if !skipped.Got? { return skipped.PropagateFailure(); }
      }
      i := i + 1;
    }
    var ciphertext := dec.ReadBytes();
    if !ciphertext.Got? { return ciphertext.PropagateFailure(); }
    return if nonce == [] then Bad else Got((nonce, ciphertext.value));
  }

  lemma EncryptedPrefix(data: Bytes)
    requires |data| >= 8 && data[..8] == [0xd0, 0x83, 0x43, 0xa1, 0x01, 0x03, 0xa1, 0x05]
    ensures ReadEncryptTag(data) == Got((16, 1)) && ReadLen(data, 1, 4) == Got((3, 2))
    ensures ReadString(data, 2, 2).Got? && ReadString(data, 2, 2).value.1 == 6
    ensures ReadMapLen(data, 6) == Got((1, 7)) && ReadLen(data, 7, 0) == Got((5, 8))
  {
    var pre := data[..8];
    assert data[0] == pre[0] && data[1] == pre[1] && data[2] == pre[2] && data[6] == pre[6] && data[7] == pre[7];
    assert 0xd0 / 32 == 6 && 0xd0 % 32 == 16 && 0x83 / 32 == 4 && 0x43 / 32 == 2 && 0xa1 / 32 == 5;
  }

  /** What the device encrypts it can take apart again, exactly when the nonce is
      not empty and both parts are shorter than 65536 bytes; the nonce is found
      whatever the length of the ciphertext. */
  lemma EncryptedRoundTrip(nonce: Bytes, ciphertext: Bytes, stack: nat)
    ensures EncryptedParts(EncryptedMessage(nonce, ciphertext), stack) == Got((nonce, ciphertext)) <==>
            0 < |nonce| < 65536 && |ciphertext| < 65536
    ensures 0 < |nonce| < 65536 ==>
              && EncryptedParts(EncryptedMessage(nonce, ciphertext), stack).Got?
              && EncryptedParts(EncryptedMessage(nonce, ciphertext), stack).value.0 == nonce
  {
    hide ReadLen, ReadString, ReadMapLen, ReadEncryptTag, FdoHead, Walk;
    var data := EncryptedMessage(nonce, ciphertext);
    var a, b := FdoBstr(nonce), FdoBstr(ciphertext);
    var e := 8 + |a|;
    assert data[8..e] == a && data[e..e + |b|] == b;
    EncryptedPrefix(data);
    StringAt(2, data, 8, nonce);
    StringAt(2, data, e, ciphertext);
    OneIv(data, stack);
  }

  lemma OneIv(data: Bytes, stack: nat)
    requires ReadLen(data, 7, 0) == Got((5, 8))
    ensures IvFrom(data, 7, 1, [], stack) == ReadString(data, 8, 2)
  {
    hide ReadLen, ReadString, Walk;
    var s := ReadString(data, 8, 2);
    if s.Got? { assert IvFrom(data, s.value.1, 0, s.value.0, stack) == s; }
  }

  /** An AEAD over (key, nonce, text, aad). */
  datatype Aead = Aead(seal: (Bytes, Bytes, Bytes, Bytes) -> Option<Bytes>,
                       open: (Bytes, Bytes, Bytes, Bytes) -> Option<Bytes>)

  ghost predicate Correct(a: Aead) {
    forall k, n, p, d :: a.seal(k, n, p, d).Some? ==> a.open(k, n, a.seal(k, n, p, d).value, d) == Some(p)
  }

  const ENC_AAD: Bytes := FdoHead(4, 3) + FdoTstr(Ascii("Encrypt0")) + FdoBstr(A256GCM_HEADER) + FdoBstr([])

  function Encrypt0(a: Aead, key: Bytes, nonce: Bytes, plain: Bytes): Option<Bytes> {
    if |key| != 32 || |nonce| != 12 then None else
      var c :- a.seal(key, nonce, plain, ENC_AAD);
      Some(EncryptedMessage(nonce, c))
  }

  function Decrypt0(a: Aead, key: Bytes, data: Bytes, stack: nat): Option<Bytes> {
    var (nonce, c) :- EncryptedParts(data, stack).Try();
    if |key| != 32 || |nonce| != 12 || |c| < 16 then None else a.open(key, nonce, c, ENC_AAD)
  }

  /** What decryption accepts: tag 16, an IV of 12 bytes and a ciphertext of at least
      16, and only what the AEAD opens under the session key and the Enc_structure
      `["Encrypt0", {1: 3}, h'']` (section 5.3 of RFC 9052). */
  lemma DecryptExactly(a: Aead, key: Bytes, data: Bytes, stack: nat, plain: Bytes)
    ensures Decrypt0(a, key, data, stack) == Some(plain) <==>
            && |key| == 32 && EncryptedParts(data, stack).Got?
            && var (nonce, c) := EncryptedParts(data, stack).value;
            && |nonce| == 12 && |c| >= 16
            && a.open(key, nonce, c, [0x83, 0x68] + ENCRYPT0 + [0x43, 0xa1, 0x01, 0x03, 0x40]) == Some(plain)
    ensures EncryptedParts(data, stack).Got? ==> HasTag16(data)
  {
    hide ReadLen, ReadString, ReadMapLen, IvFrom;
    EncStructure();
  }

  /** `Encrypt0` in ASCII. */
  const ENCRYPT0: Bytes := [0x45, 0x6e, 0x63, 0x72, 0x79, 0x70, 0x74, 0x30]

  lemma EncStructure()
    ensures ENC_AAD == [0x83, 0x68] + ENCRYPT0 + [0x43, 0xa1, 0x01, 0x03, 0x40]
  {
    assert Ascii("Encrypt0") == ENCRYPT0;
    assert FdoHead(4, 3) == [0x83];
    assert FdoHead(3, 8) == [0x68] && FdoHead(2, 3) == [0x43] && FdoHead(2, 0) == [0x40];
  }

  /** The message starts with tag 16, inline or as an integer of its own. */
  predicate HasTag16(data: Bytes) {
    && data != [] && data[0] / 32 == 6
    && (data[0] % 32 == 16 || (data[0] % 32 >= 24 && ReadLen(data, 1, 0).Got? && ReadLen(data, 1, 0).value.0 == 16))
  }

  /** Decrypting an encrypted message gives back the plaintext, given a correct
      AEAD whose output (text and 16-byte tag) fits the length field. */
  lemma DecryptEncrypted(a: Aead, key: Bytes, nonce: Bytes, plain: Bytes, stack: nat)
    requires Correct(a) && |key| == 32 && |nonce| == 12
    requires a.seal(key, nonce, plain, ENC_AAD).Some?
    requires 16 <= |a.seal(key, nonce, plain, ENC_AAD).value| < 65536
    ensures Decrypt0(a, key, Encrypt0(a, key, nonce, plain).value, stack) == Some(plain)
  {
    hide EncryptedParts, EncryptedMessage;
    EncryptedRoundTrip(nonce, a.seal(key, nonce, plain, ENC_AAD).value, stack);
  }
}
