/**
 A whole TO2 run (fdo.rs), against a server that may answer anything: prove the
 owner, set up, exchange ServiceInfo, finish, and only then launch the image.

 Of the messages the device builds, the encrypted ones are modelled as far as
 their encryption goes: each draws the next IV, over arbitrary plaintexts. A
 server that stops answering is a reply that is missing. Any error aborts the
 run, and so does a crash of the decoder.
 */
module To2 {
  import opened Base
  import opened Cbor
  import opened Cursor
  import opened CoseSign1
  import opened Delegate
  import opened Platforms
  import opened FdoCodec
  import opened Bmo
  import Chunking
  import Voucher

  // ---- the session IVs ----

  /** 96 bits: a zero field and the 64-bit invocation counter. */
  function Iv(counter: nat): Bytes { [0, 0, 0, 0] + BeBytes(counter, 8) }

  method NextSessionIv(counter: nat) returns (iv: Bytes, next: nat)
    ensures iv == Iv(counter) && next == counter + 1
  {
    iv := [0, 0, 0, 0] + BeBytes(counter, 8);
    next := counter + 1;
  }

  lemma IvInjective(a: nat, b: nat)
    requires a < TWO64 && b < TWO64 && Iv(a) == Iv(b)
    ensures a == b
  {
    assert Iv(a)[4..] == BeBytes(a, 8) && Iv(b)[4..] == BeBytes(b, 8);
    Pow256Values();
    BeRoundTrip(a, 8);
    BeRoundTrip(b, 8);
  }

  // ---- server messages ----

  datatype ProveOv = ProveOv(ovHeader: Bytes, numEntries: nat, hmac: Bytes, hmacRaw: Bytes, nonce: Bytes, xb: Bytes,
                             chain: Option<seq<Bytes>>)

  /** Sixteen bytes of a nonce field; a shorter field reads as zeros. */
  function Nonce16(b: Bytes): Bytes { if |b| >= 16 then b[..16] else seq(16, _ => 0) }

  function CertsFrom(data: Bytes, pos: nat, n: nat): Read<seq<Bytes>>
    decreases n
  {
    if n == 0 then Got([])
    else
      var (c, p) :- ReadString(data, pos, 2);
      var rest :- CertsFrom(data, p, n - 1);
      Got([c] + rest)
  }

  /** CertChainOrNull: an array of at least one certificate, or null. */
  function CertChain(data: Bytes, pos: nat): Read<Option<seq<Bytes>>> {
    if pos < |data| && data[pos] == 0xf6 then Got(None)
    else
      var (n, p) :- ReadLen(data, pos, 4);
      if n == 0 then Bad else
        var cs :- CertsFrom(data, p, n);
        Got(Some(cs))
  }

  /** Taking a span whose end lies before its start, or outside, panics. */
  function Span(data: Bytes, from: nat, to: nat): Read<Bytes> {
    if from <= to <= |data| then Got(data[from..to]) else Crash
  }

  function ParseProveOv(data: Bytes, stack: nat): Read<ProveOv> {
    var (n, p0) :- ReadLen(data, 0, 4);
    if n != 8 then Bad else
      var (ovHeader, p1) :- ReadString(data, p0, 2);
      var (num, p2) :- ReadLen(data, p1, 0);
      var (hmacLen, p3) :- ReadLen(data, p2, 4);
      var (_, p4) :- ReadInt32(data, p3);
      var (hmac, p5) :- if hmacLen > 1 then ReadString(data, p4, 2) else Got(([], p4));
      var p6 :- WalkN(data, p5, if hmacLen > 2 then hmacLen - 2 else 0, stack);
      var (nonce, p7) :- ReadString(data, p6, 2);
      var (xb, p8) :- ReadString(data, p7, 2);
      var (_, p9) :- ReadLen(data, p8, 0);
      var p10 :- Walk(data, p9, stack);
      var _ :- Span(data, p9, p10);
      var chain :- CertChain(data, p10);
      var hmacRaw := if p2 <= p6 <= |data| then data[p2..p6] else [];
      Got(ProveOv(ovHeader, num % 256, hmac, hmacRaw, Nonce16(nonce), xb, chain))
  }

  /** `[entry number, entry]`, which must be the entry asked for. */
  function EntryReply(data: Bytes, wanted: nat): Read<Bytes> {
    var (n, p0) :- ReadLen(data, 0, 4);
    if n != 2 then Bad else
      var (num, p1) :- ReadLen(data, p0, 0);
      var (entry, _) :- ReadString(data, p1, 2);
      if num % 256 == wanted then Got(entry) else Bad
  }

  /** Delegate chain of a to1d payload: none in the two-element form. */
  function To1dChain(payload: Bytes, stack: nat): Read<Option<seq<Bytes>>> {
    var (n, p0) :- ReadLen(payload, 0, 4);
    if n == 2 then Got(None)
    else if n != 3 then Bad
    else
      var p1 :- Walk(payload, p0, stack);
      var p2 :- Walk(payload, p1, stack);
      var (wrapped, _) :- ReadString(payload, p2, 2);
      CertChain(wrapped, 0)
  }

  datatype OwnerInfo = OwnerInfo(done: bool, info: Bytes)

  function ReadFlag(data: Bytes, pos: nat): Read<bool> {
    if pos < |data| && (data[pos] == 0xf4 || data[pos] == 0xf5) then Got(data[pos] == 0xf5) else Bad
  }

  /** OwnerSvcInfo: `[isMore, isDone, ServiceInfo]`, or null for "done". */
  function ParseOwnerInfo(data: Bytes): Read<OwnerInfo> {
    if data == [0xf6] then Got(OwnerInfo(true, []))
    else
      var (n, p) :- ReadLen(data, 0, 4);
      if n != 3 then Bad else
        var _ :- ReadFlag(data, p);
        var done :- ReadFlag(data, p + 1);
        Got(OwnerInfo(done, data[p + 2..]))
  }

  function DoneNonce(data: Bytes): Read<Bytes> {
    var (n, p) :- ReadLen(data, 0, 4);
    if n != 1 then Bad else
      var (nonce, _) :- ReadString(data, p, 2);
      if |nonce| == 16 then Got(nonce) else Bad
  }

  // ---- what the parsers read: printed messages come back field by field ----

  lemma LenAt(data: Bytes, pos: nat, major: Major, v: nat)
    requires major != 7 && v < 65536 && At(data, pos, FdoHead(major, v))
    ensures ReadLen(data, pos, major) == Got((v, pos + |FdoHead(major, v)|))
  {
    hide ReadHead, FdoHead;
    FdoHeadAt(major, v, data, pos);
  }

  function CertsBytes(cs: seq<Bytes>): Bytes {
    if cs == [] then [] else FdoBstr(cs[0]) + CertsBytes(cs[1..])
  }

  function ChainBytes(chain: Option<seq<Bytes>>): Bytes {
    if chain.None? then [0xf6] else FdoHead(4, |chain.value|) + CertsBytes(chain.value)
  }

  predicate ChainFits(chain: Option<seq<Bytes>>) {
    chain.Some? ==> 0 < |chain.value| < 65536 && forall i :: 0 <= i < |chain.value| ==> |chain.value[i]| < 65536
  }

  lemma {:induction false} CertsAt(data: Bytes, pos: nat, cs: seq<Bytes>)
    requires (forall i :: 0 <= i < |cs| ==> |cs[i]| < 65536) && At(data, pos, CertsBytes(cs))
    ensures CertsFrom(data, pos, |cs|) == Got(cs)
    decreases |cs|
  {
    hide ReadString, FdoHead;
    if cs != [] {
      AtConcat(data, pos, FdoBstr(cs[0]), CertsBytes(cs[1..]));
      StringAt(2, data, pos, cs[0]);
      CertsAt(data, pos + |FdoBstr(cs[0])|, cs[1..]);
      assert cs == [cs[0]] + cs[1..];
    }
  }

  lemma ChainFirst(chain: Option<seq<Bytes>>)
    requires ChainFits(chain)
    ensures ChainBytes(chain) != [] && (ChainBytes(chain)[0] == 0xf6 <==> chain.None?)
  {
    hide CertsBytes, BeBytes;
  }

  lemma ChainAt(data: Bytes, pos: nat, chain: Option<seq<Bytes>>)
    requires ChainFits(chain) && At(data, pos, ChainBytes(chain))
    ensures CertChain(data, pos) == Got(chain)
  {
    hide ReadLen, CertsFrom, CertsBytes, FdoHead;
    ChainFirst(chain);
    assert data[pos] == data[pos..pos + |ChainBytes(chain)|][0];
    if chain.Some? {
      var n := |chain.value|;
      AtConcat(data, pos, FdoHead(4, n), CertsBytes(chain.value));
      LenAt(data, pos, 4, n);
      CertsAt(data, pos + |FdoHead(4, n)|, chain.value);
    }
  }

  function HmacBytes(alg: int, hmac: Bytes, more: seq<Item>): Bytes {
    FdoHead(4, 2 + |more|) + Chunking.KeyBytes(alg) + FdoBstr(hmac) + EncodeAll(more)
  }

  ghost predicate HmacFits(alg: int, hmac: Bytes, more: seq<Item>, stack: nat) {
    && -65536 <= alg < 65536 && |hmac| < 65536 && 2 + |more| < 65536
    && AllInLang(Fdo, more) && MaxHeight(more) < stack
  }

  function ProveOvBytes(ovHeader: Bytes, num: nat, hmac: Bytes, nonce: Bytes, xb: Bytes, max: nat, key: Item,
                        chain: Option<seq<Bytes>>): Bytes {
    FdoHead(4, 8) + (FdoBstr(ovHeader) + FdoHead(0, num) + hmac
                     + (FdoBstr(nonce) + FdoBstr(xb) + FdoHead(0, max) + (Encode(key) + ChainBytes(chain))))
  }

  lemma {:induction false} HmacAt(data: Bytes, pos: nat, alg: int, hmac: Bytes, more: seq<Item>, stack: nat)
    returns (p4: nat, p5: nat)
    requires HmacFits(alg, hmac, more, stack) && At(data, pos, HmacBytes(alg, hmac, more))
    ensures var r := ReadLen(data, pos, 4);
            && r.Got? && r.value.0 == 2 + |more| && ReadInt32(data, r.value.1) == Got((alg, p4))
            && ReadString(data, p4, 2) == Got((hmac, p5))
            && WalkN(data, p5, |more|, stack) == Got(pos + |HmacBytes(alg, hmac, more)|)
  {
    hide ReadLen, ReadInt32, ReadString, FdoHead, WalkN, EncodeAll, InLang, MaxHeight, Chunking.KeyBytes;
    var n := 2 + |more|;
    PartsAt(data, pos, FdoHead(4, n), Chunking.KeyBytes(alg), FdoBstr(hmac), EncodeAll(more));
    LenAt(data, pos, 4, n);
    var p3 := pos + |FdoHead(4, n)|;
    Chunking.KeyAt(data, p3, alg);
    p4 := p3 + |Chunking.KeyBytes(alg)|;
    StringAt(2, data, p4, hmac);
    p5 := p4 + |FdoBstr(hmac)|;
    WalkItems(more, data, p5, stack);
    EncodeNothing(more);
  }

  lemma EncodeNothing(items: seq<Item>) ensures items == [] ==> EncodeAll(items) == [] { }

  lemma {:induction false} ProveOvSteps(data: Bytes, stack: nat, p0: nat, p1: nat, p2: nat, n: nat, p3: nat,
                                        alg: int, p4: nat, p5: nat, p6: nat, p7: nat, p8: nat, max: nat, p9: nat,
                                        p10: nat, num: nat, nonce: Bytes, p: ProveOv)
    requires ReadLen(data, 0, 4) == Got((8, p0)) && ReadString(data, p0, 2) == Got((p.ovHeader, p1))
    requires ReadLen(data, p1, 0) == Got((num, p2)) && p.numEntries == num % 256
    requires ReadLen(data, p2, 4) == Got((n, p3)) && n >= 2 && ReadInt32(data, p3) == Got((alg, p4))
    requires ReadString(data, p4, 2) == Got((p.hmac, p5)) && WalkN(data, p5, n - 2, stack) == Got(p6)
    requires p2 <= p6 <= |data| && p.hmacRaw == data[p2..p6]
    requires ReadString(data, p6, 2) == Got((nonce, p7)) && p.nonce == Nonce16(nonce)
    requires ReadString(data, p7, 2) == Got((p.xb, p8)) && ReadLen(data, p8, 0) == Got((max, p9))
    requires Walk(data, p9, stack) == Got(p10) && p9 <= p10 <= |data| && CertChain(data, p10) == Got(p.chain)
    ensures ParseProveOv(data, stack) == Got(p)
  {
    hide ReadLen, ReadString, ReadInt32, Walk, WalkN, CertChain, Nonce16;
    if n == 2 { assert WalkN(data, p5, 0, stack) == Got(p6); }
  }

  /** ProveOVHdr: every field from its own place. */
  lemma {:induction false} ProveOvRoundTrip(ovHeader: Bytes, num: nat, alg: int, hmac: Bytes, more: seq<Item>,
                                            nonce: Bytes, xb: Bytes, max: nat, key: Item,
                                            chain: Option<seq<Bytes>>, after: Bytes, stack: nat)
    requires |ovHeader| < 65536 && num < 65536 && HmacFits(alg, hmac, more, stack)
    requires |nonce| < 65536 && |xb| < 65536 && max < 65536 && ChainFits(chain)
    requires InLang(Fdo, key) && Height(key) < stack
    ensures var raw, sixteen := HmacBytes(alg, hmac, more), if |nonce| >= 16 then nonce[..16] else seq(16, _ => 0);
            var r := ParseProveOv(ProveOvBytes(ovHeader, num, raw, nonce, xb, max, key, chain) + after, stack);
            r == Got(ProveOv(ovHeader, num % 256, hmac, raw, sixteen, xb, chain))
  {
    hide ReadLen, ReadInt32, ReadString, FdoHead, FdoBstr, Walk, WalkN, Encode, InLang, Height, HmacBytes, HmacFits,
      CertChain, ChainBytes, ChainFits, ParseProveOv;
    var raw := HmacBytes(alg, hmac, more);
    var tail := FdoBstr(nonce) + FdoBstr(xb) + FdoHead(0, max) + (Encode(key) + ChainBytes(chain));
    var body := FdoBstr(ovHeader) + FdoHead(0, num) + raw + tail;
    var data := FdoHead(4, 8) + body + after;
    assert data[0..|FdoHead(4, 8)|] == FdoHead(4, 8);
    AtPrefix(FdoHead(4, 8), body, after);
    var p0 := |FdoHead(4, 8)|;
    LenAt(data, 0, 4, 8);
    PartsAt(data, p0, FdoBstr(ovHeader), FdoHead(0, num), raw, tail);
    var p1 := BstrFieldAt(data, p0, ovHeader);
    LenAt(data, p1, 0, num);
    var p2 := p1 + |FdoHead(0, num)|;
    var p4, p5 := HmacAt(data, p2, alg, hmac, more, stack);
    var p6 := p2 + |raw|;
    var p7, p8, p9, p10 := ProveOvTail(data, p6, nonce, xb, max, key, chain, stack);
    ProveOvSteps(data, stack, p0, p1, p2, 2 + |more|, ReadLen(data, p2, 4).value.1, alg, p4, p5, p6, p7, p8, max,
                 p9, p10, num, nonce, ProveOv(ovHeader, num % 256, hmac, raw, Nonce16(nonce), xb, chain));
  }

  lemma BstrFieldAt(data: Bytes, pos: nat, b: Bytes) returns (p: nat)
    requires |b| < 65536 && At(data, pos, FdoBstr(b))
    ensures ReadString(data, pos, 2) == Got((b, p)) && p == pos + |FdoBstr(b)|
  {
    hide ReadString, FdoHead;
    StringAt(2, data, pos, b);
    p := pos + |FdoBstr(b)|;
  }

  lemma ProveOvTail(data: Bytes, p6: nat, nonce: Bytes, xb: Bytes, max: nat, key: Item, chain: Option<seq<Bytes>>,
                    stack: nat)
    returns (p7: nat, p8: nat, p9: nat, p10: nat)
    requires |nonce| < 65536 && |xb| < 65536 && max < 65536 && ChainFits(chain)
    requires InLang(Fdo, key) && Height(key) < stack
    requires At(data, p6, FdoBstr(nonce) + FdoBstr(xb) + FdoHead(0, max) + (Encode(key) + ChainBytes(chain)))
    ensures ReadString(data, p6, 2) == Got((nonce, p7)) && ReadString(data, p7, 2) == Got((xb, p8))
    ensures ReadLen(data, p8, 0) == Got((max, p9)) && Walk(data, p9, stack) == Got(p10)
    ensures p9 <= p10 <= |data| && CertChain(data, p10) == Got(chain)
  {
    hide ReadLen, ReadString, FdoHead, FdoBstr, Walk, Encode, InLang, Height, CertChain, ChainBytes, ChainFits;
    PartsAt(data, p6, FdoBstr(nonce), FdoBstr(xb), FdoHead(0, max), Encode(key) + ChainBytes(chain));
    p7 := BstrFieldAt(data, p6, nonce);
    p8 := BstrFieldAt(data, p7, xb);
    LenAt(data, p8, 0, max);
    p9 := p8 + |FdoHead(0, max)|;
    AtConcat(data, p9, Encode(key), ChainBytes(chain));
    WalkItem(key, data, p9, stack);
    p10 := p9 + |Encode(key)|;
    ChainAt(data, p10, chain);
  }

  /** OVNextEntry: the entry, if its number is the one asked for. */
  lemma EntryReplyRoundTrip(num: nat, entry: Bytes, after: Bytes, wanted: nat)
    requires num < 65536 && |entry| < 65536
    ensures EntryReply(FdoHead(4, 2) + (FdoHead(0, num) + FdoBstr(entry)) + after, wanted)
         == if num % 256 == wanted then Got(entry) else Bad
  {
    hide ReadLen, ReadString, FdoHead;
    var h, body := FdoHead(4, 2), FdoHead(0, num) + FdoBstr(entry);
    var data := h + body + after;
    assert data[0..|h|] == h;
    AtPrefix(h, body, after);
    AtConcat(data, |h|, FdoHead(0, num), FdoBstr(entry));
    LenAt(data, 0, 4, 2);
    LenAt(data, |h|, 0, num);
    StringAt(2, data, |h| + |FdoHead(0, num)|, entry);
  }

  /** The delegate chain of a rendezvous blob is the wrapped third element. */
  lemma To1dChainRoundTrip(first: Item, second: Item, chain: Option<seq<Bytes>>, after: Bytes, stack: nat)
    requires InLang(Fdo, first) && InLang(Fdo, second) && Height(first) < stack && Height(second) < stack
    requires ChainFits(chain) && |ChainBytes(chain)| < 65536
    ensures To1dChain(FdoHead(4, 3) + (Encode(first) + Encode(second) + FdoBstr(ChainBytes(chain))) + after, stack)
         == Got(chain)
    ensures To1dChain(FdoHead(4, 2) + after, stack) == Got(None)
  {
    hide ReadLen, ReadString, FdoHead, Walk, Encode, InLang, Height, CertChain, ChainBytes, ChainFits;
    var two := FdoHead(4, 2) + after;
    assert two[0..|FdoHead(4, 2)|] == FdoHead(4, 2);
    LenAt(two, 0, 4, 2);
    var h, c := FdoHead(4, 3), FdoBstr(ChainBytes(chain));
    var body := Encode(first) + Encode(second) + c;
    var data := h + body + after;
    assert data[0..|h|] == h;
    AtPrefix(h, body, after);
    AtConcat(data, |h|, Encode(first) + Encode(second), c);
    AtConcat(data, |h|, Encode(first), Encode(second));
    LenAt(data, 0, 4, 3);
    WalkItem(first, data, |h|, stack);
    WalkItem(second, data, |h| + |Encode(first)|, stack);
    StringAt(2, data, |h| + |Encode(first)| + |Encode(second)|, ChainBytes(chain));
    assert ChainBytes(chain)[0..|ChainBytes(chain)|] == ChainBytes(chain);
    ChainAt(ChainBytes(chain), 0, chain);
  }

  function FlagByte(f: bool): Bytes { [if f then 0xf5 else 0xf4] }

  /** OwnerSvcInfo: the second flag says "done", the rest is the ServiceInfo. */
  lemma OwnerInfoRoundTrip(more: bool, done: bool, info: Bytes)
    ensures ParseOwnerInfo(FdoHead(4, 3) + FlagByte(more) + FlagByte(done) + info) == Got(OwnerInfo(done, info))
    ensures ParseOwnerInfo([0xf6]) == Got(OwnerInfo(true, []))
  {
    var data := FdoHead(4, 3) + FlagByte(more) + FlagByte(done) + info;
    assert FdoHead(4, 3) == [0x83];
    assert data[0] == 0x83 && 0x83 / 32 == 4 && 0x83 % 32 == 3;
    assert data[3..] == info;
  }

  /** DoneAck: the nonce, if it has 16 bytes. */
  lemma DoneNonceRoundTrip(nonce: Bytes, after: Bytes)
    requires |nonce| < 65536
    ensures DoneNonce(FdoHead(4, 1) + FdoBstr(nonce) + after) == if |nonce| == 16 then Got(nonce) else Bad
  {
    hide ReadLen, ReadString, FdoHead;
    var h := FdoHead(4, 1);
    var data := h + FdoBstr(nonce) + after;
    assert data[0..|h|] == h;
    AtPrefix(h, FdoBstr(nonce), after);
    LenAt(data, 0, 4, 1);
    StringAt(2, data, |h|, nonce);
  }

  // ---- the run's parameters ----

  const AAD_PROVE_OV: Bytes := DomainAad(Ascii("FDO-TO2-ProveOVHdr-v1"), VERSION_200)
  const AAD_SETUP: Bytes := DomainAad(Ascii("FDO-TO2-SetupDevice-v1"), VERSION_200)
  const TAG_OWNER_SIGN: Bytes := Ascii("FDO-TO0-OwnerSign-v1")
  const BMO_PREFIX: Bytes := Ascii("fdo.bmo:")
  const MAX_ROUNDS: nat := 100_000

  /** The device: its platform, AEAD, key agreement (server share to session key),
      GUID, the two nonces it drew, the rendezvous blob if it has one, and the
      plaintext of its encrypted message number `k`. */
  datatype Device = Device(pf: Platform, aead: Aead, sessionKey: Bytes -> Option<Bytes>, guid: Bytes,
                           proveOvNonce: Bytes, setupNonce: Bytes, to1d: Option<Bytes>, plain: nat -> Bytes) {
    function Stack(): nat { pf.env.stack }

    /** Encrypted message number `k`; encryption may fail. */
    function Sealed(sek: Bytes, k: nat): Option<Bytes> { Encrypt0(aead, sek, Iv(k), plain(k)) }
  }

  /** Everything the network answers: the HTTP bodies of the TO2 messages, and
      the results of the fetches triggered by message `m` of round `r`. */
  datatype Server = Server(proveOvHdr: Option<Bytes>, entries: seq<Bytes>, setupDevice: Option<Bytes>,
                           rounds: seq<Bytes>, doneAck: Option<Bytes>,
                           net: (nat, nat) -> (Option<Bytes>, Option<Bytes>))

  // ---- step 3: who is the peer? ----

  function FetchEntries(srv: Server, i: nat, n: nat): Read<seq<Bytes>>
    requires i <= n
    decreases n - i
  {
    if i == n then Got([])
    else if i >= |srv.entries| then Bad
    else
      var e :- EntryReply(srv.entries[i], i);
      var rest :- FetchEntries(srv, i + 1, n);
      Got([e] + rest)
  }

  /** All entries were answered, each under its own number. */
  lemma {:induction false} FetchExactly(srv: Server, i: nat, n: nat, es: seq<Bytes>)
    requires i <= n
    ensures FetchEntries(srv, i, n) == Got(es) <==>
            && |es| == n - i && (i < n ==> n <= |srv.entries|)
            && forall k :: i <= k < n ==> EntryReply(srv.entries[k], k) == Got(es[k - i])
    decreases n - i
  {
    hide EntryReply;
    if i < n && i < |srv.entries| {
      var rest := es[if es == [] then 0 else 1..];
      FetchExactly(srv, i + 1, n, rest);
      if es != [] { assert es == [es[0]] + rest; }
      if FetchEntries(srv, i, n).Got? {
        var r := FetchEntries(srv, i + 1, n).value;
        FetchExactly(srv, i + 1, n, r);
        if FetchEntries(srv, i, n) == Got(es) { assert rest == r; }
      }
    }
  }

  method FetchAllEntries(srv: Server, n: nat) returns (r: Read<seq<Bytes>>)
    ensures r == FetchEntries(srv, 0, n)
  {
    hide EntryReply;
    var got: seq<Bytes> := [];
    var i := 0;
    PrependNone(FetchEntries(srv, 0, n));
    while i < n
      invariant i <= n
      invariant FetchEntries(srv, 0, n) == Prepend(got, FetchEntries(srv, i, n))
    {
      if i >= |srv.entries| { return Bad; }
      var e := EntryReply(srv.entries[i], i);
      if !e.Got? { return e.PropagateFailure(); }
      PrependCons(got, e.value, FetchEntries(srv, i + 1, n));
      got := got + [e.value];
      i := i + 1;
    }
    assert got + [] == got;
    return Got(got);
  }

  /** The key a chain (or its absence) makes responsible, with its permissions. */
  ghost function Responsible(pf: Platform, chain: Option<seq<Bytes>>, owner: Bytes): Option<(Bytes, Option<Perms>)> {
    if chain.None? then Some((owner, None))
    else
      var c :- ChainOutcome(pf.PkiOf(), chain.value, owner);
      Some((c.leafKey, Some(c.perms)))
  }

  method FindResponsible(pf: Platform, chain: Option<seq<Bytes>>, owner: Bytes)
    returns (r: Option<(Bytes, Option<Perms>)>)
    ensures r == Responsible(pf, chain, owner)
  {
    hide ChainOutcome;
    if chain.None? { return Some((owner, None)); }
    var c := VerifyDelegateChain(pf.PkiOf(), chain.value, owner);
    return if c.None? then None else Some((c.value.leafKey, Some(c.value.perms)));
  }

  /** The signer of ProveOVHdr: the owner, or a delegate allowed to onboard. */
  ghost function SignerOfProveOv(pf: Platform, s: Sign1, chain: Option<seq<Bytes>>, owner: Bytes)
    : Option<(Peer, Bytes)>
  {
    var (key, perms) :- Responsible(pf, chain, owner);
    if perms.Some? && !perms.value.onboard then None
    else if !Voucher.VerifySign1(pf, s, AAD_PROVE_OV, key) then None
    else Some((if perms.None? then OwnerDirect else DelegatePeer(perms.value.provision), key))
  }

  /** The rendezvous blob, when there is one, is signed by the owner or by a
      delegate with the redirect permission. */
  ghost predicate To1dOk(d: Device, ovHeader: Bytes, owner: Bytes) {
    d.to1d.None? || d.to1d.value == [] ||
    (var s := ParseSign1(d.to1d.value);
     var h := Voucher.ParseHeader(d.pf, ovHeader);
     && s.Some? && h.Some?
     && var chain := To1dChain(s.value.payload, d.Stack());
     && chain.Got?
     && var who := Responsible(d.pf, chain.value, owner);
     && who.Some? && (who.value.1.Some? ==> who.value.1.value.redirect)
     && Voucher.VerifySign1(d.pf, s.value, DomainAad(TAG_OWNER_SIGN, h.value.protver), who.value.0))
  }

  /** `chain` makes `key` responsible: the owner's own key if there is no chain, and
      otherwise the leaf of an owner-rooted chain. */
  ghost predicate Holds(pf: Platform, chain: Option<seq<Bytes>>, owner: Bytes, key: Bytes) {
    if chain.None? then key == owner
    else ChainOk(pf.PkiOf(), chain.value, owner) && key == Certs(pf.PkiOf(), chain.value)[0].key
  }

  /** The rendezvous blob, check by check: signed, under the tag that the voucher's
      version asks for, by the owner or by the leaf of an owner-rooted chain in which
      every certificate permits redirection. */
  ghost predicate To1dSigned(d: Device, blob: Bytes, ovHeader: Bytes, owner: Bytes) {
    && ParseSign1(blob).Some? && Voucher.ParseHeader(d.pf, ovHeader).Some?
    && var s, h := ParseSign1(blob).value, Voucher.ParseHeader(d.pf, ovHeader).value;
    && To1dChain(s.payload, d.Stack()).Got?
    && var chain := To1dChain(s.payload, d.Stack()).value;
    && d.pf.alg(s.protected) == -7
    && exists key ::
         && Holds(d.pf, chain, owner, key)
         && (chain.Some? ==> forall i :: 0 <= i < |chain.value| ==> d.pf.cert(chain.value[i]).value.perms.redirect)
         && d.pf.es256(SigStructure(s.protected, DomainAad(Ascii("FDO-TO0-OwnerSign-v1"), h.protver), s.payload),
                       s.signature, key)
  }

  lemma To1dExactly(d: Device, ovHeader: Bytes, owner: Bytes)
    ensures To1dOk(d, ovHeader, owner) <==>
            d.to1d.None? || d.to1d.value == [] || To1dSigned(d, d.to1d.value, ovHeader, owner)
  {
    hide ParseSign1, Voucher.ParseHeader, To1dChain, SigStructure, DomainAad, ChainOk, Common;
    if d.to1d.Some? && ParseSign1(d.to1d.value).Some? {
      var chain := To1dChain(ParseSign1(d.to1d.value).value.payload, d.Stack());
      if chain.Got? && chain.value.Some? && ChainOk(d.pf.PkiOf(), chain.value.value, owner) {
        PermissionExactly(d.pf.PkiOf(), chain.value.value, owner);
      }
    }
  }

  method CheckTo1d(d: Device, ovHeader: Bytes, owner: Bytes) returns (ok: bool)
    ensures ok == To1dOk(d, ovHeader, owner)
  {
    hide ParseSign1, Voucher.ParseHeader, To1dChain, Responsible, Voucher.VerifySign1, DomainAad;
    if d.to1d.None? || d.to1d.value == [] { return true; }
    var s := ParseSign1(d.to1d.value);
    if s.None? { return false; }
    var h := Voucher.ParseHeader(d.pf, ovHeader);
    if h.None? { return false; }
    var chain := To1dChain(s.value.payload, d.Stack());
    if !chain.Got? { return false; }
    var who := FindResponsible(d.pf, chain.value, owner);
    if who.None? || (who.value.1.Some? && !who.value.1.value.redirect) { return false; }
    return Voucher.VerifySign1(d.pf, s.value, DomainAad(TAG_OWNER_SIGN, h.value.protver), who.value.0);
  }

  /** What step 3b establishes. */
  datatype Proven = Proven(owner: Bytes, peer: Peer, signer: Bytes, sek: Bytes)

  ghost function Presented(p: ProveOv, entries: seq<Bytes>): Voucher.Presented {
    Voucher.Presented(p.ovHeader, p.hmacRaw, p.hmac, entries)
  }

  ghost function Authenticate(d: Device, srv: Server): Option<Proven> {
    var resp :- srv.proveOvHdr;
    var payload :- ExtractPayload(resp, d.Stack()).Try();
    var p :- ParseProveOv(payload, d.Stack()).Try();
    var sek :- d.sessionKey(p.xb);
    var entries :- FetchEntries(srv, 0, p.numEntries).Try();
    var owner := Voucher.Verify(d.pf, Presented(p, entries), d.guid);
    if owner.Err? then None else
      var s :- ParseSign1(resp);
      var (peer, signer) :- SignerOfProveOv(d.pf, s, p.chain, owner.value);
      if p.nonce != d.proveOvNonce || !To1dOk(d, p.ovHeader, owner.value) then None
      else Some(Proven(owner.value, peer, signer, sek))
  }

  method ProveOwner(d: Device, srv: Server) returns (r: Option<Proven>)
    ensures r == Authenticate(d, srv)
  {
    hide ExtractPayload, ParseProveOv, FetchEntries, Voucher.Verify, ParseSign1, To1dOk, Responsible,
      Voucher.VerifySign1;
    if srv.proveOvHdr.None? { return None; }
    var resp := srv.proveOvHdr.value;
    var payload := ExtractPayload(resp, d.Stack());
    if !payload.Got? { return None; }
    var parsed := ParseProveOv(payload.value, d.Stack());
    if !parsed.Got? { return None; }
    var p := parsed.value;
    var sek := d.sessionKey(p.xb);
    if sek.None? { return None; }
    var entries := FetchAllEntries(srv, p.numEntries);
    if !entries.Got? { return None; }
    var v := Voucher.Presented.Presented(p.ovHeader, p.hmacRaw, p.hmac, entries.value);
    var owner := Voucher.VerifyVoucher(d.pf, v, d.guid);
    if owner.Err? { return None; }
    var s := ParseSign1(resp);
    if s.None? { return None; }
    var who := FindResponsible(d.pf, p.chain, owner.value);
    if who.None? { return None; }
    var (key, perms) := who.value;
    if perms.Some? && !perms.value.onboard { return None; }
    if !Voucher.VerifySign1(d.pf, s.value, AAD_PROVE_OV, key) { return None; }
    if p.nonce != d.proveOvNonce { return None; }
    var ok := CheckTo1d(d, p.ovHeader, owner.value);
    if !ok { return None; }
    var peer := if perms.None? then OwnerDirect else DelegatePeer(perms.value.provision);
    return Some(Proven(owner.value, peer, key, sek.value));
  }

  // ---- step 4: SetupDevice20 ----

  /** Resale must be signed by the new owner key it names and echo the nonce;
      credential reuse must be signed by the ProveOVHdr signer. */
  function SetupOk(pf: Platform, plain: Bytes, setupNonce: Bytes, signer: Bytes): bool {
    var s := ParseSign1(plain);
    s.Some? && SetupPayloadOk(pf, s.value, setupNonce, signer)
  }

  datatype Disposition = Resale(guid: Bytes, nonce: Bytes, key: Bytes) | Reuse

  /** `[1, ReplacementCred]` or `[2, null]`, with a third element nobody reads. */
  function DispositionOf(d: Bytes, stack: nat): Read<Disposition> {
    var (n, p0) :- ReadLen(d, 0, 4);
    if n != 3 then Bad else
      var (code, p) :- ReadLen(d, p0, 0);
      if code == 1 then
        var (guid, nonce, key) :- ReplacementCred(d, p, stack);
        Got(Resale(guid, nonce, key))
      else if code == 2 && p < |d| && d[p] == 0xf6 then Got(Reuse)
      else Bad
  }

  function SetupPayloadOk(pf: Platform, s: Sign1, setupNonce: Bytes, signer: Bytes): bool {
    match DispositionOf(s.payload, pf.env.stack)
    case Got(Resale(guid, nonce, key)) =>
      var owner2 := pf.publicKey(key);
      owner2.Some? && Voucher.VerifySign1(pf, s, AAD_SETUP, owner2.value) && nonce == setupNonce && |guid| == 16
    case Got(Reuse) => Voucher.VerifySign1(pf, s, AAD_SETUP, signer)
    case _ => false
  }

  predicate IsResale(pf: Platform, plain: Bytes) {
    var s := ParseSign1(plain);
    s.Some? && var r := DispositionOf(s.value.payload, pf.env.stack);
    r.Got? && r.value.Resale?
  }

  /** SetupDevice20, check by check. A resale names this run's nonce and a GUID, and is
      signed by the key it names; a reuse is signed by `signer`. Nothing else passes. */
  ghost predicate SetupSigned(pf: Platform, plain: Bytes, setupNonce: Bytes, signer: Bytes) {
    && ParseSign1(plain).Some?
    && var s := ParseSign1(plain).value;
    && pf.alg(s.protected) == -7
    && exists key ::
         && pf.es256(SigStructure(s.protected, DomainAad(Ascii("FDO-TO2-SetupDevice-v1"), 200), s.payload),
                     s.signature, key)
         && match DispositionOf(s.payload, pf.env.stack)
            case Got(Reuse) => key == signer
            case Got(Resale(guid, nonce, named)) =>
              nonce == setupNonce && |guid| == 16 && pf.publicKey(named) == Some(key)
            case _ => false
  }

  lemma SetupExactly(pf: Platform, plain: Bytes, setupNonce: Bytes, signer: Bytes)
    ensures SetupOk(pf, plain, setupNonce, signer) <==> SetupSigned(pf, plain, setupNonce, signer)
  {
    hide ParseSign1, DispositionOf, SigStructure, DomainAad;
  }

  function ResaleBytes(rv: Item, guid: Bytes, nonce: Bytes, key: Item): Bytes {
    FdoHead(4, 3) + FdoHead(0, 1) + (FdoHead(4, 4) + (Encode(rv) + FdoBstr(guid) + FdoBstr(nonce) + Encode(key)))
  }

  /** Both dispositions as printed. */
  lemma {:induction false} DispositionRoundTrip(rv: Item, guid: Bytes, nonce: Bytes, key: Item, after: Bytes,
                                                stack: nat)
    requires InLang(Fdo, rv) && InLang(Fdo, key) && Height(rv) < stack && Height(key) < stack
    requires |guid| < 65536 && |nonce| < 65536
    ensures DispositionOf(ResaleBytes(rv, guid, nonce, key) + after, stack) == Got(Resale(guid, nonce, Encode(key)))
    ensures DispositionOf(FdoHead(4, 3) + FdoHead(0, 2) + [0xf6] + after, stack) == Got(Reuse)
  {
    hide ReadLen, ReadString, FdoHead, Walk, Encode, InLang, Height;
    var a, c := FdoHead(4, 3), FdoHead(0, 1);
    var cred := Encode(rv) + FdoBstr(guid) + FdoBstr(nonce) + Encode(key);
    var body := FdoHead(4, 4) + cred;
    var data := (a + c) + body + after;
    assert data[0..|a + c|] == a + c;
    AtConcat(data, 0, a, c);
    AtPrefix(a + c, body, after);
    AtConcat(data, |a + c|, FdoHead(4, 4), cred);
    LenAt(data, 0, 4, 3);
    LenAt(data, |a|, 0, 1);
    CredAt(data, |a + c|, rv, guid, nonce, key, stack);
    ReuseAt(after, stack);
  }

  lemma {:induction false} CredAt(data: Bytes, pos: nat, rv: Item, guid: Bytes, nonce: Bytes, key: Item, stack: nat)
    requires InLang(Fdo, rv) && InLang(Fdo, key) && Height(rv) < stack && Height(key) < stack
    requires |guid| < 65536 && |nonce| < 65536
    requires At(data, pos, FdoHead(4, 4))
    requires At(data, pos + |FdoHead(4, 4)|, Encode(rv) + FdoBstr(guid) + FdoBstr(nonce) + Encode(key))
    ensures ReplacementCred(data, pos, stack) == Got((guid, nonce, Encode(key)))
  {
    hide ReadLen, ReadString, FdoHead, Walk, Encode, InLang, Height;
    LenAt(data, pos, 4, 4);
    var p0 := pos + |FdoHead(4, 4)|;
    PartsAt(data, p0, Encode(rv), FdoBstr(guid), FdoBstr(nonce), Encode(key));
    WalkItem(rv, data, p0, stack);
    var p1 := p0 + |Encode(rv)|;
    StringAt(2, data, p1, guid);
    var p2 := p1 + |FdoBstr(guid)|;
    StringAt(2, data, p2, nonce);
    WalkItem(key, data, p2 + |FdoBstr(nonce)|, stack);
  }

  lemma ReuseAt(after: Bytes, stack: nat)
    ensures DispositionOf(FdoHead(4, 3) + FdoHead(0, 2) + [0xf6] + after, stack) == Got(Reuse)
  {
    hide ReadLen, FdoHead;
    var a, c := FdoHead(4, 3), FdoHead(0, 2);
    var data := a + c + [0xf6] + after;
    assert data[0..|a|] == a && data[|a|..|a| + |c|] == c && data[|a| + |c|] == 0xf6;
    LenAt(data, 0, 4, 3);
    LenAt(data, |a|, 0, 2);
  }

  /** Only credential reuse ties SetupDevice20 to the ProveOVHdr signer: it must
      carry that key's signature. Resale is judged the same whoever signed. */
  lemma SetupSigner(pf: Platform, plain: Bytes, setupNonce: Bytes, signer: Bytes, other: Bytes)
    ensures IsResale(pf, plain) ==> SetupOk(pf, plain, setupNonce, signer) == SetupOk(pf, plain, setupNonce, other)
    ensures !IsResale(pf, plain) && SetupOk(pf, plain, setupNonce, signer) ==>
              Voucher.VerifySign1(pf, ParseSign1(plain).value, AAD_SETUP, signer)
  {
    hide ParseSign1, DispositionOf, Voucher.VerifySign1, AAD_SETUP;
  }

  /** `[RendezvousInfo, Guid, NonceTO2SetupDv, Owner2PubKey]`: GUID, nonce, key. */
  function ReplacementCred(d: Bytes, pos: nat, stack: nat): Read<(Bytes, Bytes, Bytes)> {
    var (n, p0) :- ReadLen(d, pos, 4);
    if n != 4 then Bad else
      var p1 :- Walk(d, p0, stack);
      var (guid, p2) :- ReadString(d, p1, 2);
      var (nonce, p3) :- ReadString(d, p2, 2);
      var p4 :- Walk(d, p3, stack);
      var key :- Span(d, p3, p4);
      Got((guid, nonce, key))
  }

  // ---- step 5: ServiceInfo rounds ----

  function BmoMsgs(srv: Server, round: nat, kvs: seq<Kv>): seq<Msg> {
    if kvs == [] then []
    else
      var i := |kvs| - 1;
      var (key, value) := kvs[i];
      var (f1, f2) := srv.net(round, i);
      BmoMsgs(srv, round, kvs[..i]) + (if BMO_PREFIX <= key then [Msg(key, value, f1, f2)] else [])
  }

  /** One round: is the owner done, and which messages reach the session. An
      unreadable ServiceInfo array is ignored; an unreadable reply is fatal, and so
      is an array that kills the decoder. */
  function RoundOf(d: Device, srv: Server, sek: Bytes, round: nat): Option<(bool, seq<Kv>)> {
    var _ :- d.Sealed(sek, round + 1);
    if round >= |srv.rounds| then None
    else
      var plain :- Decrypt0(d.aead, sek, srv.rounds[round], d.Stack());
      var svc :- ParseOwnerInfo(plain).Try();
      match ServiceInfoOf(d.pf.env, svc.info)
      case Got(kvs) => Some((svc.done, kvs))
      case Bad => Some((svc.done, []))
      case Crash => None
  }

  /** All messages of the exchange from `round` on, and the number of rounds it took;
      the loop gives up waiting for "done" after MAX_ROUNDS. */
  function Exchange(d: Device, srv: Server, sek: Bytes, round: nat, ms: seq<Msg>): (r: Option<(seq<Msg>, nat)>)
    requires round <= MAX_ROUNDS
    ensures r.Some? ==> ms <= r.value.0 && r.value.1 <= MAX_ROUNDS
    decreases MAX_ROUNDS - round
  {
    if round == MAX_ROUNDS then Some((ms, round))
    else
      var (done, kvs) :- RoundOf(d, srv, sek, round);
      var ms' := ms + BmoMsgs(srv, round, kvs);
      if done then Some((ms', round + 1)) else Exchange(d, srv, sek, round + 1, ms')
  }

  function MsgAt(srv: Server, round: nat, kvs: seq<Kv>, i: nat): Msg
    requires i < |kvs|
  {
    Msg(kvs[i].0, kvs[i].1, srv.net(round, i).0, srv.net(round, i).1)
  }

  /** `idx` lists, in order, exactly the entries with a `fdo.bmo:` key. */
  ghost predicate BmoIndices(kvs: seq<Kv>, idx: seq<nat>) {
    && (forall j :: 0 <= j < |idx| ==> idx[j] < |kvs|)
    && (forall j, k :: 0 <= j < k < |idx| ==> idx[j] < idx[k])
    && (forall i :: 0 <= i < |kvs| ==> (i in idx <==> Ascii("fdo.bmo:") <= kvs[i].0))
  }

  /** All those entries reach the session, in order, and no others. */
  lemma {:induction false} BmoMsgsExactly(srv: Server, round: nat, kvs: seq<Kv>) returns (idx: seq<nat>)
    ensures BmoIndices(kvs, idx) && |BmoMsgs(srv, round, kvs)| == |idx|
    ensures forall j :: 0 <= j < |idx| ==> BmoMsgs(srv, round, kvs)[j] == MsgAt(srv, round, kvs, idx[j])
    decreases |kvs|
  {
    hide BmoIndices;
    if kvs == [] {
      idx := [];
      NoIndices();
    } else {
      var n := |kvs| - 1;
      var init := BmoMsgsExactly(srv, round, kvs[..n]);
      idx := if BMO_PREFIX <= kvs[n].0 then init + [n] else init;
      IndicesStep(kvs, init);
      IndexBound(kvs, idx);
      IndexBound(kvs[..n], init);
      forall j | 0 <= j < |idx| ensures BmoMsgs(srv, round, kvs)[j] == MsgAt(srv, round, kvs, idx[j]) {
        if j < |init| { assert kvs[..n][init[j]] == kvs[init[j]]; }
      }
    }
  }

  lemma NoIndices() ensures BmoIndices([], []) { }

  lemma IndexBound(kvs: seq<Kv>, idx: seq<nat>)
    requires BmoIndices(kvs, idx)
    ensures forall j :: 0 <= j < |idx| ==> idx[j] < |kvs|
  {
  }

  lemma IndicesStep(kvs: seq<Kv>, init: seq<nat>)
    requires kvs != [] && BmoIndices(kvs[..|kvs| - 1], init)
    ensures var n := |kvs| - 1;
            BmoIndices(kvs, if BMO_PREFIX <= kvs[n].0 then init + [n] else init)
  {
    hide Ascii;
    var n := |kvs| - 1;
    var idx := if BMO_PREFIX <= kvs[n].0 then init + [n] else init;
    assert BMO_PREFIX == Ascii("fdo.bmo:");
    forall i | 0 <= i < |kvs| ensures i in idx <==> Ascii("fdo.bmo:") <= kvs[i].0 {
      if i < n { assert kvs[..n][i] == kvs[i]; }
      assert i in idx <==> i in init || (i == n && BMO_PREFIX <= kvs[n].0);
      assert n !in init;
    }
  }

  /** One reply of an honest server: the ServiceInfo it sends, and whether that is
      the last. */
  datatype Round = Round(more: bool, done: bool, kvs: seq<Kv>)

  function RoundBytes(r: Round): Bytes {
    FdoHead(4, 3) + FlagByte(r.more) + FlagByte(r.done) + EncodeServiceInfo(r.kvs)
  }

  predicate RoundFits(d: Device, r: Round) {
    |r.kvs| < 65536 && forall i :: 0 <= i < |r.kvs| ==> KvFits(r.kvs[i]) && d.pf.env.utf8(r.kvs[i].0)
  }

  ghost predicate AnswersOne(d: Device, srv: Server, sek: Bytes, round: nat, r: Round) {
    && round < |srv.rounds| && d.Sealed(sek, round + 1).Some? && RoundFits(d, r)
    && Decrypt0(d.aead, sek, srv.rounds[round], d.Stack()) == Some(RoundBytes(r))
  }

  /** The server answers round `round` on with the replies `rs`, encrypted so that they
      open under the session key; only the last says "done". */
  ghost predicate Answers(d: Device, srv: Server, sek: Bytes, round: nat, rs: seq<Round>)
    decreases |rs|
  {
    rs == [] || (&& AnswersOne(d, srv, sek, round, rs[0]) && (rs[0].done <==> |rs| == 1)
                 && Answers(d, srv, sek, round + 1, rs[1..]))
  }

  function MsgsOf(srv: Server, round: nat, rs: seq<Round>): seq<Msg>
    decreases |rs|
  {
    if rs == [] then [] else BmoMsgs(srv, round, rs[0].kvs) + MsgsOf(srv, round + 1, rs[1..])
  }

  lemma RoundMeans(d: Device, srv: Server, sek: Bytes, round: nat, r: Round)
    requires AnswersOne(d, srv, sek, round, r)
    ensures RoundOf(d, srv, sek, round) == Some((r.done, r.kvs))
  {
    hide Decrypt0, Encrypt0, ServiceInfoOf, ParseOwnerInfo, EncodeServiceInfo, FdoHead, KvFits;
    OwnerInfoRoundTrip(r.more, r.done, EncodeServiceInfo(r.kvs));
    ServiceInfoRoundTrip(d.pf.env, r.kvs);
  }

  /** A reply whose ServiceInfo cannot be read is taken for an empty one, and so is
      the null reply, which also says "done". */
  lemma UnreadableIsIgnored(d: Device, srv: Server, sek: Bytes, round: nat, more: bool, done: bool, info: Bytes)
    requires round < |srv.rounds| && d.Sealed(sek, round + 1).Some?
    ensures var plain := Decrypt0(d.aead, sek, srv.rounds[round], d.Stack());
            var printed := FdoHead(4, 3) + FlagByte(more) + FlagByte(done) + info;
            && (plain == Some(printed) && ServiceInfoOf(d.pf.env, info) == Bad ==>
                  RoundOf(d, srv, sek, round) == Some((done, [])))
            && (plain == Some([0xf6]) ==> RoundOf(d, srv, sek, round) == Some((true, [])))
  {
    hide Decrypt0, Encrypt0, ParseOwnerInfo, FdoHead, Entries;
    OwnerInfoRoundTrip(more, done, info);
  }

  /** The exchange delivers what an honest server sends: the messages of all its
      replies, in order, and it ends with the reply that says "done". */
  lemma {:induction false} ExchangeRoundTrip(d: Device, srv: Server, sek: Bytes, round: nat, rs: seq<Round>,
                                             ms: seq<Msg>)
    requires rs != [] && round + |rs| <= MAX_ROUNDS && Answers(d, srv, sek, round, rs)
    ensures Exchange(d, srv, sek, round, ms) == Some((ms + MsgsOf(srv, round, rs), round + |rs|))
    decreases |rs|
  {
    hide RoundOf, BmoMsgs, AnswersOne;
    RoundMeans(d, srv, sek, round, rs[0]);
    var ms' := ms + BmoMsgs(srv, round, rs[0].kvs);
    var rest := rs[1..];
    assert Exchange(d, srv, sek, round, ms)
        == if rs[0].done then Some((ms', round + 1)) else Exchange(d, srv, sek, round + 1, ms');
    if rest != [] {
      ExchangeRoundTrip(d, srv, sek, round + 1, rest, ms');
    }
    if rest == [] { assert ms' + MsgsOf(srv, round + 1, rest) == ms'; }
    assert ms' + MsgsOf(srv, round + 1, rest) == ms + MsgsOf(srv, round, rs);
  }

  function CtxOf(d: Device, a: Proven): Ctx { Ctx(d.pf, Some(a.owner), a.peer, Some(d.guid)) }

  /** `sent` are the encrypted messages number 0, 1, 2, ... */
  ghost predicate Sent(d: Device, sek: Bytes, sent: seq<Bytes>) {
    forall k :: 0 <= k < |sent| ==> d.Sealed(sek, k) == Some(sent[k])
  }

  /** Draw the next IV and encrypt the next message under it. */
  method SealNext(d: Device, sek: Bytes, counter: nat, sent: seq<Bytes>)
    returns (ok: bool, next: nat, sent': seq<Bytes>)
    requires counter == |sent| && Sent(d, sek, sent)
    ensures ok == d.Sealed(sek, counter).Some? && Sent(d, sek, sent')
    ensures if ok then next == counter + 1 == |sent'| else sent' == sent
  {
    hide Encrypt0;
    var iv;
    iv, next := NextSessionIv(counter);
    var m := Encrypt0(d.aead, sek, iv, d.plain(counter));
    ok := m.Some?;
    sent' := if ok then sent + [m.value] else sent;
  }

  /** The inner loop: hand the entries of one round to the session. */
  method FeedRound(ctx: Ctx, srv: Server, round: nat, kvs: seq<Kv>, session: BmoSession, ghost before: seq<Msg>)
    requires session.View() == Run(ctx, before)
    modifies session
    ensures session.View() == Run(ctx, before + BmoMsgs(srv, round, kvs))
  {
    hide Process, BMO_PREFIX;
    var i := 0;
    assert before + BmoMsgs(srv, round, kvs[..0]) == before;
    while i < |kvs|
      invariant i <= |kvs| && session.View() == Run(ctx, before + BmoMsgs(srv, round, kvs[..i]))
    {
      var (key, value) := kvs[i];
      assert kvs[..i + 1][..i] == kvs[..i];
      if BMO_PREFIX <= key {
        var (f1, f2) := srv.net(round, i);
        var m := Msg(key, value, f1, f2);
        var _ := session.ProcessBmoMessage(ctx, m);
        RunSnoc(ctx, before + BmoMsgs(srv, round, kvs[..i]), m);
        assert before + BmoMsgs(srv, round, kvs[..i + 1]) == before + BmoMsgs(srv, round, kvs[..i]) + [m];
      } else {
        assert BmoMsgs(srv, round, kvs[..i + 1]) == BmoMsgs(srv, round, kvs[..i]);
      }
      i := i + 1;
    }
    assert kvs[..|kvs|] == kvs;
  }

  lemma RunNil(ctx: Ctx)
    ensures Run(ctx, []) == FRESH
  {
  }

  /** A session that has crashed stays so. */
  lemma {:induction false} CrashStays(ctx: Ctx, ms: seq<Msg>, more: seq<Msg>)
    requires ms <= more && Run(ctx, ms).state == Crashed
    ensures Run(ctx, more).state == Crashed
    decreases |more|
  {
    if |ms| < |more| {
      CrashStays(ctx, ms, more[..|more| - 1]);
    } else {
      assert ms == more;
    }
  }

  /** The ServiceInfo loop: at most MAX_ROUNDS rounds, one encrypted message each. */
  method ServiceInfoLoop(d: Device, srv: Server, a: Proven, before: seq<Bytes>)
    returns (ok: bool, session: BmoSession, sent: seq<Bytes>)
    requires Sent(d, a.sek, before) && |before| == 1
    ensures fresh(session) && Sent(d, a.sek, sent) && |sent| <= MAX_ROUNDS + 1
    ensures var ex := Exchange(d, srv, a.sek, 0, []);
            && ok == (ex.Some? && Run(CtxOf(d, a), ex.value.0).state != Crashed)
            && (ok ==> session.View() == Run(CtxOf(d, a), ex.value.0) && |sent| == ex.value.1 + 1)
  {
    hide RoundOf, BmoMsgs, Process, Run, Encrypt0;
    session := new BmoSession();
    ghost var ms: seq<Msg> := [];
    RunNil(CtxOf(d, a));
    var round, done, counter := 0, false, 1;
    sent := before;
    while !done
      invariant round <= MAX_ROUNDS && |sent| == counter == round + 1 && Sent(d, a.sek, sent)
      invariant fresh(session) && session.View() == Run(CtxOf(d, a), ms) && session.state != Crashed
      invariant Exchange(d, srv, a.sek, 0, []) == if done then Some((ms, round)) else Exchange(d, srv, a.sek, round, ms)
      decreases !done, MAX_ROUNDS - round
    {
      if round == MAX_ROUNDS { break; }
      var sealed;
      sealed, counter, sent := SealNext(d, a.sek, counter, sent);
      var r := RoundOf(d, srv, a.sek, round);
      NeedsSealed(d, srv, a.sek, round);
      if !sealed || r.None? { return false, session, sent; }
      FeedRound(CtxOf(d, a), srv, round, r.value.1, session, ms);
      ms := ms + BmoMsgs(srv, round, r.value.1);
      round, done := round + 1, r.value.0;
      if session.state == Crashed {
        if Exchange(d, srv, a.sek, 0, []).Some? { CrashStays(CtxOf(d, a), ms, Exchange(d, srv, a.sek, 0, []).value.0); }
        return false, session, sent;
      }
    }
    ok := true;
  }

  lemma NeedsSealed(d: Device, srv: Server, sek: Bytes, round: nat)
    ensures RoundOf(d, srv, sek, round).Some? ==> d.Sealed(sek, round + 1).Some?
  {
  }

  // ---- the run ----

  datatype Outcome = Aborted | Finished | Launched(image: Bytes)

  ghost function Opened(d: Device, sek: Bytes, body: Option<Bytes>): Option<Bytes> {
    var b :- body;
    Decrypt0(d.aead, sek, b, d.Stack())
  }

  ghost function To2Outcome(d: Device, srv: Server): Outcome {
    var a := Authenticate(d, srv);
    if a.None? || d.Sealed(a.value.sek, 0).None? then Aborted else
      var setup := Opened(d, a.value.sek, srv.setupDevice);
      if setup.None? || !SetupOk(d.pf, setup.value, d.setupNonce, a.value.signer) then Aborted else
        var ex := Exchange(d, srv, a.value.sek, 0, []);
        if ex.None? then Aborted else
          var s := Run(CtxOf(d, a.value), ex.value.0);
          if s.state == Crashed || d.Sealed(a.value.sek, ex.value.1 + 1).None? then Aborted else
            var ack := Opened(d, a.value.sek, srv.doneAck);
            if ack.None? || DoneNonce(ack.value) != Got(d.setupNonce) then Aborted
            else if s.state == Complete && s.image != [] then Launched(s.image) else Finished
  }

  /** The run itself, with every encrypted message the device sent, in order. The IVs
      a receiver finds in them are pairwise distinct. */
  method PerformTo2(d: Device, srv: Server) returns (r: Outcome, sent: seq<Bytes>)
    ensures r == To2Outcome(d, srv)
    ensures |sent| <= MAX_ROUNDS + 2
    ensures var a := Authenticate(d, srv);
            if a.Some? then Sent(d, a.value.sek, sent) else sent == []
    ensures forall i, stack: nat :: 0 <= i < |sent| ==> EncryptedParts(sent[i], stack).Got?
    ensures forall i, j, stack: nat :: 0 <= i < j < |sent| ==>
              EncryptedParts(sent[i], stack).value.0 != EncryptedParts(sent[j], stack).value.0
  {
    hide Authenticate, SetupOk, Exchange, DoneNonce, Decrypt0, Run, Encrypt0, EncryptedParts;
    sent := [];
    var a := ProveOwner(d, srv);
    if a.None? { return Aborted, []; }
    var sek := a.value.sek;
    var sealed, counter;
    sealed, counter, sent := SealNext(d, sek, 0, sent);
    WireIvsDistinct(d, sek, sent);
    if !sealed || srv.setupDevice.None? { return Aborted, sent; }
    var setup := Decrypt0(d.aead, sek, srv.setupDevice.value, d.Stack());
    if setup.None? || !SetupOk(d.pf, setup.value, d.setupNonce, a.value.signer) { return Aborted, sent; }
    var ok, session;
    ok, session, sent := ServiceInfoLoop(d, srv, a.value, sent);
    WireIvsDistinct(d, sek, sent);
    if !ok { return Aborted, sent; }
    sealed, counter, sent := SealNext(d, sek, |sent|, sent);
    WireIvsDistinct(d, sek, sent);
    if !sealed || srv.doneAck.None? { return Aborted, sent; }
    var ack := Decrypt0(d.aead, sek, srv.doneAck.value, d.Stack());
    if ack.None? || DoneNonce(ack.value) != Got(d.setupNonce) { return Aborted, sent; }
    if session.state == Complete && session.image != [] {
      return Launched(session.image), sent;
    }
    return Finished, sent;
  }

  /** The IV of a sent message, as any receiver finds it. */
  lemma WireIv(d: Device, sek: Bytes, k: nat, stack: nat)
    requires d.Sealed(sek, k).Some?
    ensures EncryptedParts(d.Sealed(sek, k).value, stack).Got?
    ensures EncryptedParts(d.Sealed(sek, k).value, stack).value.0 == Iv(k)
  {
    hide EncryptedParts, EncryptedMessage;
    EncryptedRoundTrip(Iv(k), d.aead.seal(sek, Iv(k), d.plain(k), ENC_AAD).value, stack);
  }

  lemma WireIvsDistinct(d: Device, sek: Bytes, sent: seq<Bytes>)
    requires Sent(d, sek, sent) && |sent| <= MAX_ROUNDS + 2
    ensures forall i, stack: nat :: 0 <= i < |sent| ==> EncryptedParts(sent[i], stack).Got?
    ensures forall i, j, stack: nat :: 0 <= i < j < |sent| ==>
              EncryptedParts(sent[i], stack).value.0 != EncryptedParts(sent[j], stack).value.0
  {
    hide EncryptedParts, Encrypt0, Iv;
    forall i, stack: nat | 0 <= i < |sent|
      ensures EncryptedParts(sent[i], stack).Got? && EncryptedParts(sent[i], stack).value.0 == Iv(i)
    {
      WireIv(d, sek, i, stack);
    }
    forall i, j, stack: nat | 0 <= i < j < |sent|
      ensures EncryptedParts(sent[i], stack).value.0 != EncryptedParts(sent[j], stack).value.0
    {
      if Iv(i) == Iv(j) { IvInjective(i, j); }
    }
  }

  // ---- what a launch proves ----

  /** The checks of step 3 on a ProveOVHdr reply, each on the view of the reply it
      is made on. The signature is checked over `s.payload`, the payload the COSE
      parser finds; voucher, key share, nonce and delegate chain are read from
      `payload`, which the TO2 decoder finds. That the two are the same is not
      among the checks: see SignedFields and FieldsNotSigned. */
  ghost predicate ReplyPasses(d: Device, resp: Bytes, s: Sign1, payload: Bytes, p: ProveOv, entries: seq<Bytes>,
                              a: Proven) {
    && ParseSign1(resp) == Some(s) && ExtractPayload(resp, d.Stack()) == Got(payload)
    && ParseProveOv(payload, d.Stack()) == Got(p)
    && |entries| == p.numEntries
    && Voucher.Verify(d.pf, Presented(p, entries), d.guid) == Voucher.Ok(a.owner)
    && d.pf.alg(s.protected) == -7
    && d.pf.es256(SigStructure(s.protected, DomainAad(Ascii("FDO-TO2-ProveOVHdr-v1"), 200), s.payload), s.signature,
                  a.signer)
    && (p.chain.None? ==> a.signer == a.owner && a.peer == OwnerDirect)
    && (p.chain.Some? ==> && ChainOk(d.pf.PkiOf(), p.chain.value, a.owner)
                          && var c := ChainOutcome(d.pf.PkiOf(), p.chain.value, a.owner).value;
                          && c.perms.onboard && a.signer == c.leafKey && a.peer == DelegatePeer(c.perms.provision))
    && p.nonce == d.proveOvNonce && d.sessionKey(p.xb) == Some(a.sek)
    && (d.to1d.None? || d.to1d.value == [] || To1dSigned(d, d.to1d.value, p.ovHeader, a.owner))
  }

  lemma {:induction false} FetchedCount(srv: Server, i: nat, n: nat)
    requires i <= n && FetchEntries(srv, i, n).Got?
    ensures |FetchEntries(srv, i, n).value| == n - i
    decreases n - i
  {
    hide EntryReply;
    if i < n { FetchedCount(srv, i + 1, n); }
  }

  lemma ProvenPeer(d: Device, srv: Server)
    returns (resp: Bytes, s: Sign1, payload: Bytes, p: ProveOv, entries: seq<Bytes>)
    requires Authenticate(d, srv).Some?
    ensures srv.proveOvHdr == Some(resp) && ReplyPasses(d, resp, s, payload, p, entries, Authenticate(d, srv).value)
    ensures FetchEntries(srv, 0, p.numEntries) == Got(entries)
  {
    hide ExtractPayload, ParseProveOv, FetchEntries, Voucher.Verify, ParseSign1, To1dOk, To1dSigned, ChainOk,
      SigStructure;
    resp := srv.proveOvHdr.value;
    payload := ExtractPayload(resp, d.Stack()).value;
    p := ParseProveOv(payload, d.Stack()).value;
    entries := FetchEntries(srv, 0, p.numEntries).value;
    FetchedCount(srv, 0, p.numEntries);
    s := ParseSign1(resp).value;
    To1dExactly(d, p.ovHeader, Authenticate(d, srv).value.owner);
  }

  lemma PassingProves(d: Device, srv: Server, resp: Bytes, s: Sign1, payload: Bytes, p: ProveOv, entries: seq<Bytes>,
                      a: Proven)
    requires ReplyPasses(d, resp, s, payload, p, entries, a) && srv.proveOvHdr == Some(resp)
    requires FetchEntries(srv, 0, p.numEntries) == Got(entries)
    ensures Authenticate(d, srv) == Some(a)
  {
    hide ExtractPayload, ParseProveOv, FetchEntries, Voucher.Verify, ParseSign1, To1dOk, To1dSigned, ChainOk,
      SigStructure, Common;
    To1dExactly(d, p.ovHeader, a.owner);
  }

  /** Step 3 succeeds exactly when the reply passes these checks, with the entries
      the server returned in order. */
  lemma AuthenticateExactly(d: Device, srv: Server, a: Proven)
    ensures Authenticate(d, srv) == Some(a) <==>
            exists resp, s, payload, p, entries ::
              && ReplyPasses(d, resp, s, payload, p, entries, a) && srv.proveOvHdr == Some(resp)
              && FetchEntries(srv, 0, p.numEntries) == Got(entries)
  {
    hide Authenticate, ReplyPasses, FetchEntries;
    if Authenticate(d, srv) == Some(a) {
      var resp, s, payload, p, entries := ProvenPeer(d, srv);
      assert ReplyPasses(d, resp, s, payload, p, entries, a);
    }
    forall resp, s, payload, p, entries |
      && ReplyPasses(d, resp, s, payload, p, entries, a) && srv.proveOvHdr == Some(resp)
      && FetchEntries(srv, 0, p.numEntries) == Got(entries)
      ensures Authenticate(d, srv) == Some(a)
    {
      PassingProves(d, srv, resp, s, payload, p, entries, a);
    }
  }

  /** What has been verified by the time an image is launched, each on the bytes the
      code checks it on: step 3, a SetupDevice20 with this run's nonce, and the nonce
      in DoneAck. */
  ghost predicate RunVerified(d: Device, srv: Server, a: Proven) {
    && (exists resp, s, payload, p, entries ::
          srv.proveOvHdr == Some(resp) && ReplyPasses(d, resp, s, payload, p, entries, a))
    && Opened(d, a.sek, srv.setupDevice).Some?
    && SetupSigned(d.pf, Opened(d, a.sek, srv.setupDevice).value, d.setupNonce, a.signer)
    && Opened(d, a.sek, srv.doneAck).Some?
    && DoneNonce(Opened(d, a.sek, srv.doneAck).value) == Got(d.setupNonce)
  }

  /** Against every server: an image is launched only after all of this has been
      verified, and only if a justified transfer, under the proven owner and peer,
      delivered exactly those bytes. */
  lemma LaunchIsAuthorised(d: Device, srv: Server)
    requires To2Outcome(d, srv).Launched?
    ensures Authenticate(d, srv).Some?
    ensures var a := Authenticate(d, srv).value;
            var ctx := Ctx(d.pf, Some(a.owner), a.peer, Some(d.guid));
            && RunVerified(d, srv, a) && Exchange(d, srv, a.sek, 0, []).Some?
            && var ms := Exchange(d, srv, a.sek, 0, []).value.0;
            && To2Outcome(d, srv).image == Run(ctx, ms).image != []
            && exists i: nat, j: nat :: Justified(ctx, ms, i, j, Run(ctx, ms))
  {
    hide Authenticate, SetupOk, SetupSigned, Exchange, DoneNonce, Opened, Run, Justified, ReplyPasses;
    var a := Authenticate(d, srv).value;
    var resp, s, payload, p, entries := ProvenPeer(d, srv);
    SetupExactly(d.pf, Opened(d, a.sek, srv.setupDevice).value, d.setupNonce, a.signer);
    CompleteIsJustified(CtxOf(d, a), Exchange(d, srv, a.sek, 0, []).value.0);
  }

  /** And exactly when it is launched: step 3 proved the peer, every message could be
      encrypted, SetupDevice20 and DoneAck passed, and the session ended complete. */
  lemma LaunchedExactly(d: Device, srv: Server, image: Bytes)
    ensures To2Outcome(d, srv) == Launched(image) <==>
            && Authenticate(d, srv).Some?
            && var a := Authenticate(d, srv).value;
            && d.Sealed(a.sek, 0).Some?
            && Opened(d, a.sek, srv.setupDevice).Some?
            && SetupSigned(d.pf, Opened(d, a.sek, srv.setupDevice).value, d.setupNonce, a.signer)
            && Exchange(d, srv, a.sek, 0, []).Some?
            && var (ms, rounds) := Exchange(d, srv, a.sek, 0, []).value;
            && d.Sealed(a.sek, rounds + 1).Some?
            && Opened(d, a.sek, srv.doneAck).Some?
            && DoneNonce(Opened(d, a.sek, srv.doneAck).value) == Got(d.setupNonce)
            && var session := Run(Ctx(d.pf, Some(a.owner), a.peer, Some(d.guid)), ms);
            && session.state == Complete && session.image == image && image != []
  {
    hide Authenticate, SetupOk, SetupSigned, Exchange, DoneNonce, Opened, Run, Encrypt0;
    if Authenticate(d, srv).Some? {
      var a := Authenticate(d, srv).value;
      if Opened(d, a.sek, srv.setupDevice).Some? {
        SetupExactly(d.pf, Opened(d, a.sek, srv.setupDevice).value, d.setupNonce, a.signer);
      }
    }
  }

  /** The reply carries an unprotected header that both decoders take as one item. */
  ghost predicate AlignedReply(srv: Server, stack: nat) {
    && srv.proveOvHdr.Some? && |srv.proveOvHdr.value| < TWO63 && ParseSign1(srv.proveOvHdr.value).Some?
    && Aligned(ParseSign1(srv.proveOvHdr.value).value.unprotected, stack)
  }

  /** Behind an aligned header the fields acted on are the signed ones: the signed
      payload itself passes every check, so the peer's signature covers this run's
      nonce, the key share of this session, the voucher and the delegate chain. */
  lemma SignedFields(d: Device, resp: Bytes, s: Sign1, payload: Bytes, p: ProveOv, entries: seq<Bytes>, a: Proven)
    requires ReplyPasses(d, resp, s, payload, p, entries, a) && Aligned(s.unprotected, d.Stack()) && |resp| < TWO63
    ensures payload == s.payload && ReplyPasses(d, resp, s, s.payload, p, entries, a)
    ensures d.pf.es256(SigStructure(s.protected, AAD_PROVE_OV, payload), s.signature, a.signer)
  {
    hide ParseSign1, ExtractPayload, ParseProveOv, Aligned, To1dOk, ChainOk, ChainOutcome, Voucher.Verify;
    PayloadViewsAgree(resp, d.Stack());
  }

  /** A launch behind an aligned header: what the owner, or the delegate the owner
      allows to onboard, signed in this run names the nonce, the key share, the
      voucher and the chain that the launch rests on. */
  lemma AlignedLaunchIsSigned(d: Device, srv: Server)
    requires To2Outcome(d, srv).Launched? && AlignedReply(srv, d.Stack())
    ensures Authenticate(d, srv).Some?
    ensures var s, a := ParseSign1(srv.proveOvHdr.value).value, Authenticate(d, srv).value;
            exists p, entries ::
              && ReplyPasses(d, srv.proveOvHdr.value, s, s.payload, p, entries, a)
              && ParseProveOv(s.payload, d.Stack()) == Got(p)
              && p.nonce == d.proveOvNonce && d.sessionKey(p.xb) == Some(a.sek)
              && Voucher.Verify(d.pf, Presented(p, entries), d.guid) == Voucher.Ok(a.owner)
              && (a.peer == OwnerDirect <==> p.chain.None?)
              && d.pf.es256(SigStructure(s.protected, AAD_PROVE_OV, s.payload), s.signature, a.signer)
  {
    hide Authenticate, ParseSign1, ExtractPayload, ParseProveOv, Aligned, To1dOk, ChainOk, ChainOutcome,
      Voucher.Verify, SetupOk, Exchange, DoneNonce, Opened, Run;
    var resp, s, payload, p, entries := ProvenPeer(d, srv);
    SignedFields(d, resp, s, payload, p, entries, Authenticate(d, srv).value);
  }

  /** A reply behind a split header: `signed` is what the signature covers, `q` what
      the fields are read from. Nothing relates the two. */
  ghost predicate SplitReply(d: Device, srv: Server, tagged: bool, protected: Bytes, signed: Bytes,
                             signature: Bytes, q: Bytes, p: ProveOv, entries: seq<Bytes>, perms: Option<Perms>,
                             a: Proven) {
    && |protected| < TWO32 && |signed| < TWO32 && |signature| < TWO32 && |q| < TWO32 && d.Stack() > 1
    && srv.proveOvHdr == Some(PrintSign1(tagged, protected, SplitHeader(q), Some(signed), signature))
    && d.pf.alg(protected) == ES256 && d.pf.es256(SigStructure(protected, AAD_PROVE_OV, signed), signature, a.signer)
    && ParseProveOv(q, d.Stack()) == Got(p) && p.nonce == d.proveOvNonce && d.sessionKey(p.xb) == Some(a.sek)
    && FetchEntries(srv, 0, p.numEntries) == Got(entries)
    && Voucher.Verify(d.pf, Presented(p, entries), d.guid) == Voucher.Ok(a.owner)
    && Responsible(d.pf, p.chain, a.owner) == Some((a.signer, perms)) && (perms.Some? ==> perms.value.onboard)
    && a.peer == (if perms.None? then OwnerDirect else DelegatePeer(perms.value.provision))
    && To1dOk(d, p.ovHeader, a.owner)
  }

  /** The condition is needed: with a split header step 3 accepts the fields in `q`
      on the strength of any message the responsible key ever signed for
      ProveOVHdr, whatever nonce, key share, voucher or chain that message names. */
  lemma FieldsNotSigned(d: Device, srv: Server, tagged: bool, protected: Bytes, signed: Bytes, signature: Bytes,
                        q: Bytes, p: ProveOv, entries: seq<Bytes>, perms: Option<Perms>, a: Proven)
    requires SplitReply(d, srv, tagged, protected, signed, signature, q, p, entries, perms, a)
    ensures Authenticate(d, srv) == Some(a)
  {
    hide ParseSign1, ExtractPayload, PrintSign1, SplitHeader, Encode, ParseProveOv, FetchEntries, Voucher.Verify,
      To1dOk, Responsible, SigStructure, AAD_PROVE_OV;
    AnyOtherPayload(tagged, protected, signed, signature, q, d.Stack());
  }

  /** Everything but SetupDevice20 goes well after step 3: every message can be
      encrypted, the exchange ends with an honest transfer of `image` that nothing
      before it has prevented, and DoneAck echoes the nonce. */
  ghost predicate HonestDelivery(d: Device, srv: Server, a: Proven, before: seq<Msg>, t: Transfer,
                                 authority: Chunking.Authority, b: Begin, image: Bytes) {
    && Exchange(d, srv, a.sek, 0, []).Some?
    && var (ms, rounds) := Exchange(d, srv, a.sek, 0, []).value;
    && ms == before + t.Msgs() && Run(CtxOf(d, a), before).state != Crashed
    && Honest(CtxOf(d, a), t, authority, b, image) && image != []
    && d.Sealed(a.sek, 0).Some? && d.Sealed(a.sek, rounds + 1).Some?
    && Opened(d, a.sek, srv.doneAck).Some?
    && DoneNonce(Opened(d, a.sek, srv.doneAck).value) == Got(d.setupNonce)
  }

  /** And such a run does launch: a peer that passes every check and delivers an
      honest transfer, in any of the three modes, gets exactly its image executed. */
  lemma HonestRunLaunches(d: Device, srv: Server, a: Proven, before: seq<Msg>, t: Transfer,
                          authority: Chunking.Authority, b: Begin, image: Bytes)
    requires Authenticate(d, srv) == Some(a)
    requires Opened(d, a.sek, srv.setupDevice).Some?
    requires SetupOk(d.pf, Opened(d, a.sek, srv.setupDevice).value, d.setupNonce, a.signer)
    requires HonestDelivery(d, srv, a, before, t, authority, b, image)
    ensures To2Outcome(d, srv) == Launched(image)
  {
    hide Authenticate, SetupOk, Exchange, DoneNonce, Opened, Run, Honest, Encrypt0;
    HonestTransferCompletes(CtxOf(d, a), before, t, authority, b, image);
  }

  /** The gap reaches the launch: behind a split header, with a resale
      SetupDevice20 (which answers to the key it names and not to the ProveOVHdr
      signer), a run launches although `signed` may name no nonce at all. */
  lemma LaunchNotSigned(d: Device, srv: Server, tagged: bool, protected: Bytes, signed: Bytes, signature: Bytes,
                        q: Bytes, p: ProveOv, entries: seq<Bytes>, perms: Option<Perms>, a: Proven, other: Bytes,
                        before: seq<Msg>, t: Transfer, authority: Chunking.Authority, b: Begin, image: Bytes)
    requires SplitReply(d, srv, tagged, protected, signed, signature, q, p, entries, perms, a)
    requires Opened(d, a.sek, srv.setupDevice).Some? && IsResale(d.pf, Opened(d, a.sek, srv.setupDevice).value)
    requires SetupOk(d.pf, Opened(d, a.sek, srv.setupDevice).value, d.setupNonce, other)
    requires HonestDelivery(d, srv, a, before, t, authority, b, image)
    ensures To2Outcome(d, srv) == Launched(image)
    ensures !AlignedReply(srv, d.Stack())
  {
    hide SplitReply, HonestDelivery, SetupOk, IsResale, Opened, Authenticate, To2Outcome, AlignedReply;
    FieldsNotSigned(d, srv, tagged, protected, signed, signature, q, p, entries, perms, a);
    SetupSigner(d.pf, Opened(d, a.sek, srv.setupDevice).value, d.setupNonce, a.signer, other);
    HonestRunLaunches(d, srv, a, before, t, authority, b, image);
    SplitReplyNotAligned(d, srv, tagged, protected, signed, signature, q, p, entries, perms, a);
  }

  lemma SplitReplyNotAligned(d: Device, srv: Server, tagged: bool, protected: Bytes, signed: Bytes,
                             signature: Bytes, q: Bytes, p: ProveOv, entries: seq<Bytes>, perms: Option<Perms>,
                             a: Proven)
    requires SplitReply(d, srv, tagged, protected, signed, signature, q, p, entries, perms, a)
    ensures !AlignedReply(srv, d.Stack())
  {
    hide ParseSign1, PrintSign1, SplitHeader, Encode, ParseProveOv, FetchEntries, Voucher.Verify, To1dOk,
      Responsible, SigStructure, AAD_PROVE_OV, Aligned;
    AnyOtherPayload(tagged, protected, signed, signature, q, d.Stack());
    SplitNotAligned(q, d.Stack());
  }

  /** An onboard-only delegate gets an image launched only by relaying an
      image-begin that the owner, or a provisioning delegate of the owner, signed
      and that covers the image. That the peer is such a delegate is read from
      the unsigned view of the reply, so this binds the peer the device believes
      it has; behind an aligned header that belief is signed. */
  lemma OnboardOnlyLaunch(d: Device, srv: Server)
    requires To2Outcome(d, srv).Launched? && Authenticate(d, srv).value.peer == DelegatePeer(false)
    ensures var a := Authenticate(d, srv).value;
            var ms := Exchange(d, srv, a.sek, 0, []).value.0;
            var session := Run(CtxOf(d, a), ms);
            && session.authority == Chunking.Artifact && session.begin.Some?
            && exists i: nat :: SignedFor(CtxOf(d, a), ms, i, session.begin.value,
                                          d.pf.sha256(To2Outcome(d, srv).image))
  {
    hide Authenticate, SetupOk, Exchange, DoneNonce, Opened, Run, SignedFor;
    var a := Authenticate(d, srv).value;
    OnboardOnlyDelegate(CtxOf(d, a), Exchange(d, srv, a.sek, 0, []).value.0);
  }
}
