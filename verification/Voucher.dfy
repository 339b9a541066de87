/**
 Ownership voucher verification (voucher.rs): a header bound to the device by an
 HMAC, and a chain of entries, each signed by the key in the one before it and
 carrying the hash of the one before it.
 */
module Voucher {
  import opened Base
  import opened Cbor
  import opened CoseSign1
  import opened Platforms

  datatype VoucherError =
    | HeaderParse | UnsupportedKey | GuidMismatch | HmacUnavailable | HmacMismatch
    | EntryParse(entry: nat) | DelegateNotSupported | EntrySignatureInvalid(entry: nat)
    | UnsupportedHash(alg: int) | HeaderHashMismatch(entry: nat) | PrevHashMismatch(entry: nat)

  datatype Result<+T> = Ok(value: T) | Err(error: VoucherError)

  const SHA256_ALG: int := -16
  const AAD_OV_ENTRY: Bytes := Ascii("FDO-OVEntry-v1")

  // ---- parsing ----

  datatype Header = Header(protver: nat, guid: Bytes, deviceInfo: Bytes, pubKey: Bytes)

  function DecodeTstr(pf: Platform, data: Bytes): Option<Bytes> {
    var (major, len, p) :- ReadHead(Cose, data, 0);
    if major == 3 && p + len <= |data| && pf.env.utf8(data[p..p + len]) then Some(data[p..p + len]) else None
  }

  /** `[protver, guid, rvinfo, deviceinfo, pubkey, ...]`, at least five items. */
  function ParseHeader(pf: Platform, data: Bytes): Option<Header> {
    var (n, p0) :- ReadArray(data, 0);
    if n < 5 then None else
      var (protver, p1) :- ReadUint(data, p0);
      var (guid, p2) :- ReadBstr(data, p1);
      if |guid| != 16 then None else
        var p3 :- Skip(Cose, data, p2);
        var p4 :- Skip(Cose, data, p3);
        var deviceInfo :- DecodeTstr(pf, if p4 <= |data| then data[p3..p4] else []);
        var p5 :- Skip(Cose, data, p4);
        if p5 > |data| then None else Some(Header(protver % 65536, guid, deviceInfo, data[p4..p5]))
  }

  /** `Hash = [alg, bstr, ...]`. */
  function HashField(data: Bytes, pos: nat): Option<(int, Bytes, nat)> {
    var (n, p0) :- ReadArray(data, pos);
    if n < 2 then None else
      var (alg, p1) :- ReadInt(data, p0);
      var (value, p2) :- ReadBstr(data, p1);
      var p3 :- SkipN(Cose, data, p2, n - 2);
      Some((alg, value, p3))
  }

  method ReadHash(data: Bytes, pos: nat) returns (r: Option<(int, Bytes, nat)>)
    ensures r == HashField(data, pos)
  {
    hide Skip, ReadArray, ReadInt, ReadBstr;
    var a := ReadArray(data, pos);
    if a.None? || a.value.0 < 2 { return None; }
    var alg := ReadInt(data, a.value.1);
    if alg.None? { return None; }
    var value := ReadBstr(data, alg.value.1);
    if value.None? { return None; }
    var p, i, n := value.value.1, 2, a.value.0;
    while i < n
      invariant 2 <= i <= n
      invariant SkipN(Cose, data, value.value.1, n - 2) == SkipN(Cose, data, p, n - i)
    {
      var q := CborSkip(data, p);
      if q.None? { return None; }
      p, i := q.value, i + 1;
    }
    return Some((alg.value.0, value.value.0, p));
  }

  datatype EntryPayload = EntryPayload(prevAlg: int, prevHash: Bytes, hdrAlg: int, hdrHash: Bytes, key: Bytes)

  /** `[hashPrevEntry, hashHdrInfo, extra, pubKey, ...]`. */
  function ParseEntryPayload(pf: Platform, data: Bytes): Option<EntryPayload> {
    var (n, p0) :- ReadArray(data, 0);
    if n < 4 then None else
      var (prevAlg, prevHash, p1) :- HashField(data, p0);
      var (hdrAlg, hdrHash, p2) :- HashField(data, p1);
      var p3 :- Skip(Cose, data, p2);
      var p4 :- Skip(Cose, data, p3);
      if p4 > |data| then None else
        var key :- pf.publicKey(data[p3..p4]);
        Some(EntryPayload(prevAlg, prevHash, hdrAlg, hdrHash, key))
  }

  function VerifySign1(pf: Platform, s: Sign1, aad: Bytes, key: Bytes): bool {
    pf.alg(s.protected) == ES256 && pf.es256(SigStructure(s.protected, aad, s.payload), s.signature, key)
  }

  // ---- one entry ----

  /** Everything the loop checks about entry `i`; the entry's own key on success. */
  function CheckEntry(pf: Platform, aad: Bytes, hdrHash: Bytes, key: Bytes, prevHash: Bytes, entry: Bytes,
                      i: nat): Result<Bytes> {
    var s := ParseSign1(entry);
    if s.None? then Err(EntryParse(i))
    else if pf.delegated(s.value.unprotected) then Err(DelegateNotSupported)
    else if !VerifySign1(pf, s.value, aad, key) then Err(EntrySignatureInvalid(i))
    else
      var p := ParseEntryPayload(pf, s.value.payload);
      if p.None? then Err(EntryParse(i))
      else if p.value.prevAlg != SHA256_ALG then Err(UnsupportedHash(p.value.prevAlg))
      else if p.value.hdrAlg != SHA256_ALG then Err(UnsupportedHash(p.value.hdrAlg))
      else if p.value.hdrHash != hdrHash then Err(HeaderHashMismatch(i))
      else if p.value.prevHash != prevHash then Err(PrevHashMismatch(i))
      else Ok(p.value.key)
  }

  /** The payload inside an entry, independent of its place in a chain. */
  function PayloadOf(pf: Platform, entry: Bytes): Option<EntryPayload> {
    var s :- ParseSign1(entry);
    ParseEntryPayload(pf, s.payload)
  }

  lemma CheckEntryPayload(pf: Platform, aad: Bytes, hdrHash: Bytes, key: Bytes, prevHash: Bytes, entry: Bytes, i: nat)
    requires CheckEntry(pf, aad, hdrHash, key, prevHash, entry, i).Ok?
    ensures PayloadOf(pf, entry).Some? && PayloadOf(pf, entry).value.prevHash == prevHash
    ensures CheckEntry(pf, aad, hdrHash, key, prevHash, entry, i).value == PayloadOf(pf, entry).value.key
  {
    hide ParseSign1, ParseEntryPayload, VerifySign1;
  }

  // ---- the chain ----

  /** What ProveOVHdr delivered. */
  datatype Presented = Presented(header: Bytes, hmacRaw: Bytes, hmacValue: Bytes, entries: seq<Bytes>)

  /** Header checks: parse, GUID, HMAC. */
  function CheckHeader(pf: Platform, v: Presented, guid: Bytes): Result<(Header, Bytes)> {
    var h := ParseHeader(pf, v.header);
    if h.None? then Err(HeaderParse)
    else
      var key := pf.publicKey(h.value.pubKey);
      if key.None? then Err(UnsupportedKey)
      else if h.value.guid != guid then Err(GuidMismatch)
      else
        var mac := pf.hmac(v.header);
        if mac.None? then Err(HmacUnavailable)
        else if mac.value != v.hmacValue then Err(HmacMismatch)
        else Ok((h.value, key.value))
  }

  function Aad(h: Header): Bytes { DomainAad(AAD_OV_ENTRY, h.protver) }

  function HeaderInfoHash(pf: Platform, h: Header): Bytes { pf.sha256(h.guid + h.deviceInfo) }

  /** The rest of the loop from entry `i` on. */
  function Walk(pf: Platform, h: Header, key: Bytes, prevHash: Bytes, entries: seq<Bytes>, i: nat): Result<Bytes>
    requires i <= |entries|
    decreases |entries| - i
  {
    if i == |entries| then Ok(key)
    else
      var r := CheckEntry(pf, Aad(h), HeaderInfoHash(pf, h), key, prevHash, entries[i], i);
      if r.Err? then r else Walk(pf, h, r.value, pf.sha256(entries[i]), entries, i + 1)
  }

  function Verify(pf: Platform, v: Presented, guid: Bytes): Result<Bytes> {
    var c := CheckHeader(pf, v, guid);
    if c.Err? then Err(c.error)
    else Walk(pf, c.value.0, c.value.1, pf.sha256(v.header + v.hmacRaw), v.entries, 0)
  }

  /** The verification loop, carrying the previous key and the previous hash. */
  method VerifyVoucher(pf: Platform, v: Presented, guid: Bytes) returns (r: Result<Bytes>)
    ensures r == Verify(pf, v, guid)
  {
    hide CheckHeader, ParseSign1, SigStructure, ParseEntryPayload;
    var c := CheckHeader(pf, v, guid);
    if c.Err? { return Err(c.error); }
    var (h, prevKey) := c.value;
    if v.entries == [] { return Ok(prevKey); }
    var aad := DomainAad(AAD_OV_ENTRY, h.protver);
    var hdrHash := pf.sha256(h.guid + h.deviceInfo);
    var prevHash := pf.sha256(v.header + v.hmacRaw);
    var i := 0;
    while i < |v.entries|
      invariant i <= |v.entries|
      invariant Verify(pf, v, guid) == Walk(pf, h, prevKey, prevHash, v.entries, i)
    {
      var entry := v.entries[i];
      var s := ParseSign1(entry);
      if s.None? { return Err(EntryParse(i)); }
      if pf.delegated(s.value.unprotected) { return Err(DelegateNotSupported); }
      if !VerifySign1(pf, s.value, aad, prevKey) { return Err(EntrySignatureInvalid(i)); }
      var p := ParseEntryPayload(pf, s.value.payload);
      if p.None? { return Err(EntryParse(i)); }
      if p.value.prevAlg != SHA256_ALG || p.value.hdrAlg != SHA256_ALG {
        var bad := if p.value.prevAlg != SHA256_ALG then p.value.prevAlg else p.value.hdrAlg;
        return Err(UnsupportedHash(bad));
      }
      if p.value.hdrHash != hdrHash { return Err(HeaderHashMismatch(i)); }
      if p.value.prevHash != prevHash { return Err(PrevHashMismatch(i)); }
      prevKey := p.value.key;
      prevHash := pf.sha256(entry);
      i := i + 1;
    }
    return Ok(prevKey);
  }

  // ---- acceptance without the rolling state ----

  /** The key entry `i` must verify under: the manufacturer's, or the one the
      entry before it names. */
  function SignerOf(pf: Platform, v: Presented, mfgKey: Bytes, i: nat): Bytes
    requires i <= |v.entries|
  {
    if i == 0 then mfgKey else
      var p := PayloadOf(pf, v.entries[i - 1]);
      if p.Some? then p.value.key else []
  }

  /** The bytes entry `i` must carry the hash of. */
  function Predecessor(v: Presented, i: nat): Bytes
    requires i <= |v.entries|
  {
    if i == 0 then v.header + v.hmacRaw else v.entries[i - 1]
  }

  function EntryOutcome(pf: Platform, v: Presented, h: Header, mfgKey: Bytes, i: nat): Result<Bytes>
    requires i < |v.entries|
  {
    CheckEntry(pf, Aad(h), HeaderInfoHash(pf, h), SignerOf(pf, v, mfgKey, i), pf.sha256(Predecessor(v, i)),
               v.entries[i], i)
  }

  ghost predicate EntriesGood(pf: Platform, v: Presented, h: Header, mfgKey: Bytes, n: nat)
    requires n <= |v.entries|
  {
    forall i :: 0 <= i < n ==> EntryOutcome(pf, v, h, mfgKey, i).Ok?
  }

  lemma {:induction false} WalkExactly(pf: Platform, v: Presented, h: Header, mfgKey: Bytes, i: nat)
    requires i <= |v.entries| && EntriesGood(pf, v, h, mfgKey, i)
    ensures var r := Walk(pf, h, SignerOf(pf, v, mfgKey, i), pf.sha256(Predecessor(v, i)), v.entries, i);
            && (r.Ok? <==> EntriesGood(pf, v, h, mfgKey, |v.entries|))
            && (r.Ok? ==> r.value == SignerOf(pf, v, mfgKey, |v.entries|))
            && (r.Err? ==> exists k :: i <= k < |v.entries| && EntriesGood(pf, v, h, mfgKey, k)
                                       && EntryOutcome(pf, v, h, mfgKey, k) == r)
    decreases |v.entries| - i
  {
    hide CheckEntry, PayloadOf;
    if i < |v.entries| {
      var r := EntryOutcome(pf, v, h, mfgKey, i);
      if r.Ok? {
        CheckEntryPayload(pf, Aad(h), HeaderInfoHash(pf, h), SignerOf(pf, v, mfgKey, i),
                          pf.sha256(Predecessor(v, i)), v.entries[i], i);
        assert SignerOf(pf, v, mfgKey, i + 1) == r.value;
        assert EntriesGood(pf, v, h, mfgKey, i + 1);
        WalkExactly(pf, v, h, mfgKey, i + 1);
      }
    }
  }

  /** A voucher is accepted exactly when its header is this device's and every
      entry is signed by the key its predecessor names, carries its predecessor's
      hash and belongs to this header; the owner is then whoever the last entry
      names (or the manufacturer). A rejection names the first bad entry. */
  lemma AcceptedExactly(pf: Platform, v: Presented, guid: Bytes)
    ensures var c := CheckHeader(pf, v, guid);
            var r := Verify(pf, v, guid);
            && (r.Ok? <==> c.Ok? && EntriesGood(pf, v, c.value.0, c.value.1, |v.entries|))
            && (r.Ok? ==> r.value == SignerOf(pf, v, c.value.1, |v.entries|))
            && (c.Ok? && r.Err? ==>
                  exists k :: 0 <= k < |v.entries| && EntriesGood(pf, v, c.value.0, c.value.1, k)
                              && EntryOutcome(pf, v, c.value.0, c.value.1, k) == r)
  {
    hide CheckHeader, EntryOutcome, Walk;
    var c := CheckHeader(pf, v, guid);
    if c.Ok? { WalkExactly(pf, v, c.value.0, c.value.1, 0); }
  }

  /** The header names this device and its HMAC verifies under the device secret. */
  ghost predicate HeaderGenuine(pf: Platform, v: Presented, guid: Bytes, h: Header, mfgKey: Bytes) {
    && ParseHeader(pf, v.header) == Some(h) && pf.publicKey(h.pubKey) == Some(mfgKey)
    && h.guid == guid && pf.hmac(v.header) == Some(v.hmacValue)
  }

  /** Entry `i` is signed by `signer` itself, and carries the SHA-256 hashes of this
      header's GUID and device information and of its predecessor. */
  ghost predicate EntryGenuine(pf: Platform, v: Presented, h: Header, signer: Bytes, i: nat)
    requires i < |v.entries|
  {
    && ParseSign1(v.entries[i]).Some?
    && var s := ParseSign1(v.entries[i]).value;
    && !pf.delegated(s.unprotected) && pf.alg(s.protected) == -7
    && pf.es256(SigStructure(s.protected, DomainAad(Ascii("FDO-OVEntry-v1"), h.protver), s.payload), s.signature,
                signer)
    && ParseEntryPayload(pf, s.payload).Some?
    && var p := ParseEntryPayload(pf, s.payload).value;
    && p.prevAlg == -16 && p.prevHash == pf.sha256(Predecessor(v, i))
    && p.hdrAlg == -16 && p.hdrHash == pf.sha256(h.guid + h.deviceInfo)
  }

  /** What acceptance means, check by check: a genuine header, every entry genuine
      under the key that the one before it names, and the owner named last. */
  lemma AcceptedMeans(pf: Platform, v: Presented, guid: Bytes, owner: Bytes)
    ensures Verify(pf, v, guid) == Ok(owner) <==>
            exists h, mfgKey ::
              && HeaderGenuine(pf, v, guid, h, mfgKey)
              && (forall i :: 0 <= i < |v.entries| ==> EntryGenuine(pf, v, h, SignerOf(pf, v, mfgKey, i), i))
              && owner == SignerOf(pf, v, mfgKey, |v.entries|)
  {
    hide Verify, SignerOf, EntryGenuine, EntryOutcome, ParseHeader;
    AcceptedExactly(pf, v, guid);
    forall h, mfgKey, i | 0 <= i < |v.entries|
      ensures EntryOutcome(pf, v, h, mfgKey, i).Ok? <==> EntryGenuine(pf, v, h, SignerOf(pf, v, mfgKey, i), i)
    {
      EntryMeans(pf, v, h, mfgKey, i);
    }
    var c := CheckHeader(pf, v, guid);
    if c.Ok? { assert HeaderGenuine(pf, v, guid, c.value.0, c.value.1); }
    forall h, mfgKey | HeaderGenuine(pf, v, guid, h, mfgKey) ensures c == Ok((h, mfgKey)) {}
  }

  lemma EntryMeans(pf: Platform, v: Presented, h: Header, mfgKey: Bytes, i: nat)
    requires i < |v.entries|
    ensures EntryOutcome(pf, v, h, mfgKey, i).Ok? <==> EntryGenuine(pf, v, h, SignerOf(pf, v, mfgKey, i), i)
  {
    hide ParseSign1, ParseEntryPayload, SigStructure, DomainAad, SignerOf, Predecessor;
  }

  // ---- what the parsers read ----

  function IntBytes(v: int): Bytes { if v >= 0 then EncodeHead(0, v) else EncodeHead(1, -1 - v) }

  function HashBytes(alg: int, value: Bytes, extra: seq<Item>): Bytes {
    EncodeHead(4, 2 + |extra|) + IntBytes(alg) + Bstr(value) + EncodeAll(extra)
  }

  ghost predicate HashFits(alg: int, value: Bytes, extra: seq<Item>) {
    -0x1_0000_0000 <= alg < TWO32 && |value| < TWO32 && 2 + |extra| < TWO32 && AllInLang(Cose, extra)
  }

  lemma CoseHeadAt(major: Major, v: nat, data: Bytes, pos: nat)
    requires v < TWO32 && major != 7 && At(data, pos, EncodeHead(major, v))
    ensures ReadHead(Cose, data, pos) == Some((major, v, pos + |EncodeHead(major, v)|))
  {
    EncodeHeadShort(major, v);
    HeadForAt(Cose, major, v, data, pos);
  }

  /** A printed hash, with any further elements, is read as its algorithm and value. */
  lemma {:induction false} HashAt(data: Bytes, pos: nat, alg: int, value: Bytes, extra: seq<Item>)
    requires HashFits(alg, value, extra) && At(data, pos, HashBytes(alg, value, extra))
    ensures HashField(data, pos) == Some((alg, value, pos + |HashBytes(alg, value, extra)|))
  {
    hide ReadHead, EncodeHead, Bstr, EncodeAll, ReadBstr, InLang;
    PartsAt(data, pos, EncodeHead(4, 2 + |extra|), IntBytes(alg), Bstr(value), EncodeAll(extra));
    CoseHeadAt(4, 2 + |extra|, data, pos);
    var p0 := pos + |EncodeHead(4, 2 + |extra|)|;
    if alg >= 0 { CoseHeadAt(0, alg, data, p0); } else { CoseHeadAt(1, -1 - alg, data, p0); }
    var p1 := p0 + |IntBytes(alg)|;
    BstrAt(data, p1, value);
    SkipNEncoded(Cose, extra, data, p1 + |Bstr(value)|);
  }

  function EntryPayloadBytes(n: nat, prev: Bytes, hdr: Bytes, extra: Item, key: Item): Bytes {
    EncodeHead(4, n) + (prev + hdr + Encode(extra) + Encode(key))
  }

  lemma {:induction false} EntryPayloadSteps(pf: Platform, data: Bytes, n: nat, p0: nat, p1: nat, p2: nat, p3: nat,
                                             p4: nat, prevAlg: int, prevHash: Bytes, hdrAlg: int, hdrHash: Bytes)
    requires ReadArray(data, 0) == Some((n, p0)) && HashField(data, p0) == Some((prevAlg, prevHash, p1))
    requires HashField(data, p1) == Some((hdrAlg, hdrHash, p2))
    requires Skip(Cose, data, p2) == Some(p3) && Skip(Cose, data, p3) == Some(p4) && p4 <= |data|
    ensures var k, r := pf.publicKey(data[p3..p4]), ParseEntryPayload(pf, data);
            r == if n >= 4 && k.Some? then Some(EntryPayload(prevAlg, prevHash, hdrAlg, hdrHash, k.value)) else None
  {
    hide ReadArray, HashField, Skip;
  }

  lemma ArrayAt(n: nat, data: Bytes, pos: nat)
    requires n < TWO32 && At(data, pos, EncodeHead(4, n))
    ensures ReadArray(data, pos) == Some((n, pos + |EncodeHead(4, n)|))
  {
    hide ReadHead, EncodeHead;
    CoseHeadAt(4, n, data, pos);
  }

  lemma UintAt(v: nat, data: Bytes, pos: nat)
    requires v < TWO32 && At(data, pos, EncodeHead(0, v))
    ensures ReadUint(data, pos) == Some((v, pos + |EncodeHead(0, v)|))
  {
    hide ReadHead, EncodeHead;
    CoseHeadAt(0, v, data, pos);
  }

  /** A printed entry payload is read field by field: first the hash of the
      predecessor, then that of the header, and the key from the fourth element. */
  lemma {:induction false} EntryPayloadRoundTrip(pf: Platform, n: nat, prevAlg: int, prevHash: Bytes,
                                                 prevMore: seq<Item>, hdrAlg: int, hdrHash: Bytes, hdrMore: seq<Item>,
                                                 extra: Item, key: Item, after: Bytes)
    requires n < TWO32 && HashFits(prevAlg, prevHash, prevMore) && HashFits(hdrAlg, hdrHash, hdrMore)
    requires InLang(Cose, extra) && InLang(Cose, key)
    ensures var prev, hdr := HashBytes(prevAlg, prevHash, prevMore), HashBytes(hdrAlg, hdrHash, hdrMore);
            var k := pf.publicKey(Encode(key));
            var r := ParseEntryPayload(pf, EntryPayloadBytes(n, prev, hdr, extra, key) + after);
            r == if n >= 4 && k.Some? then Some(EntryPayload(prevAlg, prevHash, hdrAlg, hdrHash, k.value)) else None
  {
    hide ReadArray, EncodeHead, HashBytes, HashField, HashFits, Encode, InLang, Skip, ParseEntryPayload;
    var prev, hdr := HashBytes(prevAlg, prevHash, prevMore), HashBytes(hdrAlg, hdrHash, hdrMore);
    var h, body := EncodeHead(4, n), prev + hdr + Encode(extra) + Encode(key);
    var data := h + body + after;
    assert data[0..|h|] == h;
    AtPrefix(h, body, after);
    PartsAt(data, |h|, prev, hdr, Encode(extra), Encode(key));
    ArrayAt(n, data, 0);
    HashAt(data, |h|, prevAlg, prevHash, prevMore);
    HashAt(data, |h| + |prev|, hdrAlg, hdrHash, hdrMore);
    var p2 := |h| + |prev| + |hdr|;
    SkipEncoded(Cose, extra, data, p2);
    var p3 := p2 + |Encode(extra)|;
    SkipEncoded(Cose, key, data, p3);
    EntryPayloadSteps(pf, data, n, |h|, |h| + |prev|, p2, p3, p3 + |Encode(key)|, prevAlg, prevHash, hdrAlg, hdrHash);
  }

  function HeaderBytes(n: nat, protver: nat, guid: Bytes, rvInfo: Item, deviceInfo: Bytes, key: Item): Bytes {
    EncodeHead(4, n) + (EncodeHead(0, protver) + Bstr(guid) + Encode(rvInfo) + (Tstr(deviceInfo) + Encode(key)))
  }

  lemma {:induction false} HeaderSteps(pf: Platform, data: Bytes, n: nat, p0: nat, protver: nat, p1: nat, guid: Bytes,
                                       p2: nat, p3: nat, p4: nat, p5: nat, info: Option<Bytes>)
    requires ReadArray(data, 0) == Some((n, p0)) && ReadUint(data, p0) == Some((protver, p1))
    requires ReadBstr(data, p1) == Some((guid, p2)) && Skip(Cose, data, p2) == Some(p3)
    requires Skip(Cose, data, p3) == Some(p4) && p4 <= |data| && DecodeTstr(pf, data[p3..p4]) == info
    requires Skip(Cose, data, p4) == Some(p5) && p5 <= |data|
    ensures ParseHeader(pf, data) == if n >= 5 && |guid| == 16 && info.Some?
                                     then Some(Header(protver % 65536, guid, info.value, data[p4..p5])) else None
  {
    hide ReadArray, ReadUint, ReadBstr, Skip, DecodeTstr;
  }

  /** A printed header is read field by field. */
  lemma {:induction false} HeaderRoundTrip(pf: Platform, n: nat, protver: nat, guid: Bytes, rvInfo: Item,
                                           deviceInfo: Bytes, key: Item, after: Bytes)
    requires n < TWO32 && protver < TWO32 && |guid| < TWO32 && |deviceInfo| < TWO32
    requires InLang(Cose, rvInfo) && InLang(Cose, key)
    ensures ParseHeader(pf, HeaderBytes(n, protver, guid, rvInfo, deviceInfo, key) + after)
         == if n >= 5 && |guid| == 16 && pf.env.utf8(deviceInfo)
            then Some(Header(protver % 65536, guid, deviceInfo, Encode(key))) else None
  {
    hide ReadArray, ReadUint, EncodeHead, Bstr, Tstr, Encode, InLang, Skip, ReadBstr, DecodeTstr, ParseHeader;
    var h, v, g, r := EncodeHead(4, n), EncodeHead(0, protver), Bstr(guid), Encode(rvInfo);
    var t, k := Tstr(deviceInfo), Encode(key);
    var body := v + g + r + (t + k);
    var data := h + body + after;
    assert data[0..|h|] == h;
    AtPrefix(h, body, after);
    PartsAt(data, |h|, v, g, r, t + k);
    ArrayAt(n, data, 0);
    UintAt(protver, data, |h|);
    var p1 := |h| + |v|;
    BstrAt(data, p1, guid);
    var p2 := p1 + |g|;
    SkipEncoded(Cose, rvInfo, data, p2);
    var p3 := p2 + |r|;
    AtConcat(data, p3, t, k);
    TextAt(pf, data, p3, deviceInfo);
    var p4 := p3 + |t|;
    SkipEncoded(Cose, key, data, p4);
    HeaderSteps(pf, data, n, |h|, protver, p1, guid, p2, p3, p4, p4 + |k|,
                if pf.env.utf8(deviceInfo) then Some(deviceInfo) else None);
  }

  lemma TextAt(pf: Platform, data: Bytes, pos: nat, t: Bytes)
    requires |t| < TWO32 && At(data, pos, Tstr(t))
    ensures Skip(Cose, data, pos) == Some(pos + |Tstr(t)|)
    ensures DecodeTstr(pf, data[pos..pos + |Tstr(t)|]) == if pf.env.utf8(t) then Some(t) else None
  {
    hide ReadHead, EncodeHead;
    var h := EncodeHead(3, |t|);
    AtConcat(data, pos, h, t);
    CoseHeadAt(3, |t|, data, pos);
    SkipAfterHead(Cose, data, pos, 3, |t|, pos + |h|);
    var d := h + t;
    assert d[0..|h|] == h && d[|h|..|h| + |t|] == t;
    CoseHeadAt(3, |t|, d, 0);
  }

  /** Every shorter voucher inside an accepted one is accepted too, and makes the
      holder after those entries the owner: the manufacturer for none at all. */
  lemma PrefixAccepted(pf: Platform, v: Presented, guid: Bytes, n: nat)
    requires Verify(pf, v, guid).Ok? && n <= |v.entries|
    ensures Verify(pf, v.(entries := v.entries[..n]), guid).Ok?
    ensures CheckHeader(pf, v, guid).Ok?
    ensures Verify(pf, v.(entries := v.entries[..n]), guid).value
      == SignerOf(pf, v, CheckHeader(pf, v, guid).value.1, n)
  {
    hide Verify, CheckEntry, PayloadOf, ParseHeader;
    var w := v.(entries := v.entries[..n]);
    AcceptedExactly(pf, v, guid);
    AcceptedExactly(pf, w, guid);
    var c := CheckHeader(pf, v, guid);
    assert CheckHeader(pf, w, guid) == c;
    forall i | 0 <= i < n ensures EntryOutcome(pf, w, c.value.0, c.value.1, i).Ok? {
      assert EntryOutcome(pf, v, c.value.0, c.value.1, i).Ok?;
      assert SignerOf(pf, w, c.value.1, i) == SignerOf(pf, v, c.value.1, i) && Predecessor(w, i) == Predecessor(v, i);
    }
  }

  // ---- tamper evidence ----

  /** A header, with anything after it, can never be read as an entry: a header
      is an array of five or more, an entry a tag or an array of exactly four. */
  lemma HeaderIsNotEntry(pf: Platform, header: Bytes, after: Bytes)
    requires ParseHeader(pf, header).Some?
    ensures ParseSign1(header + after).None?
  {
    hide Skip, DecodeTstr, ReadUint, ReadBstr;
    var data := header + after;
    var k := TailLen(Cose, header[0] / 32, header[0] % 32).value;
    assert data[0] == header[0] && data[1..1 + k] == header[1..1 + k];
    assert ReadHead(Cose, data, 0) == ReadHead(Cose, header, 0);
  }

  ghost function Hashed(v: Presented): set<Bytes> {
    {v.header + v.hmacRaw} + (set e | e in v.entries)
  }

  /** No two different byte strings of `s` share a hash. */
  ghost predicate NoCollision(sha256: Bytes -> Bytes, s: set<Bytes>) {
    forall x, y :: x in s && y in s && sha256(x) == sha256(y) ==> x == y
  }

  lemma AcceptedEntry(pf: Platform, v: Presented, guid: Bytes, i: nat)
    requires Verify(pf, v, guid).Ok? && i < |v.entries|
    ensures ParseHeader(pf, v.header).Some? && ParseSign1(v.entries[i]).Some?
    ensures PayloadOf(pf, v.entries[i]).Some?
    ensures PayloadOf(pf, v.entries[i]).value.prevHash == pf.sha256(Predecessor(v, i))
  {
    hide Verify, ParseSign1, ParseEntryPayload, ParseHeader, CheckEntry;
    AcceptedExactly(pf, v, guid);
    var (h, key) := CheckHeader(pf, v, guid).value;
    assert EntryOutcome(pf, v, h, key, i).Ok?;
    CheckEntryPayload(pf, Aad(h), HeaderInfoHash(pf, h), SignerOf(pf, v, key, i), pf.sha256(Predecessor(v, i)),
                      v.entries[i], i);
  }

  /** Two accepted vouchers that share an entry, anywhere, share that entry's
      position and everything before it, down to the OVHeader||HMac bytes. */
  lemma {:induction false} SharedEntry(pf: Platform, v: Presented, w: Presented, guid: Bytes, guid': Bytes, i: nat,
                                       j: nat)
    requires Verify(pf, v, guid).Ok? && Verify(pf, w, guid').Ok?
    requires NoCollision(pf.sha256, Hashed(v) + Hashed(w))
    requires i < |v.entries| && j < |w.entries| && v.entries[i] == w.entries[j]
    ensures i == j && v.entries[..i] == w.entries[..j]
    ensures v.header + v.hmacRaw == w.header + w.hmacRaw
    decreases i
  {
    hide Verify, ParseSign1, ParseHeader, PayloadOf;
    AcceptedEntry(pf, v, guid, i);
    AcceptedEntry(pf, w, guid', j);
    var x, y := Predecessor(v, i), Predecessor(w, j);
    assert x in Hashed(v) && y in Hashed(w);
    assert x == y;
    if i > 0 && j > 0 {
      SharedEntry(pf, v, w, guid, guid', i - 1, j - 1);
      assert v.entries[..i] == v.entries[..i - 1] + [v.entries[i - 1]];
      assert w.entries[..j] == w.entries[..j - 1] + [w.entries[j - 1]];
    } else if i > 0 {
      AcceptedEntry(pf, v, guid, i - 1);
      HeaderIsNotEntry(pf, w.header, w.hmacRaw);
    } else if j > 0 {
      AcceptedEntry(pf, w, guid', j - 1);
      HeaderIsNotEntry(pf, v.header, v.hmacRaw);
    }
  }

  /** Tamper evidence: accepted vouchers that end in the same entry have the same
      entries and the same OVHeader||HMac bytes, and prove the same owner. */
  lemma TamperEvidence(pf: Platform, v: Presented, w: Presented, guid: Bytes, guid': Bytes)
    requires Verify(pf, v, guid).Ok? && Verify(pf, w, guid').Ok?
    requires NoCollision(pf.sha256, Hashed(v) + Hashed(w))
    requires v.entries != [] && w.entries != [] && v.entries[|v.entries| - 1] == w.entries[|w.entries| - 1]
    ensures v.entries == w.entries && v.header + v.hmacRaw == w.header + w.hmacRaw
    ensures Verify(pf, v, guid).value == Verify(pf, w, guid').value
  {
    hide Verify, CheckHeader, PayloadOf, EntryOutcome;
    var n := |v.entries| - 1;
    SharedEntry(pf, v, w, guid, guid', n, |w.entries| - 1);
    assert v.entries == v.entries[..n] + [v.entries[n]];
    assert w.entries == w.entries[..n] + [w.entries[n]];
    AcceptedExactly(pf, v, guid);
    AcceptedExactly(pf, w, guid');
  }

  /** What can be done with the entries of an accepted voucher without being
      noticed: of all the lists of them, in any order and with any repetition,
      exactly the prefixes are accepted. So entries cannot be reordered, replaced
      or removed from the middle, but the last ones can be dropped. */
  lemma RearrangedExactly(pf: Platform, v: Presented, guid: Bytes, es: seq<Bytes>)
    requires Verify(pf, v, guid).Ok? && NoCollision(pf.sha256, Hashed(v))
    requires forall k :: 0 <= k < |es| ==> es[k] in v.entries
    ensures Verify(pf, v.(entries := es), guid).Ok? <==> es <= v.entries
  {
    hide Verify, CheckHeader, SignerOf;
    var w := v.(entries := es);
    if es <= v.entries {
      PrefixAccepted(pf, v, guid, |es|);
      assert v.entries[..|es|] == es;
    }
    if Verify(pf, w, guid).Ok? && es != [] {
      var k := |es| - 1;
      assert es[k] in v.entries;
      var i :| 0 <= i < |v.entries| && v.entries[i] == es[k];
      assert Hashed(w) <= Hashed(v) && Hashed(w) + Hashed(v) == Hashed(v);
      SharedEntry(pf, w, v, guid, guid, k, i);
      assert es == es[..k] + [es[k]] && v.entries[..i + 1] == v.entries[..i] + [v.entries[i]];
    }
  }

  /** No entry occurs twice in an accepted voucher. */
  lemma EntriesDistinct(pf: Platform, v: Presented, guid: Bytes)
    requires Verify(pf, v, guid).Ok? && NoCollision(pf.sha256, Hashed(v))
    ensures forall i, j :: 0 <= i < j < |v.entries| ==> v.entries[i] != v.entries[j]
  {
    hide Verify;
    assert Hashed(v) + Hashed(v) == Hashed(v);
    forall i, j | 0 <= i < j < |v.entries| ensures v.entries[i] != v.entries[j] {
      if v.entries[i] == v.entries[j] { SharedEntry(pf, v, v, guid, guid, i, j); }
    }
  }
}
