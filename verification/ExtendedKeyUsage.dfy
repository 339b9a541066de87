/**
 The DER readers of delegate.rs and the ExtendedKeyUsage scan that turns object
 identifiers into delegate permissions. Readers that the scan retries report
 where they left the cursor even when they fail.
 */
module ExtendedKeyUsage {
  import opened Base
  import opened Delegate

  const FDO_ARC: Bytes := [0x2B, 0x06, 0x01, 0x04, 0x01, 0x82, 0xE5, 0x1C, 0x03, 0x01]
  const OID_REDIRECT: Bytes := FDO_ARC + [0x01]
  const OID_NEW_CRED: Bytes := FDO_ARC + [0x02]
  const OID_REUSE_CRED: Bytes := FDO_ARC + [0x03]
  const OID_FDO_DISABLE: Bytes := FDO_ARC + [0x04]
  const OID_PROVISION: Bytes := FDO_ARC + [0x07]

  /** `read_der_length`: the value, and the cursor afterwards. */
  function DerLength(data: Bytes, pos: nat): (r: (Option<nat>, nat))
    ensures pos <= r.1 && (pos <= |data| ==> r.1 <= |data|)
    ensures r.0.Some? ==> pos < r.1
  {
    if pos >= |data| then (None, pos)
    else if data[pos] < 0x80 then (Some(data[pos]), pos + 1)
    else
      var n := data[pos] % 128;
      if n > 4 || n == 0 then (None, pos + 1)
      else if pos + 1 + n > |data| then (None, |data|)
      else (Some(BeNat(data[pos + 1..pos + 1 + n])), pos + 1 + n)
  }

  /** `read_oid`: leaves the cursor alone unless the tag says OID. */
  function ReadOid(data: Bytes, pos: nat): (r: (Option<Bytes>, nat))
    ensures pos <= r.1 && (pos <= |data| ==> r.1 <= |data|)
    ensures r.0.Some? ==> pos < r.1
  {
    if pos >= |data| || data[pos] != 0x06 then (None, pos)
    else
      var (len, p) := DerLength(data, pos + 1);
      if len.None? || p + len.value > |data| then (None, p)
      else (Some(data[p..p + len.value]), p + len.value)
  }

  function SkipElement(data: Bytes, pos: nat): (r: Option<nat>)
    ensures r.Some? ==> pos < r.value <= |data|
  {
    if pos >= |data| then None
    else
      var (len, p) := DerLength(data, pos + 1);
      if len.None? || p + len.value > |data| then None else Some(p + len.value)
  }

  /** Start and end of the contents of a SEQUENCE. */
  function SequenceHeader(data: Bytes): Option<(nat, nat)> {
    if |data| == 0 || data[0] != 0x30 then None
    else
      var (len, p) := DerLength(data, 1);
      if len.None? || p + len.value > |data| then None else Some((p, p + len.value))
  }

  const NOTHING: Perms := Perms(false, false, false, false)

  function Mark(f: Perms, oid: Bytes): Perms {
    if oid == OID_PROVISION then f.(provision := true)
    else if oid == OID_REDIRECT then f.(redirect := true)
    else if oid == OID_NEW_CRED then f.(onboard := true)
    else if oid == OID_REUSE_CRED then f.(reuseCred := true, onboard := true)
    else if oid == OID_FDO_DISABLE then f.(onboard := true)
    else f
  }

  /** The scan from `pos`, with the permissions found so far. */
  function Scan(data: Bytes, pos: nat, end: nat, f: Perms): Perms
    requires pos <= |data|
    decreases |data| - pos
  {
    if pos >= end then f
    else
      var (oid, p) := ReadOid(data, pos);
      if oid.Some? then Scan(data, p, end, Mark(f, oid.value))
      else
        var q := SkipElement(data, p);
        if q.None? then f else Scan(data, q.value, end, f)
  }

  function EkuPerms(data: Bytes): Perms {
    var s := SequenceHeader(data);
    if s.None? then NOTHING else Scan(data, s.value.0, s.value.1, NOTHING)
  }

  /** The loop, which ends on every byte string. */
  method CheckEkuOids(data: Bytes) returns (f: Perms)
    ensures f == EkuPerms(data)
  {
    f := NOTHING;
    var s := SequenceHeader(data);
    if s.None? { return; }
    var pos, end := s.value.0, s.value.1;
    while pos < end
      invariant pos <= |data|
      invariant EkuPerms(data) == Scan(data, pos, end, f)
      decreases |data| - pos
    {
      var (oid, p) := ReadOid(data, pos);
      pos := p;
      if oid.None? {
        var q := SkipElement(data, pos);
        if q.None? { break; }
        pos := q.value;
      } else {
        f := Mark(f, oid.value);
      }
    }
  }

  // ---- well-formed sequences ----

  /** One DER element: a tag, its length octets as written, its contents. */
  datatype Element = Element(tag: u8, length: Bytes, content: Bytes)

  /** `octets` is a definite length of at most four octets spelling `n`. */
  predicate LengthOctets(octets: Bytes, n: nat) {
    || (n < 0x80 && octets == [n])
    || (2 <= |octets| <= 5 && octets[0] == 0x80 + |octets| - 1 && BeNat(octets[1..]) == n)
  }

  predicate ElementOk(e: Element) { LengthOctets(e.length, |e.content|) }

  function EncodeElement(e: Element): Bytes { [e.tag] + e.length + e.content }

  function EncodeElements(es: seq<Element>): Bytes {
    if es == [] then [] else EncodeElement(es[0]) + EncodeElements(es[1..])
  }

  lemma LengthAt(data: Bytes, pos: nat, octets: Bytes, n: nat)
    requires LengthOctets(octets, n) && At(data, pos, octets)
    ensures DerLength(data, pos) == (Some(n), pos + |octets|)
  {
    assert data[pos] == data[pos..pos + |octets|][0];
    if |octets| >= 2 {
      assert data[pos + 1..pos + |octets|] == data[pos..pos + |octets|][1..];
    }
  }

  lemma ElementAt(data: Bytes, pos: nat, e: Element)
    requires ElementOk(e) && At(data, pos, EncodeElement(e))
    ensures SkipElement(data, pos) == Some(pos + |EncodeElement(e)|)
    ensures ReadOid(data, pos) == if e.tag == 0x06 then (Some(e.content), pos + |EncodeElement(e)|) else (None, pos)
  {
    AtConcat(data, pos, [e.tag] + e.length, e.content);
    AtConcat(data, pos, [e.tag], e.length);
    assert data[pos] == data[pos..pos + 1][0];
    LengthAt(data, pos + 1, e.length, |e.content|);
  }

  /** Some element is the object identifier `oid`. */
  ghost predicate Has(es: seq<Element>, oid: Bytes) {
    exists i :: 0 <= i < |es| && es[i].tag == 0x06 && es[i].content == oid
  }

  ghost function PermsOf(es: seq<Element>): Perms {
    Perms(Has(es, OID_REDIRECT), Has(es, OID_PROVISION),
          Has(es, OID_NEW_CRED) || Has(es, OID_REUSE_CRED) || Has(es, OID_FDO_DISABLE),
          Has(es, OID_REUSE_CRED))
  }

  function Union(a: Perms, b: Perms): Perms {
    Perms(a.redirect || b.redirect, a.provision || b.provision, a.onboard || b.onboard, a.reuseCred || b.reuseCred)
  }

  lemma OidsDistinct()
    ensures OID_REDIRECT[10] == 1 && OID_NEW_CRED[10] == 2 && OID_REUSE_CRED[10] == 3
    ensures OID_FDO_DISABLE[10] == 4 && OID_PROVISION[10] == 7
  {
  }

  lemma HasCons(es: seq<Element>, oid: Bytes)
    requires es != []
    ensures Has(es, oid) <==> (es[0].tag == 0x06 && es[0].content == oid) || Has(es[1..], oid)
  {
    if Has(es[1..], oid) {
      var i :| 0 <= i < |es[1..]| && es[1..][i].tag == 0x06 && es[1..][i].content == oid;
      assert es[i + 1] == es[1..][i];
    }
    if Has(es, oid) {
      var i :| 0 <= i < |es| && es[i].tag == 0x06 && es[i].content == oid;
      if i > 0 { assert es[1..][i - 1] == es[i]; }
    }
  }

  lemma PermsOfCons(es: seq<Element>, f: Perms)
    requires es != []
    ensures Union(f, PermsOf(es)) == Union(if es[0].tag == 0x06 then Mark(f, es[0].content) else f, PermsOf(es[1..]))
  {
    OidsDistinct();
    HasCons(es, OID_REDIRECT);
    HasCons(es, OID_PROVISION);
    HasCons(es, OID_NEW_CRED);
    HasCons(es, OID_REUSE_CRED);
    HasCons(es, OID_FDO_DISABLE);
  }

  lemma {:induction false} ScanElements(data: Bytes, pos: nat, es: seq<Element>, f: Perms)
    requires forall i :: 0 <= i < |es| ==> ElementOk(es[i])
    requires At(data, pos, EncodeElements(es))
    ensures Scan(data, pos, pos + |EncodeElements(es)|, f) == Union(f, PermsOf(es))
    decreases |es|
  {
    hide EncodeElement, ElementOk, ReadOid, SkipElement, Mark;
    if es != [] {
      var e := es[0];
      AtConcat(data, pos, EncodeElement(e), EncodeElements(es[1..]));
      ElementAt(data, pos, e);
      ElementNonempty(e);
      PermsOfCons(es, f);
      ScanElements(data, pos + |EncodeElement(e)|, es[1..], if e.tag == 0x06 then Mark(f, e.content) else f);
    }
  }

  lemma ElementNonempty(e: Element) ensures |EncodeElement(e)| > 0 { }

  /** On every well-formed EKU sequence, mixing OIDs with anything else and
      followed by anything, each permission is set exactly when one of its
      object identifiers occurs. */
  lemma EkuExact(length: Bytes, es: seq<Element>, after: Bytes)
    requires forall i :: 0 <= i < |es| ==> ElementOk(es[i])
    requires LengthOctets(length, |EncodeElements(es)|)
    ensures EkuPerms([0x30] + length + EncodeElements(es) + after) == PermsOf(es)
  {
    hide EncodeElements, Scan, DerLength, PermsOf;
    var body := EncodeElements(es);
    var data := [0x30] + length + body + after;
    var p := 1 + |length|;
    assert data[1..p] == length && data[p..p + |body|] == body && data[0] == 0x30;
    LengthAt(data, 1, length, |body|);
    ScanElements(data, p, es, NOTHING);
    assert Union(NOTHING, PermsOf(es)) == PermsOf(es);
  }

  /** Credential reuse is never reported without onboarding, on any bytes. */
  lemma ReuseImpliesOnboard(data: Bytes)
    ensures EkuPerms(data).reuseCred ==> EkuPerms(data).onboard
  {
    var s := SequenceHeader(data);
    if s.Some? { ScanReuse(data, s.value.0, s.value.1, NOTHING); }
  }

  lemma {:induction false} ScanReuse(data: Bytes, pos: nat, end: nat, f: Perms)
    requires pos <= |data| && (f.reuseCred ==> f.onboard)
    ensures Scan(data, pos, end, f).reuseCred ==> Scan(data, pos, end, f).onboard
    decreases |data| - pos
  {
    hide ReadOid, SkipElement;
    if pos < end {
      var (oid, p) := ReadOid(data, pos);
      if oid.Some? {
        ScanReuse(data, p, end, Mark(f, oid.value));
      } else if SkipElement(data, p).Some? {
        ScanReuse(data, SkipElement(data, p).value, end, f);
      }
    }
  }
}
