/**
 COSE_Sign1 (RFC 9052): the cursor readers of cose.rs, the envelope parser, the
 Sig_structure and its domain-separation tag.

 A reader takes a buffer and a position and yields the value with the position
 after it, or None. No caller modelled here looks at the position after a
 failure.
 */
module CoseSign1 {
  import opened Base
  import opened Cbor
  import opened Cursor

  const ES256: int := -7

  // ---- readers ----

  function ReadUint(data: Bytes, pos: nat): Option<(nat, nat)> {
    var (major, arg, p) :- ReadHead(Cose, data, pos);
    if major == 0 then Some((arg, p)) else None
  }

  function ReadInt(data: Bytes, pos: nat): Option<(int, nat)> {
    var (major, arg, p) :- ReadHead(Cose, data, pos);
    if major == 0 then Some((arg, p)) else if major == 1 then Some((-1 - arg, p)) else None
  }

  function ReadArray(data: Bytes, pos: nat): (r: Option<(nat, nat)>)
    ensures r.Some? ==> pos < r.value.1 <= |data|
  {
    var (major, arg, p) :- ReadHead(Cose, data, pos);
    if major == 4 then Some((arg, p)) else None
  }

  function ReadBstr(data: Bytes, pos: nat): (r: Option<(Bytes, nat)>)
    ensures r.Some? ==> pos < r.value.1 <= |data|
  {
    var (major, arg, p) :- ReadHead(Cose, data, pos);
    if major != 2 || p + arg > |data| then None else Some((data[p..p + arg], p + arg))
  }

  /** `cbor_skip`, in the source's form: a recursive walk whose container cases
      are loops. */
  method CborSkip(data: Bytes, pos: nat) returns (r: Option<nat>)
    ensures r == Skip(Cose, data, pos)
    decreases Left(data, pos), 0
  {
    if pos >= |data| { return None; }
    var major, info := data[pos] / 32, data[pos] % 32;
    if major == 7 {
      var k := if info == 24 then 1 else if info == 25 then 2 else if info == 26 then 4
               else if info == 27 then 8 else 0;
      return Some(pos + 1 + k);
    }
    var head := ReadHead(Cose, data, pos);
    if head.None? { return None; }
    var len, p := head.value.1, head.value.2;
    SkipAfterHead(Cose, data, pos, major, len, p);
    if major < 2 {
      return Some(p);
    } else if major < 4 {
      return if p + len > |data| then None else Some(p + len);
    } else if major == 6 {
      r := CborSkip(data, p);
    } else {
      r := CborSkipItems(data, p, if major == 4 then len else 2 * len);
    }
  }

  /** The loop over the items of an array, or the keys and values of a map. */
  method CborSkipItems(data: Bytes, pos: nat, n: nat) returns (r: Option<nat>)
    ensures r == SkipN(Cose, data, pos, n)
    decreases Left(data, pos), 1
  {
    hide Skip;
    var p, i := pos, 0;
    while i < n
      invariant i <= n && pos <= p
      invariant SkipN(Cose, data, pos, n) == SkipN(Cose, data, p, n - i)
    {
      r := CborSkip(data, p);
      if r.None? { return; }
      p, i := r.value, i + 1;
    }
    return Some(p);
  }

  // ---- writers ----

  /** `encode_head`: four argument bytes at most, so a length of 2^32 or more
      is written modulo 2^32. */
  function EncodeHead(major: Major, len: nat): Bytes {
    if len < 65536 then HeadFor(major, len).Bytes() else [major * 32 + 26] + BeBytes(len, 4)
  }

  function Bstr(b: Bytes): Bytes { EncodeHead(2, |b|) + b }

  function Tstr(b: Bytes): Bytes { EncodeHead(3, |b|) + b }

  lemma EncodeHeadShort(major: Major, len: nat)
    requires len < TWO32
    ensures EncodeHead(major, len) == HeadFor(major, len).Bytes()
  {
  }

  lemma BstrAt(data: Bytes, pos: nat, b: Bytes)
    requires |b| < TWO32 && At(data, pos, Bstr(b))
    ensures ReadBstr(data, pos) == Some((b, pos + |Bstr(b)|))
  {
    EncodeHeadShort(2, |b|);
    HeadForArg(2, |b|);
    BstrWithHeadAt(HeadFor(2, |b|), data, pos, b);
  }

  lemma BstrWithHeadAt(h: Head, data: Bytes, pos: nat, b: Bytes)
    requires h.major == 2 && TailLen(Cose, 2, h.info) == Some(|h.tail|) && h.Arg() == |b|
    requires At(data, pos, h.Bytes() + b)
    ensures ReadBstr(data, pos) == Some((b, pos + |h.Bytes()| + |b|))
  {
    AtConcat(data, pos, h.Bytes(), b);
    HeadAt(Cose, h, data, pos);
  }

  // ---- Sig_structure ----

  const SIGNATURE1: Bytes := [0x53, 0x69, 0x67, 0x6e, 0x61, 0x74, 0x75, 0x72, 0x65, 0x31]

  function SigStructure(protected: Bytes, aad: Bytes, payload: Bytes): Bytes {
    [0x84, 0x6a] + SIGNATURE1 + Bstr(protected) + Bstr(aad) + Bstr(payload)
  }

  /** Parts of a concatenation, located. */
  lemma PartsAt(data: Bytes, pos: nat, a: Bytes, b: Bytes, c: Bytes, d: Bytes)
    requires At(data, pos, a + b + c + d)
    ensures At(data, pos, a) && At(data, pos + |a|, b)
    ensures At(data, pos + |a| + |b|, c) && At(data, pos + |a| + |b| + |c|, d)
  {
    AtConcat(data, pos, a + b + c, d);
    AtConcat(data, pos, a + b, c);
    AtConcat(data, pos, a, b);
  }

  lemma BstrUnique(data: Bytes, pos: nat, b: Bytes, b': Bytes)
    requires |b| < TWO32 && |b'| < TWO32 && At(data, pos, Bstr(b)) && At(data, pos, Bstr(b'))
    ensures b == b'
  {
    BstrAt(data, pos, b);
    BstrAt(data, pos, b');
  }

  lemma SigStructureParts(s: Bytes, p: Bytes, a: Bytes, m: Bytes)
    requires s == SigStructure(p, a, m)
    ensures At(s, 12, Bstr(p)) && At(s, 12 + |Bstr(p)|, Bstr(a)) && At(s, 12 + |Bstr(p)| + |Bstr(a)|, Bstr(m))
  {
    assert s[0..] == s;
    PartsAt(s, 0, [0x84, 0x6a] + SIGNATURE1, Bstr(p), Bstr(a), Bstr(m));
  }

  /** What is signed determines what was meant: no two (protected, aad, payload)
      triples share a Sig_structure. */
  lemma SigStructureInjective(p: Bytes, a: Bytes, m: Bytes, p': Bytes, a': Bytes, m': Bytes)
    requires |p| < TWO32 && |a| < TWO32 && |m| < TWO32
    requires |p'| < TWO32 && |a'| < TWO32 && |m'| < TWO32
    requires SigStructure(p, a, m) == SigStructure(p', a', m')
    ensures p == p' && a == a' && m == m'
  {
    hide SigStructure, Bstr;
    var s := SigStructure(p, a, m);
    SigStructureParts(s, p, a, m);
    SigStructureParts(s, p', a', m');
    BstrUnique(s, 12, p, p');
    BstrUnique(s, 12 + |Bstr(p)|, a, a');
    BstrUnique(s, 12 + |Bstr(p)| + |Bstr(a)|, m, m');
  }

  /** The bound is needed: at 2^32 bytes the length is written modulo 2^32 and
      two different triples get the same bytes. */
  lemma SigStructureWraps(z: Bytes, y: Bytes)
    requires |z| == TWO32 && |y| == TWO32 - 5
    ensures SigStructure(z, y, z + Bstr(y)) == SigStructure(z + Bstr(y), z, y)
    ensures z != z + Bstr(y)
  {
    assert |Bstr(y)| == TWO32;
    BeBytesWrap(1);
    BeBytesWrap(2);
    assert EncodeHead(2, |z|) == EncodeHead(2, |z + Bstr(y)|);
    var h := EncodeHead(2, |z|);
    assert Bstr(z + Bstr(y)) == h + z + Bstr(y);
  }

  lemma BeBytesWrap(k: nat)
    ensures BeBytes(k * TWO32, 4) == [0, 0, 0, 0]
  {
    var n := k * TWO32;
    assert BeBytes(n / 256 / 256 / 256 / 256, 0) == [];
    assert n % 256 == 0 && n / 256 == k * 0x100_0000;
    assert (n / 256) % 256 == 0 && n / 256 / 256 == k * 0x1_0000;
    assert (n / 256 / 256) % 256 == 0 && n / 256 / 256 / 256 == k * 256;
    assert BeBytes(k * 256, 1) == [0];
    assert BeBytes(k * 0x1_0000, 2) == [0, 0];
    assert BeBytes(k * 0x100_0000, 3) == [0, 0, 0];
  }

  // ---- domain separation ----

  const VERSION_200: nat := 200

  function DomainAad(tag: Bytes, version: nat): Bytes {
    if version < VERSION_200 then [] else [0x81] + Tstr(tag)
  }

  lemma DomainAadInjective(tag: Bytes, tag': Bytes, version: nat, version': nat)
    requires version >= VERSION_200 && |tag| < TWO32 && |tag'| < TWO32
    ensures DomainAad(tag, version) == DomainAad(tag', version) <==> tag == tag'
    ensures DomainAad(tag, version) == DomainAad(tag', version') <==> version' >= VERSION_200 && tag == tag'
    ensures version' < 200 ==> DomainAad(tag', version') == []
  {
    if DomainAad(tag, version) == DomainAad(tag', version) {
      var s := DomainAad(tag, version);
      EncodeHeadShort(3, |tag|);
      EncodeHeadShort(3, |tag'|);
      assert s[1..] == Tstr(tag) == Tstr(tag');
      assert At(s, 1, HeadFor(3, |tag|).Bytes()) by {
        assert Tstr(tag)[..|HeadFor(3, |tag|).Bytes()|] == HeadFor(3, |tag|).Bytes();
      }
      assert At(s, 1, HeadFor(3, |tag'|).Bytes()) by {
        assert Tstr(tag')[..|HeadFor(3, |tag'|).Bytes()|] == HeadFor(3, |tag'|).Bytes();
      }
      HeadForAt(Cose, 3, |tag|, s, 1);
      HeadForAt(Cose, 3, |tag'|, s, 1);
      assert tag == Tstr(tag)[|EncodeHead(3, |tag|)|..] == tag';
    }
  }

  /** Domain separation of whole signatures: bytes signed for one FDO 2.0 context
      are never the bytes checked in another, nor those of a pre-2.0 message,
      whatever headers and payloads are involved. */
  lemma DomainSeparation(p: Bytes, tag: Bytes, m: Bytes, p': Bytes, tag': Bytes, version': nat, m': Bytes)
    requires |p| < TWO32 && |m| < TWO32 && |p'| < TWO32 && |m'| < TWO32
    requires |tag| + 6 < TWO32 && |tag'| + 6 < TWO32
    requires SigStructure(p, DomainAad(tag, 200), m) == SigStructure(p', DomainAad(tag', version'), m')
    ensures version' >= VERSION_200 && tag == tag' && p == p' && m == m'
  {
    SigStructureInjective(p, DomainAad(tag, 200), m, p', DomainAad(tag', version'), m');
    DomainAadInjective(tag, tag', 200, version');
  }

  // ---- the envelope ----

  datatype Sign1 = Sign1(protected: Bytes, unprotected: Bytes, payload: Bytes, signature: Bytes)

  /** Skip an optional tag 18, then demand an array of exactly four. */
  function ReadSign1Array(data: Bytes): (r: Option<nat>)
    ensures r.Some? ==> 0 < r.value <= |data|
  {
    if data == [] then None
    else
      var start :- if data[0] / 32 != 6 then Some(0) else
                     var (_, tag, p) :- ReadHead(Cose, data, 0);
                     if tag == 18 then Some(p) else None;
      var (n, p) :- ReadArray(data, start);
      if n == 4 then Some(p) else None
  }

  function ParseSign1(data: Bytes): Option<Sign1> {
    var p0 :- ReadSign1Array(data);
    var (protected, p1) :- ReadBstr(data, p0);
    var p2 :- Skip(Cose, data, p1);
    if p2 >= |data| then None
    else
      var (payload, p3) :- if data[p2] == 0xf6 then Some(([], p2 + 1)) else ReadBstr(data, p2);
      var (signature, _) :- ReadBstr(data, p3);
      Some(Sign1(protected, data[p1..p2], payload, signature))
  }

  // ---- exactly the envelopes that are accepted ----

  predicate Opens(tag: Option<Head>, outer: Head) {
    (tag.Some? ==> HeadOf(Cose, tag.value, 6, 18)) && HeadOf(Cose, outer, 4, 4)
  }

  function OpenBytes(tag: Option<Head>, outer: Head): Bytes {
    (if tag.Some? then tag.value.Bytes() else []) + outer.Bytes()
  }

  function StringBytes(h: Head, b: Bytes): Bytes { h.Bytes() + b }

  /** A payload behind its head, or null. */
  function PayloadBytes(h: Option<Head>, b: Bytes): Bytes {
    if h.Some? then StringBytes(h.value, b) else [0xf6]
  }

  /** How a message can be written: tag 18 or none, and heads of any width. */
  datatype Form = Form(tag: Option<Head>, outer: Head, protected: Head, unprotected: Item,
                       payload: Option<Head>, signature: Head) {
    function Open(): Bytes { OpenBytes(tag, outer) }

    function Print(s: Sign1): Bytes {
      Open() + (StringBytes(protected, s.protected) + s.unprotected
                + PayloadBytes(payload, s.payload) + StringBytes(signature, s.signature))
    }

    ghost predicate Writes(s: Sign1) {
      && Opens(tag, outer) && HeadOf(Cose, protected, 2, |s.protected|)
      && InLang(Cose, unprotected) && Encode(unprotected) == s.unprotected
      && (if payload.Some? then HeadOf(Cose, payload.value, 2, |s.payload|) else s.payload == [])
      && HeadOf(Cose, signature, 2, |s.signature|)
    }
  }

  lemma OpenExact(data: Bytes, p: nat)
    ensures ReadSign1Array(data) == Some(p) <==>
            exists t, a :: Opens(t, a) && At(data, 0, OpenBytes(t, a)) && p == |OpenBytes(t, a)|
  {
    hide ReadSign1Array, Opens, OpenBytes;
    if ReadSign1Array(data) == Some(p) { var t, a := OpenForm(data, p); }
    forall t, a | Opens(t, a) && At(data, 0, OpenBytes(t, a)) && p == |OpenBytes(t, a)|
      ensures ReadSign1Array(data) == Some(p)
    {
      OpenAt(data, t, a);
    }
  }

  lemma OpenForm(data: Bytes, p: nat) returns (t: Option<Head>, a: Head)
    requires ReadSign1Array(data) == Some(p)
    ensures Opens(t, a) && At(data, 0, OpenBytes(t, a)) && p == |OpenBytes(t, a)|
  {
    hide ReadHead, HeadOf;
    t := None;
    var q := 0;
    if data[0] / 32 == 6 {
      q := ReadHead(Cose, data, 0).value.2;
      CoseHeadMajor(data, 0);
      ReadHeadExact(Cose, data, 0, 6, 18, q);
      var h :| HeadOf(Cose, h, 6, 18) && At(data, 0, h.Bytes()) && q == |h.Bytes()|;
      t := Some(h);
    }
    ReadHeadExact(Cose, data, q, 4, 4, p);
    a :| HeadOf(Cose, a, 4, 4) && At(data, q, a.Bytes()) && p == q + |a.Bytes()|;
    AtConcat(data, 0, if t.Some? then t.value.Bytes() else [], a.Bytes());
  }

  lemma OpenAt(data: Bytes, t: Option<Head>, a: Head)
    requires Opens(t, a) && At(data, 0, OpenBytes(t, a))
    ensures ReadSign1Array(data) == Some(|OpenBytes(t, a)|)
  {
    hide ReadHead;
    var tb := if t.Some? then t.value.Bytes() else [];
    AtConcat(data, 0, tb, a.Bytes());
    HeadAt(Cose, a, data, |tb|);
    assert data[0] == data[0..|OpenBytes(t, a)|][0];
    if t.Some? { HeadAt(Cose, t.value, data, 0); }
  }

  lemma CoseHeadMajor(data: Bytes, pos: nat)
    requires ReadHead(Cose, data, pos).Some?
    ensures ReadHead(Cose, data, pos).value.0 == data[pos] / 32
  {
  }

  lemma BstrExact(data: Bytes, pos: nat, b: Bytes, p: nat)
    ensures ReadBstr(data, pos) == Some((b, p)) <==>
            exists h :: HeadOf(Cose, h, 2, |b|) && At(data, pos, StringBytes(h, b)) && p == pos + |StringBytes(h, b)|
  {
    hide ReadHead;
    if ReadBstr(data, pos) == Some((b, p)) {
      var q := ReadHead(Cose, data, pos).value.2;
      ReadHeadExact(Cose, data, pos, 2, |b|, q);
      var h :| HeadOf(Cose, h, 2, |b|) && At(data, pos, h.Bytes()) && q == pos + |h.Bytes()|;
      AtConcat(data, pos, h.Bytes(), b);
      assert At(data, pos, StringBytes(h, b));
    }
    forall h | HeadOf(Cose, h, 2, |b|) && At(data, pos, StringBytes(h, b)) && p == pos + |StringBytes(h, b)|
      ensures ReadBstr(data, pos) == Some((b, p))
    {
      BstrWithHeadAt(h, data, pos, b);
    }
  }

  /** A message is accepted as `s` exactly when it starts with some writing of `s`. */
  lemma ParseSign1Exact(data: Bytes, s: Sign1)
    ensures ParseSign1(data) == Some(s) <==> exists f: Form :: f.Writes(s) && At(data, 0, f.Print(s))
  {
    hide ReadSign1Array, ReadBstr, Skip, InLang, Encode, HeadOf, ParseSign1;
    if ParseSign1(data) == Some(s) { var f := FormOf(data, s); }
    forall f: Form | f.Writes(s) && At(data, 0, f.Print(s)) ensures ParseSign1(data) == Some(s) {
      FormParses(data, s, f);
    }
  }

  lemma {:induction false} FormParses(data: Bytes, s: Sign1, f: Form)
    requires f.Writes(s) && At(data, 0, f.Print(s))
    ensures ParseSign1(data) == Some(s)
  {
    hide ReadSign1Array, ReadBstr, Skip, InLang, Encode, HeadOf, ParseSign1, OpenBytes, Opens, StringBytes,
      PayloadBytes;
    var a, b, m := f.Open(), StringBytes(f.protected, s.protected), s.unprotected;
    var y, g := PayloadBytes(f.payload, s.payload), StringBytes(f.signature, s.signature);
    AtConcat(data, 0, a, b + m + y + g);
    PartsAt(data, |a|, b, m, y, g);
    var p1, p2, p3 := |a| + |b|, |a| + |b| + |m|, |a| + |b| + |m| + |y|;
    OpenExact(data, |a|);
    BstrExact(data, |a|, s.protected, p1);
    SkipEncoded(Cose, f.unprotected, data, p1);
    PayloadPart(data, p2, s.payload, f.payload);
    BstrExact(data, p3, s.signature, p3 + |g|);
    ParseSign1Steps(data, |a|, p1, p2, p3, p3 + |g|, s);
  }

  lemma PayloadPart(data: Bytes, pos: nat, payload: Bytes, h: Option<Head>)
    requires if h.Some? then HeadOf(Cose, h.value, 2, |payload|) else payload == []
    requires At(data, pos, PayloadBytes(h, payload))
    ensures pos < |data|
    ensures (if data[pos] == 0xf6 then Some(([], pos + 1)) else ReadBstr(data, pos))
         == Some((payload, pos + |PayloadBytes(h, payload)|))
  {
    hide ReadBstr, TailLen, ArgOf;
    assert data[pos] == data[pos..pos + |PayloadBytes(h, payload)|][0];
    if h.Some? { BstrWithHeadAt(h.value, data, pos, payload); }
  }

  /** The writing of the payload that was read. */
  lemma PayloadForm(data: Bytes, pos: nat, payload: Bytes, p: nat) returns (h: Option<Head>)
    requires pos < |data| && (if data[pos] == 0xf6 then Some(([], pos + 1)) else ReadBstr(data, pos))
      == Some((payload, p))
    ensures if h.Some? then HeadOf(Cose, h.value, 2, |payload|) else payload == []
    ensures At(data, pos, PayloadBytes(h, payload)) && p == pos + |PayloadBytes(h, payload)|
  {
    hide ReadBstr, StringBytes, HeadOf;
    h := None;
    if data[pos] != 0xf6 {
      BstrExact(data, pos, payload, p);
      var hy :| HeadOf(Cose, hy, 2, |payload|) && At(data, pos, StringBytes(hy, payload))
                && p == pos + |StringBytes(hy, payload)|;
      h := Some(hy);
    }
  }

  lemma {:induction false} FormOf(data: Bytes, s: Sign1) returns (f: Form)
    requires ParseSign1(data) == Some(s)
    ensures f.Writes(s) && At(data, 0, f.Print(s))
  {
    hide ReadSign1Array, ReadBstr, Skip, InLang, Encode, HeadOf, OpenBytes, Opens, StringBytes, PayloadBytes;
    var p0 := ReadSign1Array(data).value;
    var p1 := ReadBstr(data, p0).value.1;
    var p2 := Skip(Cose, data, p1).value;
    var p3 := if data[p2] == 0xf6 then p2 + 1 else ReadBstr(data, p2).value.1;
    var p4 := ReadBstr(data, p3).value.1;
    OpenExact(data, p0);
    var t, a :| Opens(t, a) && At(data, 0, OpenBytes(t, a)) && p0 == |OpenBytes(t, a)|;
    BstrExact(data, p0, s.protected, p1);
    var hp :| HeadOf(Cose, hp, 2, |s.protected|) && At(data, p0, StringBytes(hp, s.protected))
              && p1 == p0 + |StringBytes(hp, s.protected)|;
    var it := SkipSound(Cose, data, p1);
    var hy := PayloadForm(data, p2, s.payload, p3);
    BstrExact(data, p3, s.signature, p4);
    var hg :| HeadOf(Cose, hg, 2, |s.signature|) && At(data, p3, StringBytes(hg, s.signature))
              && p4 == p3 + |StringBytes(hg, s.signature)|;
    f := Form(t, a, hp, it, hy, hg);
    FormPlaced(data, s, f, p0, p1, p2, p3);
  }

  lemma FormPlaced(data: Bytes, s: Sign1, f: Form, p0: nat, p1: nat, p2: nat, p3: nat)
    requires At(data, 0, f.Open()) && p0 == |f.Open()|
    requires At(data, p0, StringBytes(f.protected, s.protected)) && p1 == p0 + |StringBytes(f.protected, s.protected)|
    requires At(data, p1, s.unprotected) && p2 == p1 + |s.unprotected|
    requires At(data, p2, PayloadBytes(f.payload, s.payload)) && p3 == p2 + |PayloadBytes(f.payload, s.payload)|
    requires At(data, p3, StringBytes(f.signature, s.signature))
    ensures At(data, 0, f.Print(s))
  {
    hide OpenBytes, StringBytes, PayloadBytes;
    var b, m := StringBytes(f.protected, s.protected), s.unprotected;
    var y, g := PayloadBytes(f.payload, s.payload), StringBytes(f.signature, s.signature);
    FourAt(data, p0, b, m, y, g);
    AtConcat(data, 0, f.Open(), b + m + y + g);
  }

  lemma FourAt(data: Bytes, pos: nat, a: Bytes, b: Bytes, c: Bytes, d: Bytes)
    requires At(data, pos, a) && At(data, pos + |a|, b)
    requires At(data, pos + |a| + |b|, c) && At(data, pos + |a| + |b| + |c|, d)
    ensures At(data, pos, a + b + c + d)
  {
    AtConcat(data, pos, a, b);
    AtConcat(data, pos, a + b, c);
    AtConcat(data, pos, a + b + c, d);
  }

  /** The payload is a span of the message. */
  lemma CalmPayload(data: Bytes, stack: nat)
    requires ParseSign1(data).Some? && Calm(data, stack)
    ensures Calm(ParseSign1(data).value.payload, stack)
  {
    hide Skip, ReadHead, ReadSign1Array, Calm;
    var p1 := ReadBstr(data, ReadSign1Array(data).value).value.1;
    var p2 := Skip(Cose, data, p1).value;
    if data[p2] == 0xf6 {
      CalmSpan(data, 0, 0, stack);
    } else {
      var (_, arg, p) := ReadHead(Cose, data, p2).value;
      CalmSpan(data, p, p + arg, stack);
    }
  }

  function Sign1Open(tagged: bool): Bytes {
    if tagged then [0xd2, 0x84] else [0x84]
  }

  /** An envelope as the client prints it, with or without tag 18; a missing
      payload is written as null. */
  function PrintSign1(tagged: bool, protected: Bytes, unprotected: Item, payload: Option<Bytes>, signature: Bytes)
    : Bytes
  {
    Sign1Open(tagged) + Bstr(protected) + Encode(unprotected)
    + PayloadField(payload) + Bstr(signature)
  }

  lemma {:induction false} Sign1ArrayAt(tagged: bool, rest: Bytes)
    ensures var pre := Sign1Open(tagged);
            ReadSign1Array(pre + rest) == Some(|pre|)
  {
    var pre := Sign1Open(tagged);
    var data := pre + rest;
    if tagged {
      assert data[0] == 0xd2 && data[1] == 0x84;
      assert 0xd2 / 32 == 6 && 0xd2 % 32 == 18;
    }
    assert 0x84 / 32 == 4 && 0x84 % 32 == 4;
  }

  function PayloadField(payload: Option<Bytes>): Bytes {
    if payload.Some? then Bstr(payload.value) else [0xf6]
  }

  lemma PayloadFieldAt(data: Bytes, pos: nat, payload: Option<Bytes>)
    requires payload.Some? ==> |payload.value| < TWO32
    requires At(data, pos, PayloadField(payload))
    ensures pos < |data| && (if data[pos] == 0xf6 then Some(([], pos + 1)) else ReadBstr(data, pos))
         == Some((if payload.Some? then payload.value else [], pos + |PayloadField(payload)|))
  {
    assert data[pos] == data[pos..pos + |PayloadField(payload)|][0];
    if payload.Some? {
      BstrAt(data, pos, payload.value);
      BstrFirstByte(payload.value);
    }
  }

  lemma {:induction false} ParseSign1Steps(data: Bytes, p0: nat, p1: nat, p2: nat, p3: nat, p4: nat, s: Sign1)
    requires ReadSign1Array(data) == Some(p0) && ReadBstr(data, p0) == Some((s.protected, p1))
    requires Skip(Cose, data, p1) == Some(p2) && p2 < |data| && data[p1..p2] == s.unprotected
    requires (if data[p2] == 0xf6 then Some(([], p2 + 1)) else ReadBstr(data, p2)) == Some((s.payload, p3))
    requires ReadBstr(data, p3) == Some((s.signature, p4))
    ensures ParseSign1(data) == Some(s)
  {
  }

  lemma {:induction false} ParseSign1At(data: Bytes, p0: nat, protected: Bytes, unprotected: Item,
                                        payload: Option<Bytes>, signature: Bytes)
    requires |protected| < TWO32 && |signature| < TWO32 && (payload.Some? ==> |payload.value| < TWO32)
    requires InLang(Cose, unprotected) && ReadSign1Array(data) == Some(p0)
    requires At(data, p0, Bstr(protected) + Encode(unprotected) + PayloadField(payload) + Bstr(signature))
    ensures ParseSign1(data)
         == Some(Sign1(protected, Encode(unprotected), if payload.Some? then payload.value else [], signature))
  {
    hide Bstr, Encode, PayloadField, ReadBstr, ReadSign1Array, Skip, InLang;
    var p1 := p0 + |Bstr(protected)|;
    var p2 := p1 + |Encode(unprotected)|;
    var p3 := p2 + |PayloadField(payload)|;
    PartsAt(data, p0, Bstr(protected), Encode(unprotected), PayloadField(payload), Bstr(signature));
    BstrAt(data, p0, protected);
    SkipEncoded(Cose, unprotected, data, p1);
    PayloadFieldAt(data, p2, payload);
    BstrAt(data, p3, signature);
    ParseSign1Steps(data, p0, p1, p2, p3, p3 + |Bstr(signature)|,
                    Sign1(protected, Encode(unprotected), if payload.Some? then payload.value else [], signature));
  }

  lemma Regroup(pre: Bytes, a: Bytes, b: Bytes, c: Bytes, d: Bytes, after: Bytes)
    ensures pre + a + b + c + d + after == pre + (a + b + c + d) + after == pre + ((a + b + c + d) + after)
  {
  }

  /** Parsing gives back exactly the byte spans that were printed, whatever
      follows the envelope. */
  lemma Sign1RoundTrip(tagged: bool, protected: Bytes, unprotected: Item, payload: Option<Bytes>, signature: Bytes,
                       after: Bytes)
    requires |protected| < TWO32 && |signature| < TWO32 && (payload.Some? ==> |payload.value| < TWO32)
    requires InLang(Cose, unprotected)
    ensures ParseSign1(PrintSign1(tagged, protected, unprotected, payload, signature) + after)
         == Some(Sign1(protected, Encode(unprotected), if payload.Some? then payload.value else [], signature))
  {
    var pre := Sign1Open(tagged);
    var body := Bstr(protected) + Encode(unprotected) + PayloadField(payload) + Bstr(signature);
    var data := PrintSign1(tagged, protected, unprotected, payload, signature) + after;
    Regroup(pre, Bstr(protected), Encode(unprotected), PayloadField(payload), Bstr(signature), after);
    Sign1ArrayAt(tagged, body + after);
    AtPrefix(pre, body, after);
    ParseSign1At(data, |pre|, protected, unprotected, payload, signature);
  }

  lemma BstrFirstByte(b: Bytes)
    ensures Bstr(b)[0] / 32 == 2 && Bstr(b)[0] != 0xf6
  {
  }

  // ---- the second parser of the same envelope, in fdo.rs ----

  /** `extract_cose_payload`: walks the envelope with the TO2 decoder. */
  function ExtractPayload(data: Bytes, stack: nat): Read<Bytes> {
    var p0 :- ExtractArray(data);
    var p1 :- Walk(data, p0, stack);
    var p2 :- Walk(data, p1, stack);
    var (payload, _) :- ReadString(data, p2, 2);
    Got(payload)
  }

  function ExtractArray(data: Bytes): Read<nat> {
    if data == [] then Bad
    else
      var start :- if data[0] / 32 != 6 then Got(0) else
                     var (tag, p) :- ReadLen(data, 0, 6);
                     if tag == 18 then Got(p) else Bad;
      var (n, p0) :- ReadLen(data, start, 4);
      if n == 4 then Got(p0) else Bad
  }

  lemma HeadCoseFdo(data: Bytes, pos: nat)
    requires ReadHead(Cose, data, pos).Some? && ReadHead(Cose, data, pos).value.0 != 7
    ensures ReadHead(Fdo, data, pos) == ReadHead(Cose, data, pos)
  {
  }

  /** The TO2 decoder, too, takes the whole header `h` as one item. */
  predicate Aligned(h: Bytes, stack: nat) { Walk(h, 0, stack) == Got(|h|) }

  /** The payload whose signature is checked is the payload that is acted on. A
      missing payload counts as an empty one for the first parser and is refused
      by the second. */
  predicate ReadAlike(data: Bytes, stack: nat)
    requires ParseSign1(data).Some?
  {
    var m := ParseSign1(data).value.payload;
    ExtractPayload(data, stack) == Got(m) || (m == [] && ExtractPayload(data, stack) == Bad)
  }

  lemma {:induction false} PayloadViewsAgree(data: Bytes, stack: nat)
    requires |data| < TWO63 && ParseSign1(data).Some? && Aligned(ParseSign1(data).value.unprotected, stack)
    ensures ReadAlike(data, stack)
  {
    hide Skip, Walk, ReadHead, ReadString, ReadSign1Array, ExtractArray;
    var p0 := ReadSign1Array(data).value;
    var p1 := ReadBstr(data, p0).value.1;
    var p2 := Skip(Cose, data, p1).value;
    ArrayViewsAgree(data);
    WalkInside(data[p1..p2], 0, stack);
    BstrWalk(data, p0, stack);
    WalkLocal(data[p1..p2], 0, stack, data, p1);
    PayloadReadsAgree(data, p2);
  }

  lemma ArrayViewsAgree(data: Bytes)
    requires ReadSign1Array(data).Some?
    ensures ExtractArray(data) == Got(ReadSign1Array(data).value)
  {
    if data[0] / 32 == 6 { HeadCoseFdo(data, 0); }
    var start := if data[0] / 32 != 6 then 0 else ReadHead(Cose, data, 0).value.2;
    HeadCoseFdo(data, start);
  }

  /** A byte string the COSE reader accepts is skipped, and read, by the decoder. */
  lemma BstrWalk(data: Bytes, pos: nat, stack: nat)
    requires ReadBstr(data, pos).Some? && stack > 0
    ensures Walk(data, pos, stack) == Got(ReadBstr(data, pos).value.1)
    ensures ReadString(data, pos, 2) == Got(ReadBstr(data, pos).value)
  {
    hide ReadHead;
    HeadCoseFdo(data, pos);
    HeadMajor(data, pos);
  }

  lemma PayloadReadsAgree(data: Bytes, pos: nat)
    requires pos < |data| && (data[pos] != 0xf6 ==> ReadBstr(data, pos).Some?)
    ensures data[pos] == 0xf6 ==> ReadString(data, pos, 2) == Bad
    ensures data[pos] != 0xf6 ==> ReadString(data, pos, 2) == Got(ReadBstr(data, pos).value)
  {
    assert 0xf6 / 32 == 7 && 0xf6 % 32 == 22;
    if data[pos] != 0xf6 { BstrWalk(data, pos, 1); }
  }

  /** Both parsers up to the unprotected header of a printed message. */
  lemma {:induction false} SecondView(tagged: bool, protected: Bytes, unprotected: Item, payload: Bytes,
                                      signature: Bytes, after: Bytes, stack: nat) returns (p1: nat)
    requires |protected| < TWO32 && stack > 0
    ensures var data := PrintSign1(tagged, protected, unprotected, Some(payload), signature) + after;
            && At(data, p1, Encode(unprotected)) && At(data, p1 + |Encode(unprotected)|, Bstr(payload))
            && At(data, p1 + |Encode(unprotected)| + |Bstr(payload)|, Bstr(signature))
            && ExtractArray(data).Got? && Walk(data, ExtractArray(data).value, stack) == Got(p1)
            && p1 == |Sign1Open(tagged)| + |Bstr(protected)|
  {
    hide Bstr, Encode, ReadBstr, ReadHead, ReadString, Walk, ReadSign1Array, ExtractArray, Sign1Open;
    var pre, data := Sign1Open(tagged), PrintSign1(tagged, protected, unprotected, Some(payload), signature) + after;
    var body := Bstr(protected) + Encode(unprotected) + Bstr(payload) + Bstr(signature);
    Regroup(pre, Bstr(protected), Encode(unprotected), Bstr(payload), Bstr(signature), after);
    Sign1ArrayAt(tagged, body + after);
    ArrayViewsAgree(data);
    AtPrefix(pre, body, after);
    PartsAt(data, |pre|, Bstr(protected), Encode(unprotected), Bstr(payload), Bstr(signature));
    BstrAt(data, |pre|, protected);
    BstrWalk(data, |pre|, stack);
    p1 := |pre| + |Bstr(protected)|;
  }

  /** The second parser, too, gives back the payload that was printed. */
  lemma {:induction false} ExtractRoundTrip(tagged: bool, protected: Bytes, unprotected: Item, payload: Bytes,
                                            signature: Bytes, after: Bytes, stack: nat)
    requires |protected| < TWO32 && |payload| < TWO32 && Aligned(Encode(unprotected), stack)
    requires |PrintSign1(tagged, protected, unprotected, Some(payload), signature) + after| < TWO63
    ensures ExtractPayload(PrintSign1(tagged, protected, unprotected, Some(payload), signature) + after, stack)
      == Got(payload)
  {
    hide Bstr, Encode, PrintSign1, ReadHead, ReadString, Walk, ExtractArray;
    var data := PrintSign1(tagged, protected, unprotected, Some(payload), signature) + after;
    WalkInside(Encode(unprotected), 0, stack);
    var p1 := SecondView(tagged, protected, unprotected, payload, signature, after, stack);
    WalkLocal(Encode(unprotected), 0, stack, data, p1);
    BstrAt(data, p1 + |Encode(unprotected)|, payload);
    BstrWalk(data, p1 + |Encode(unprotected)|, stack);
  }

  // ---- headers that the two parsers read differently ----

  /** A one-pair map: a two-byte simple value as the key, `q` as the value. The
      second parser takes the two bytes of the key for the whole pair. */
  function SplitHeader(q: Bytes): Item
    requires |q| < TWO32
  {
    Node(Head(5, 1, []), [Atom(Head(7, 24, [0x20]), []), Atom(HeadFor(2, |q|), q)])
  }

  lemma SplitHeaderBytes(q: Bytes)
    requires |q| < TWO32
    ensures InLang(Cose, SplitHeader(q)) && Encode(SplitHeader(q)) == [0xa1, 0xf8, 0x20] + Bstr(q)
  {
    HeadForArg(2, |q|);
    EncodeHeadShort(2, |q|);
    var kids := SplitHeader(q).kids;
    assert InLang(Cose, kids[0]) && InLang(Cose, kids[1]);
    assert EncodeAll(kids[1..][1..]) == [];
    assert kids[1..][0] == kids[1];
    assert EncodeAll(kids[1..]) == Bstr(q) + [] == Bstr(q);
    assert Encode(kids[0]) == [0xf8, 0x20];
  }

  lemma SplitHeaderWalk(data: Bytes, pos: nat, q: Bytes, stack: nat)
    requires At(data, pos, [0xa1, 0xf8, 0x20] + Bstr(q)) && stack > 1
    ensures Walk(data, pos, stack) == Got(pos + 3) && At(data, pos + 3, Bstr(q))
  {
    hide Bstr;
    AtConcat(data, pos, [0xa1, 0xf8, 0x20], Bstr(q));
    var w := data[pos..pos + 3];
    assert data[pos] == w[0] == 0xa1 && data[pos + 1] == w[1] == 0xf8 && data[pos + 2] == w[2] == 0x20;
    assert ReadHead(Fdo, data, pos) == Some((5, 1, pos + 1)) && ReadHead(Fdo, data, pos + 2) == Some((1, 0, pos + 3));
    assert Walk(data, pos + 1, stack - 1) == Got(pos + 2) && Walk(data, pos + 2, stack - 1) == Got(pos + 3);
    assert WalkN(data, pos + 2, 1, stack - 1) == WalkN(data, pos + 3, 0, stack - 1) == Got(pos + 3);
    assert WalkN(data, pos + 1, 2, stack - 1) == Got(pos + 3);
  }

  lemma SplitNotAligned(q: Bytes, stack: nat)
    requires |q| < TWO32 && stack > 1
    ensures !Aligned(Encode(SplitHeader(q)), stack)
  {
    hide Walk, Encode, SplitHeader, InLang;
    var h := Encode(SplitHeader(q));
    assert h[0..|h|] == h;
    SplitHeaderBytes(q);
    SplitHeaderWalk(h, 0, q, stack);
  }

  /** Without a condition on the header the two views are independent: whatever
      was signed, and whatever bytes `q`, there is a header under which the first
      parser returns the signed parts and the second returns `q`. */
  lemma {:induction false} AnyOtherPayload(tagged: bool, protected: Bytes, payload: Bytes, signature: Bytes,
                                           q: Bytes, stack: nat)
    requires |protected| < TWO32 && |payload| < TWO32 && |signature| < TWO32 && |q| < TWO32 && stack > 1
    ensures var h := SplitHeader(q);
            var data := PrintSign1(tagged, protected, h, Some(payload), signature);
            && ParseSign1(data) == Some(Sign1(protected, Encode(h), payload, signature))
            && ExtractPayload(data, stack) == Got(q)
  {
    hide Bstr, Encode, InLang, SplitHeader, PrintSign1, ReadString, Walk, ExtractArray, ParseSign1;
    var h := SplitHeader(q);
    var data := PrintSign1(tagged, protected, h, Some(payload), signature);
    assert data + [] == data;
    SplitHeaderBytes(q);
    Sign1RoundTrip(tagged, protected, h, Some(payload), signature, []);
    var p1 := SecondView(tagged, protected, h, payload, signature, [], stack);
    SplitHeaderWalk(data, p1, q, stack);
    BstrAt(data, p1 + 3, q);
    BstrWalk(data, p1 + 3, stack);
  }

  /** And the second parser need not come back at all: an eleven-byte message on
      which it exhausts any stack. */
  lemma RoundReply(stack: nat)
    ensures ExtractPayload([0x84] + ROUND, stack) == Crash
  {
    hide Walk;
    var data := [0x84] + ROUND;
    assert 0x84 / 32 == 4 && 0x84 % 32 == 4;
    assert data[1..] == ROUND && data[1..11] == ROUND;
    RoundNeverEnds(data, 1, stack);
  }

  // ---- exactly which headers are safe ----

  lemma {:induction false} BeNatAtLeast(s: Bytes, i: nat)
    requires i < |s|
    ensures s[i] <= BeNat(s)
  {
    if i < |s| - 1 { BeNatAtLeast(s[..|s| - 1], i); }
  }

  /** A message around header `h` whose payload is one or two 0xff bytes. */
  function Probe(h: Item, two: bool): Bytes {
    PrintSign1(false, [], h, Some(if two then [0xff, 0xff] else [0xff]), [])
  }

  lemma ProbeBytes(h: Item, two: bool)
    ensures Probe(h, two) == [0x84, 0x40] + Encode(h) + (if two then [0x42, 0xff, 0xff, 0x40] else [0x41, 0xff, 0x40])
  {
    hide Encode;
    assert Bstr([]) == [0x40] && Bstr([0xff]) == [0x41, 0xff] && Bstr([0xff, 0xff]) == [0x42, 0xff, 0xff];
  }

  lemma ProbeViews(h: Item, two: bool, stack: nat)
    requires InLang(Cose, h) && stack > 0
    ensures var data := Probe(h, two);
            && ParseSign1(data) == Some(Sign1([], Encode(h), if two then [0xff, 0xff] else [0xff], []))
            && At(data, 2, Encode(h)) && ExtractArray(data).Got?
            && Walk(data, ExtractArray(data).value, stack) == Got(2)
  {
    hide Encode, InLang, ParseSign1, Walk, ExtractArray;
    var data := Probe(h, two);
    var m := if two then [0xff, 0xff] else [0xff];
    assert data + [] == data;
    Sign1RoundTrip(false, [], h, Some(m), [], []);
    var p1 := SecondView(false, [], h, m, [], [], stack);
    assert |Bstr([])| == 1;
  }

  /** The bytes around the header cannot make the walk wrap. */
  lemma ProbeWrapFree(h: Item, two: bool)
    requires |Encode(h)| + 8 < TWO56 && forall i: nat :: !HugeAt(Encode(h), i)
    ensures WrapFree(Probe(h, two), 2)
  {
    hide Encode, Probe, WrapFree;
    ProbeBytes(h, two);
    var data, end := Probe(h, two), 2 + |Encode(h)|;
    forall i: nat | 2 <= i ensures !HugeAt(data, i) {
      if i + 1 < end {
        assert data[i] == Encode(h)[i - 2] && data[i + 1] == Encode(h)[i - 1];
        assert !HugeAt(Encode(h), i - 2);
      }
    }
    NoHugeWrapFree(data, 2);
  }

  /** Past the header, the second parser finds no string but the empty signature. */
  lemma ProbeBeyond(h: Item, two: bool, e: nat)
    requires e > 2 + |Encode(h)|
    ensures var r := ReadString(Probe(h, two), e, 2);
            r.Got? ==> |r.value.0| == 0
  {
    hide Encode, PrintSign1;
    ProbeBytes(h, two);
    var data, end := Probe(h, two), 2 + |Encode(h)|;
    assert end < e < |data| ==> data[e] == 0xff || data[e] == 0x40;
  }

  /** A wrap-free walk that ends with the header takes the header as one item. */
  lemma WalkedIsAligned(data: Bytes, pos: nat, h: Bytes, stack: nat)
    requires At(data, pos, h) && WrapFree(data, pos) && |data| < TWO63
    requires Walk(data, pos, stack) == Got(pos + |h|)
    ensures Aligned(h, stack)
  {
    hide Walk, WrapFree, InLang, Encode, Height;
    WalkExact(data, pos, stack, pos + |h|);
    assert h[0..|h|] == h;
    WalkExact(h, 0, stack, |h|);
  }

  /** Read alike, the payload can only have been found inside the header. */
  lemma ProbeAlike(h: Item, two: bool, stack: nat) returns (e: nat)
    requires InLang(Cose, h) && !Aligned(Encode(h), stack) && WrapFree(Probe(h, two), 2) && |Encode(h)| + 8 < TWO56
    requires ParseSign1(Probe(h, two)).Some? && ReadAlike(Probe(h, two), stack) && stack > 0
    ensures e < 2 + |Encode(h)| && Skip(Fdo, Probe(h, two), 2) == Some(e)
    ensures ReadString(Probe(h, two), e, 2).Got? && |ReadString(Probe(h, two), e, 2).value.0| == if two then 2 else 1
  {
    hide Encode, InLang, ParseSign1, Skip, Walk, WrapFree, ReadString, ExtractArray, Aligned, Probe;
    var data := Probe(h, two);
    ProbeViews(h, two, stack);
    e := Walk(data, 2, stack).value;
    WalkAgrees(data, 2, stack);
    assert |data| < TWO63 by { ProbeBytes(h, two); }
    if e == 2 + |Encode(h)| { WalkedIsAligned(data, 2, Encode(h), stack); }
    if e > 2 + |Encode(h)| { ProbeBeyond(h, two, e); }
  }

  /** One message around a misaligned header is read in two ways. */
  lemma MisalignedDiffers(h: Item, stack: nat) returns (two: bool)
    requires InLang(Cose, h) && !Aligned(Encode(h), stack)
    requires |Encode(h)| + 8 < TWO56 && forall i: nat :: !HugeAt(Encode(h), i)
    ensures |Probe(h, two)| < TWO63
    ensures ParseSign1(Probe(h, two)).Some? && ParseSign1(Probe(h, two)).value.unprotected == Encode(h)
    ensures !ReadAlike(Probe(h, two), stack)
  {
    hide Encode, InLang, ParseSign1, Skip, ReadString, ReadAlike, Aligned, HugeAt, WrapFree, Probe;
    ProbeBytes(h, false);
    ProbeBytes(h, true);
    ProbeViews(h, false, 1);
    ProbeViews(h, true, 1);
    if stack == 0 { NoStack(h, false); return false; }
    ProbeWrapFree(h, false);
    ProbeWrapFree(h, true);
    two := ReadAlike(Probe(h, false), stack);
    if two && ReadAlike(Probe(h, true), stack) {
      var e := ProbeAlike(h, false, stack);
      var e' := ProbeAlike(h, true, stack);
      SkipInside(h, e, e');
      HeadInside(h, e);
      assert false;
    }
  }

  lemma NoStack(h: Item, two: bool)
    requires ParseSign1(Probe(h, two)).Some? && ParseSign1(Probe(h, two)).value.payload != []
    ensures !ReadAlike(Probe(h, two), 0)
  {
    hide ParseSign1, ExtractArray, Probe;
  }

  /** What the walker does inside the header does not depend on the payload. */
  lemma SkipInside(h: Item, e: nat, e': nat)
    requires e <= 2 + |Encode(h)|
    requires Skip(Fdo, Probe(h, false), 2) == Some(e) && Skip(Fdo, Probe(h, true), 2) == Some(e')
    ensures e == e'
  {
    hide Encode, InLang, Skip, Probe;
    ProbeBytes(h, false);
    ProbeBytes(h, true);
    var a, b := Probe(h, false), Probe(h, true);
    assert a[2..e] == Encode(h)[..e - 2] == b[2..e];
    SkipExact(Fdo, a, 2, e);
    SkipExact(Fdo, b, 2, e);
  }

  /** A string head that starts inside the header either ends there, and is the
      same in both messages, or swallows the payload's head and is far too long. */
  lemma HeadInside(h: Item, e: nat)
    requires 2 <= e < 2 + |Encode(h)| && |Probe(h, false)| < TWO63 && |Probe(h, true)| < TWO63
    requires ReadString(Probe(h, false), e, 2).Got? && |ReadString(Probe(h, false), e, 2).value.0| == 1
    ensures !(ReadString(Probe(h, true), e, 2).Got? && |ReadString(Probe(h, true), e, 2).value.0| == 2)
  {
    hide Encode, Probe, ReadHead;
    var a, b := Probe(h, false), Probe(h, true);
    ArgBound(a, e);
    SameHead(h, e);
  }

  /** A head whose tail reaches past a byte has at least that byte's value. */
  lemma TailAtLeast(data: Bytes, e: nat, i: nat)
    requires ReadHead(Fdo, data, e).Some? && e < i < ReadHead(Fdo, data, e).value.2
    ensures data[i] <= ReadHead(Fdo, data, e).value.1
  {
    var p := ReadHead(Fdo, data, e).value.2;
    var t := data[e + 1..p];
    BeNatAtLeast(t, i - e - 1);
    assert t[i - e - 1] == data[i];
  }

  lemma SameHead(h: Item, e: nat)
    requires 2 <= e < 2 + |Encode(h)|
    requires ReadHead(Fdo, Probe(h, false), e).Some? && ReadHead(Fdo, Probe(h, false), e).value.0 == 2
    requires ReadHead(Fdo, Probe(h, false), e).value.1 == 1
    ensures ReadHead(Fdo, Probe(h, true), e) == ReadHead(Fdo, Probe(h, false), e)
  {
    hide Encode, Probe;
    ProbeBytes(h, false);
    ProbeBytes(h, true);
    var a, b := Probe(h, false), Probe(h, true);
    var end := 2 + |Encode(h)|;
    var p := ReadHead(Fdo, a, e).value.2;
    assert a[end] == 0x41;
    if p > end { TailAtLeast(a, e, end); }
    assert a[e] == b[e] && a[e + 1..p] == b[e + 1..p];
  }

  /** All messages that carry an aligned header are read alike; and a header whose
      bytes cannot start a string of nearly 2^64 bytes is aligned if all messages
      that carry it are. */
  lemma ReadAlikeExactly(h: Bytes, stack: nat)
    requires Skip(Cose, h, 0) == Some(|h|) && |h| + 8 < TWO56 && forall i: nat :: !HugeAt(h, i)
    ensures (forall data | |data| < TWO63 && ParseSign1(data).Some? && ParseSign1(data).value.unprotected == h
                     :: ReadAlike(data, stack))
       <==> Aligned(h, stack)
  {
    hide ParseSign1, ReadAlike, Skip, Aligned, InLang, Encode, Probe, HugeAt;
    if Aligned(h, stack) {
      forall data | |data| < TWO63 && ParseSign1(data).Some? && ParseSign1(data).value.unprotected == h
        ensures ReadAlike(data, stack)
      {
        PayloadViewsAgree(data, stack);
      }
    } else {
      var it := SkipSound(Cose, h, 0);
      assert h == Encode(it);
      var two := MisalignedDiffers(it, stack);
      assert ParseSign1(Probe(it, two)).value.unprotected == h;
    }
  }

  /** No two-byte simple value (major type 7, info 24) anywhere in the item. */
  ghost predicate NoShortSimple(it: Item)
    decreases it
  {
    && (it.head.major == 7 ==> it.head.info != 24)
    && (it.Node? ==> forall i :: 0 <= i < |it.kids| ==> NoShortSimple(it.kids[i]))
  }

  lemma {:induction false} CoseItemInFdo(it: Item)
    requires InLang(Cose, it) && NoShortSimple(it)
    ensures InLang(Fdo, it)
    decreases it
  {
    if it.Node? {
      forall i | 0 <= i < |it.kids| ensures InLang(Fdo, it.kids[i]) { CoseItemInFdo(it.kids[i]); }
    }
  }

  /** Every header without such a value, and without more nesting than the stack has
      room for, is aligned, so ordinary ones are. */
  lemma OrdinaryIsAligned(it: Item, stack: nat)
    requires InLang(Cose, it) && NoShortSimple(it) && Height(it) < stack
    ensures Aligned(Encode(it), stack)
  {
    hide Walk, InLang, Encode, NoShortSimple, Height;
    CoseItemInFdo(it);
    assert Encode(it)[0..|Encode(it)|] == Encode(it);
    WalkItem(it, Encode(it), 0, stack);
  }
}
