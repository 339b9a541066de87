/**
 Delegate certificate chains (delegate.rs), leaf first. A certificate is the
 record the X.509 parser yields; the parser and ES256 are parameters.
 */
module Delegate {
  import opened Base

  datatype Perms = Perms(redirect: bool, provision: bool, onboard: bool, reuseCred: bool) {
    predicate Within(other: Perms) {
      && (redirect ==> other.redirect) && (provision ==> other.provision)
      && (onboard ==> other.onboard) && (reuseCred ==> other.reuseCred)
    }
  }

  datatype Cert = Cert(tbs: Bytes, key: Bytes, signature: Bytes, perms: Perms, isCa: bool, pathLen: Option<nat>)

  /** The pieces of the platform a chain check calls: ES256 over (message,
      signature, key point), and the X.509 parser. */
  datatype Pki = Pki(es256: (Bytes, Bytes, Bytes) -> bool, parse: Bytes -> Option<Cert>)

  datatype ChainResult = ChainResult(leafKey: Bytes, perms: Perms)

  const MAX_CHAIN: nat := 8

  // ---- what an accepted chain is ----

  predicate SignedBy(pki: Pki, c: Cert, key: Bytes) { pki.es256(c.tbs, c.signature, key) }

  /** Certificate `i` is properly issued by certificate `i + 1`. */
  predicate Link(pki: Pki, certs: seq<Cert>, i: nat)
    requires i + 1 < |certs|
  {
    var issuer := certs[i + 1];
    && issuer.isCa
    && (issuer.pathLen.Some? ==> i <= issuer.pathLen.value)
    && SignedBy(pki, certs[i], issuer.key)
  }

  ghost predicate Linked(pki: Pki, certs: seq<Cert>) {
    forall i :: 0 <= i < |certs| - 1 ==> Link(pki, certs, i)
  }

  ghost predicate Parses(pki: Pki, ders: seq<Bytes>) {
    forall i :: 0 <= i < |ders| ==> pki.parse(ders[i]).Some?
  }

  ghost function Certs(pki: Pki, ders: seq<Bytes>): (cs: seq<Cert>)
    requires Parses(pki, ders)
  {
    seq(|ders|, i requires 0 <= i < |ders| => pki.parse(ders[i]).value)
  }

  /** The permissions every certificate carries. */
  ghost function Common(certs: seq<Cert>): Perms {
    Perms(forall i :: 0 <= i < |certs| ==> certs[i].perms.redirect,
          forall i :: 0 <= i < |certs| ==> certs[i].perms.provision,
          forall i :: 0 <= i < |certs| ==> certs[i].perms.onboard,
          forall i :: 0 <= i < |certs| ==> certs[i].perms.reuseCred)
  }

  ghost predicate X5Ok(pki: Pki, ders: seq<Bytes>) {
    0 < |ders| <= MAX_CHAIN && Parses(pki, ders) && Linked(pki, Certs(pki, ders))
  }

  ghost predicate ChainOk(pki: Pki, ders: seq<Bytes>, owner: Bytes) {
    X5Ok(pki, ders) && SignedBy(pki, Certs(pki, ders)[|ders| - 1], owner)
  }

  ghost function ChainOutcome(pki: Pki, ders: seq<Bytes>, owner: Bytes): Option<ChainResult> {
    if ChainOk(pki, ders, owner)
    then Some(ChainResult(Certs(pki, ders)[0].key, Common(Certs(pki, ders))))
    else None
  }

  // ---- the two walkers ----

  method ParseAll(pki: Pki, ders: seq<Bytes>) returns (r: Option<seq<Cert>>)
    ensures r.Some? <==> Parses(pki, ders)
    ensures r.Some? ==> r.value == Certs(pki, ders)
  {
    var parsed: seq<Cert> := [];
    var i := 0;
    while i < |ders|
      invariant i <= |ders| && |parsed| == i
      invariant forall k :: 0 <= k < i ==> pki.parse(ders[k]) == Some(parsed[k])
    {
      var c := pki.parse(ders[i]);
      if c.None? { return None; }
      parsed := parsed + [c.value];
      i := i + 1;
    }
    return Some(parsed);
  }

  lemma CommonStep(certs: seq<Cert>, i: nat)
    requires i < |certs|
    ensures var a, b, q := Common(certs[..i]), Common(certs[..i + 1]), certs[i].perms;
            b == Perms(a.redirect && q.redirect, a.provision && q.provision,
                       a.onboard && q.onboard, a.reuseCred && q.reuseCred)
  {
    var s := certs[..i + 1];
    assert s[i] == certs[i];
    assert forall k :: 0 <= k < i ==> certs[..i][k] == s[k];
  }

  /** Walks down from the root, then intersects the permissions. */
  method VerifyDelegateChain(pki: Pki, ders: seq<Bytes>, owner: Bytes) returns (r: Option<ChainResult>)
    ensures r == ChainOutcome(pki, ders, owner)
  {
    if |ders| == 0 || |ders| > MAX_CHAIN { return None; }
    var parsed := ParseAll(pki, ders);
    if parsed.None? { return None; }
    var certs := parsed.value;
    var root := |certs| - 1;
    if !SignedBy(pki, certs[root], owner) { return None; }
    var i := root;
    while i > 0
      invariant 0 <= i <= root
      invariant forall k :: i <= k < root ==> Link(pki, certs, k)
    {
      i := i - 1;
      var issuer := certs[i + 1];
      ghost var linked := Link(pki, certs, i);
      if !issuer.isCa { return None; }
      if issuer.pathLen.Some? && i > issuer.pathLen.value { return None; }
      if !SignedBy(pki, certs[i], issuer.key) { return None; }
    }
    var p := Perms(true, true, true, true);
    i := 0;
    while i < |certs|
      invariant i <= |certs| && p == Common(certs[..i])
    {
      var q := certs[i].perms;
      CommonStep(certs, i);
      p := Perms(p.redirect && q.redirect, p.provision && q.provision,
                 p.onboard && q.onboard, p.reuseCred && q.reuseCred);
      i := i + 1;
    }
    assert certs[..|certs|] == certs;
    return Some(ChainResult(certs[0].key, p));
  }

  /** Walks up from the leaf; the top certificate is left to its own anchor. */
  method VerifyX5ChainInternal(pki: Pki, ders: seq<Bytes>) returns (r: Option<Bytes>)
    ensures r.Some? <==> X5Ok(pki, ders)
    ensures r.Some? ==> r.value == Certs(pki, ders)[0].key
  {
    if |ders| == 0 || |ders| > MAX_CHAIN { return None; }
    var parsed := ParseAll(pki, ders);
    if parsed.None? { return None; }
    var certs := parsed.value;
    var i := 0;
    while i < |certs| - 1
      invariant i <= |certs| - 1
      invariant forall k :: 0 <= k < i ==> Link(pki, certs, k)
    {
      var issuer := certs[i + 1];
      ghost var linked := Link(pki, certs, i);
      if !issuer.isCa { return None; }
      if issuer.pathLen.Some? && i > issuer.pathLen.value { return None; }
      if !SignedBy(pki, certs[i], issuer.key) { return None; }
      i := i + 1;
    }
    return Some(certs[0].key);
  }

  /** Both walkers over one chain: the root-down walk accepts exactly when the
      leaf-up walk does and the owner signed the root; then both name one key. */
  method WalkersAgree(pki: Pki, ders: seq<Bytes>, owner: Bytes) returns (down: Option<ChainResult>, up: Option<Bytes>)
    ensures up.Some? <==> X5Ok(pki, ders)
    ensures down.Some? <==> up.Some? && SignedBy(pki, Certs(pki, ders)[|ders| - 1], owner)
    ensures down.Some? ==> Some(down.value.leafKey) == up
  {
    down := VerifyDelegateChain(pki, ders, owner);
    up := VerifyX5ChainInternal(pki, ders);
  }

  // ---- what acceptance means ----

  /** Certificate `i` is signed by the one after it, and the last by the owner. */
  ghost predicate Issued(pki: Pki, ders: seq<Bytes>, owner: Bytes, i: nat)
    requires i < |ders| && Parses(pki, ders)
  {
    var c := pki.parse(ders[i]).value;
    pki.es256(c.tbs, c.signature, if i + 1 < |ders| then pki.parse(ders[i + 1]).value.key else owner)
  }

  /** Certificate `i` may issue: it is a CA and has no more intermediates below it than
      its pathLenConstraint allows. */
  ghost predicate MayIssue(pki: Pki, ders: seq<Bytes>, i: nat)
    requires i < |ders| && Parses(pki, ders)
  {
    var issuer := pki.parse(ders[i]).value;
    issuer.isCa && (issuer.pathLen.Some? ==> |Intermediates(i)| <= issuer.pathLen.value)
  }

  /** Section 4.2.1.9 of RFC 5280, in full: one to eight certificates, leaf first, each
      properly issued. */
  lemma ChainMeans(pki: Pki, ders: seq<Bytes>, owner: Bytes)
    ensures ChainOk(pki, ders, owner) <==>
            && 1 <= |ders| <= 8 && Parses(pki, ders)
            && (forall i :: 0 <= i < |ders| ==> Issued(pki, ders, owner, i))
            && (forall i :: 0 < i < |ders| ==> MayIssue(pki, ders, i))
  {
    if 1 <= |ders| <= 8 && Parses(pki, ders) {
      var certs := Certs(pki, ders);
      assert forall i :: 0 <= i < |ders| ==> certs[i] == pki.parse(ders[i]).value;
      forall i | 0 <= i < |ders| - 1
        ensures Link(pki, certs, i) <==> Issued(pki, ders, owner, i) && MayIssue(pki, ders, i + 1)
      {
        IntermediatesCount(i + 1);
      }
      if ChainOk(pki, ders, owner) {
        forall i | 0 <= i < |ders| ensures Issued(pki, ders, owner, i) {
          if i + 1 < |ders| { assert Link(pki, certs, i); }
        }
        forall i | 0 < i < |ders| ensures MayIssue(pki, ders, i) { assert Link(pki, certs, i - 1); }
      }
      if (forall i :: 0 <= i < |ders| ==> Issued(pki, ders, owner, i))
         && forall i :: 0 < i < |ders| ==> MayIssue(pki, ders, i) {
        forall i | 0 <= i < |ders| - 1 ensures Link(pki, certs, i) {
          assert Issued(pki, ders, owner, i) && MayIssue(pki, ders, i + 1);
        }
        assert Issued(pki, ders, owner, |ders| - 1);
      }
    }
  }

  // ---- attenuation ----

  /** Cutting certificates off the leaf end never invalidates a chain and never
      takes a permission away: what a delegate holds, its issuers hold too. */
  lemma Attenuation(pki: Pki, ders: seq<Bytes>, owner: Bytes, k: nat)
    requires ChainOk(pki, ders, owner) && k < |ders|
    ensures ChainOk(pki, ders[k..], owner)
    ensures ChainOutcome(pki, ders[k..], owner).value.leafKey == Certs(pki, ders)[k].key
    ensures ChainOutcome(pki, ders, owner).value.perms.Within(ChainOutcome(pki, ders[k..], owner).value.perms)
  {
    var certs, rest := Certs(pki, ders), Certs(pki, ders[k..]);
    assert rest == certs[k..];
    forall i | 0 <= i < |rest| - 1 ensures Link(pki, rest, i) {
      assert Link(pki, certs, i + k);
    }
  }

  /** A permission is reported exactly when every certificate carries it. */
  lemma PermissionExactly(pki: Pki, ders: seq<Bytes>, owner: Bytes)
    requires ChainOk(pki, ders, owner)
    ensures var p := ChainOutcome(pki, ders, owner).value.perms;
            && (p.provision <==> forall i :: 0 <= i < |ders| ==> pki.parse(ders[i]).value.perms.provision)
            && (p.onboard <==> forall i :: 0 <= i < |ders| ==> pki.parse(ders[i]).value.perms.onboard)
            && (p.redirect <==> forall i :: 0 <= i < |ders| ==> pki.parse(ders[i]).value.perms.redirect)
            && (p.reuseCred <==> forall i :: 0 <= i < |ders| ==> pki.parse(ders[i]).value.perms.reuseCred)
  {
    var certs := Certs(pki, ders);
    assert forall i :: 0 <= i < |ders| ==> certs[i] == pki.parse(ders[i]).value;
  }

  /** The certificates strictly between an issuer and the end entity. */
  ghost predicate Between(j: nat, k: nat) { 0 < j < k }

  ghost function Intermediates(k: nat): set<nat> { set j: nat | j < k && Between(j, k) }

  lemma {:induction false} IntermediatesCount(k: nat)
    ensures |Intermediates(k)| == if k == 0 then 0 else k - 1
  {
    if k > 1 {
      IntermediatesCount(k - 1);
      assert Intermediates(k) == Intermediates(k - 1) + {k - 1};
    } else {
      assert Intermediates(k) == {};
    }
  }

  /** Section 4.2.1.9 of RFC 5280: every issuer is a CA and has no more
      intermediates below it than its pathLenConstraint allows. */
  lemma PathLength(pki: Pki, ders: seq<Bytes>, owner: Bytes, k: nat)
    requires ChainOk(pki, ders, owner) && 0 < k < |ders|
    ensures var issuer := pki.parse(ders[k]).value;
            issuer.isCa && (issuer.pathLen.Some? ==> |Intermediates(k)| <= issuer.pathLen.value)
  {
    assert Link(pki, Certs(pki, ders), k - 1);
    IntermediatesCount(k);
  }
}
