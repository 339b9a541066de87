/**
 Signed provisioning artifacts and meta-payloads (cose.rs): which key must have
 signed one, and when its payload is released.
 */
module Artifacts {
  import opened Base
  import opened CoseSign1
  import opened Delegate
  import opened Platforms

  const AAD_BMO: Bytes := DomainAad(Ascii("FDO-FSIM-BmoProvision-v1"), VERSION_200)
  const AAD_META: Bytes := DomainAad(Ascii("FDO-FSIM-MetaPayload-v1"), VERSION_200)

  /** The owner key, or the leaf of an owner-rooted chain that grants provisioning
      in every certificate. */
  ghost function SignerPoint(pf: Platform, unprotected: Bytes, owner: Bytes): Option<Bytes> {
    if !pf.delegated(unprotected) then Some(owner)
    else
      var ders :- pf.x5chain(unprotected);
      var chain :- ChainOutcome(pf.PkiOf(), ders, owner);
      if chain.perms.provision then Some(chain.leafKey) else None
  }

  method ArtifactSignerPoint(pf: Platform, unprotected: Bytes, owner: Bytes) returns (r: Option<Bytes>)
    ensures r == SignerPoint(pf, unprotected, owner)
  {
    hide ChainOutcome;
    if !pf.delegated(unprotected) { return Some(owner); }
    var ders := pf.x5chain(unprotected);
    if ders.None? { return None; }
    var chain := VerifyDelegateChain(pf.PkiOf(), ders.value, owner);
    if chain.None? || !chain.value.perms.provision { return None; }
    return Some(chain.value.leafKey);
  }

  /** The payload of an envelope whose signature, under `aad`, is by the owner or
      a provisioning delegate. */
  ghost function SignedPayload(pf: Platform, data: Bytes, owner: Bytes, aad: Bytes): Option<Bytes> {
    var s :- ParseSign1(data);
    var key :- SignerPoint(pf, s.unprotected, owner);
    if pf.es256(SigStructure(s.protected, aad, s.payload), s.signature, key) then Some(s.payload) else None
  }

  /** Content type first, then signer and signature, and scope only at the end. */
  ghost function BmoPayload(pf: Platform, data: Bytes, owner: Bytes, contentType: Bytes, guid: Option<Bytes>)
    : Option<Bytes>
  {
    var s :- ParseSign1(data);
    if pf.contentType(s.protected) != Some(contentType) then None
    else
      var payload :- SignedPayload(pf, data, owner, AAD_BMO);
      if pf.scopeOk(s.protected, guid) then Some(payload) else None
  }

  method VerifyBmoSigned(pf: Platform, data: Bytes, owner: Bytes, contentType: Bytes, guid: Option<Bytes>)
    returns (r: Option<Bytes>)
    ensures r == BmoPayload(pf, data, owner, contentType, guid)
  {
    hide ParseSign1, SignerPoint, SigStructure, AAD_BMO;
    var s := ParseSign1(data);
    if s.None? || pf.contentType(s.value.protected) != Some(contentType) { return None; }
    var key := ArtifactSignerPoint(pf, s.value.unprotected, owner);
    if key.None? { return None; }
    var signed := SigStructure(s.value.protected, AAD_BMO, s.value.payload);
    if !pf.es256(signed, s.value.signature, key.value) { return None; }
    if !pf.scopeOk(s.value.protected, guid) { return None; }
    return Some(s.value.payload);
  }

  method VerifyMetaSigned(pf: Platform, data: Bytes, owner: Bytes) returns (r: Option<Bytes>)
    ensures r == SignedPayload(pf, data, owner, AAD_META)
  {
    hide ParseSign1, SignerPoint, SigStructure, AAD_META;
    var s := ParseSign1(data);
    if s.None? { return None; }
    var key := ArtifactSignerPoint(pf, s.value.unprotected, owner);
    if key.None? { return None; }
    return if pf.es256(SigStructure(s.value.protected, AAD_META, s.value.payload), s.value.signature, key.value)
           then Some(s.value.payload) else None;
  }

  // ---- what a released payload proves ----

  /** `key` may sign for the owner: the owner's own key where the header names no
      delegate, and otherwise the leaf of the owner-rooted chain in the header, if
      every certificate of it permits provisioning. */
  ghost predicate MaySign(pf: Platform, unprotected: Bytes, owner: Bytes, key: Bytes) {
    if !pf.delegated(unprotected) then key == owner
    else
      && pf.x5chain(unprotected).Some?
      && var ders := pf.x5chain(unprotected).value;
      && ChainOk(pf.PkiOf(), ders, owner) && key == Certs(pf.PkiOf(), ders)[0].key
      && forall i :: 0 <= i < |ders| ==> pf.cert(ders[i]).value.perms.provision
  }

  lemma SignerExactly(pf: Platform, unprotected: Bytes, owner: Bytes, key: Bytes)
    ensures SignerPoint(pf, unprotected, owner) == Some(key) <==> MaySign(pf, unprotected, owner, key)
  {
    if pf.delegated(unprotected) && pf.x5chain(unprotected).Some? {
      var ders := pf.x5chain(unprotected).value;
      if ChainOk(pf.PkiOf(), ders, owner) { PermissionExactly(pf.PkiOf(), ders, owner); }
    }
  }

  /** The signature over header, `aad` and payload is by a key that may sign. */
  ghost predicate OwnerSigned(pf: Platform, s: Sign1, owner: Bytes, aad: Bytes) {
    exists key :: MaySign(pf, s.unprotected, owner, key)
                  && pf.es256(SigStructure(s.protected, aad, s.payload), s.signature, key)
  }

  /** Exactly the signed payloads are released. */
  lemma SignedPayloadExactly(pf: Platform, data: Bytes, owner: Bytes, aad: Bytes, payload: Bytes)
    ensures SignedPayload(pf, data, owner, aad) == Some(payload) <==>
            && ParseSign1(data).Some?
            && var s := ParseSign1(data).value;
            && s.payload == payload && OwnerSigned(pf, s, owner, aad)
  {
    hide ParseSign1, SigStructure, SignerPoint, MaySign;
    if ParseSign1(data).Some? {
      var s := ParseSign1(data).value;
      forall key
        ensures SignerPoint(pf, s.unprotected, owner) == Some(key) <==> MaySign(pf, s.unprotected, owner, key)
      {
        SignerExactly(pf, s.unprotected, owner, key);
      }
    }
  }

  /** A provisioning artifact of this content type and in scope, signed for the
      owner under the provisioning tag. */
  ghost predicate Provisioned(pf: Platform, data: Bytes, owner: Bytes, contentType: Bytes, guid: Option<Bytes>,
                              payload: Bytes) {
    && ParseSign1(data).Some?
    && var s := ParseSign1(data).value;
    && s.payload == payload && pf.contentType(s.protected) == Some(contentType) && pf.scopeOk(s.protected, guid)
    && OwnerSigned(pf, s, owner, DomainAad(Ascii("FDO-FSIM-BmoProvision-v1"), 200))
  }

  lemma BmoPayloadExactly(pf: Platform, data: Bytes, owner: Bytes, contentType: Bytes, guid: Option<Bytes>,
                          payload: Bytes)
    ensures BmoPayload(pf, data, owner, contentType, guid) == Some(payload) <==>
            Provisioned(pf, data, owner, contentType, guid, payload)
  {
    hide ParseSign1, SignedPayload, OwnerSigned, DomainAad;
    SignedPayloadExactly(pf, data, owner, AAD_BMO, payload);
  }

  /** Whoever signed, the authority goes back to the owner: the owner's own key,
      or a chain whose root the owner signed and whose every certificate carries
      the provisioning permission. */
  lemma SignerRootsInOwner(pf: Platform, unprotected: Bytes, owner: Bytes)
    requires SignerPoint(pf, unprotected, owner).Some?
    ensures var key := SignerPoint(pf, unprotected, owner).value;
            || key == owner
            || exists ders :: && ChainOk(pf.PkiOf(), ders, owner)
                              && key == Certs(pf.PkiOf(), ders)[0].key
                              && forall i :: 0 <= i < |ders| ==> pf.cert(ders[i]).value.perms.provision
  {
    if pf.delegated(unprotected) {
      var ders := pf.x5chain(unprotected).value;
      PermissionExactly(pf.PkiOf(), ders, owner);
      assert ChainOk(pf.PkiOf(), ders, owner);
    }
  }
}
