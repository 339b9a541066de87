# Verified model of the FDO UEFI client's trust pipeline

The client is a UEFI application that onboards a device with FIDO Device Onboard
(FDO): it runs the TO2 protocol against an owner server, receives a boot image over
the bare-metal-onboarding (BMO) service, and chain-loads it. This project models the
code that decides which bytes may be executed, and the hand-written codecs that code
rests on, and proves what each of them promises.

`dafny verify dfyconfig.toml` checks everything.

| file | subject |
|---|---|
| Base.dfy, Platforms.dfy | bytes and big-endian numbers; the cryptography, TPM and lookup functions everything else is parameterised by |
| Cbor.dfy | the three CBOR skippers of the client, the language each accepts, heads |
| Cursor.dfy | the TO2 decoder's wrapping 64-bit cursor and its use of stack |
| CoseSign1.dfy | COSE_Sign1 envelopes, Sig_structure, domain separation |
| FdoCodec.dfy | the TO2 encoder and decoder objects, ServiceInfo, COSE_Encrypt0 |
| Voucher.dfy | the ownership voucher chain |
| Delegate.dfy, ExtendedKeyUsage.dfy | delegate certificate chains; the ExtendedKeyUsage scan |
| Artifacts.dfy, Chunking.dfy, Bmo.dfy | signed artifacts, hash policy, the BMO session |
| To2.dfy | a whole TO2 run against an arbitrary server |
| DctpmRecord.dfy, RvInfo.dfy, AntiRollback.dfy | the DCTPM record, the rendezvous minimum and the firmware ratchet |
| DnsNames.dfy, LowS.dfy | DNS names; 256-bit arithmetic and low-S |

How things are represented:

- SHA-256, ES256, HMAC, the AEAD, key agreement, X.509 parsing, UTF-8 validity and a few
  COSE header lookups are function-valued fields of `Platform` (or `Pki`, `Aead`,
  `Device`). Every theorem holds for all such functions. The only laws ever assumed are
  stated in the lemma that needs them: `Voucher.NoCollision` (no collision among the byte
  strings two given vouchers actually hash) and `FdoCodec.Correct` (opening what was
  sealed gives the plaintext).
- The server, the network and the TPM are adversarial: replies, HTTP fetches and NV
  outcomes are arbitrary inputs of a run.
- Code that loops or changes state is a method or a class with those fields, proved equal
  to a specification function; the results are proved about that function.
- A byte `b` is split as `b / 32` and `b % 32` where the source shifts and masks. Lengths
  that the source truncates are truncated here too (`BeBytes`, `% 65536`, `% TWO64`).

## Where a promised property needs a condition

- The three skippers do not agree on all of CBOR. `Cbor.SkipExact` gives the exact language
  of each on unbounded positions; they agree on items without eight-byte arguments outside
  floats and without two-byte simple values (`Cbor.WalkersAgree`), and `Cbor.WalkersDiffer`
  shows inputs on which they do not.
- The TO2 decoder adds string lengths of up to 2^64 - 1 to its 64-bit cursor without a check
  (`src/fdo.rs:628`, and `585` and `607` for reads), and release builds wrap. A skip can
  therefore end before it began, and a read can panic, exactly when a string ends beyond
  2^64 (`Cursor.BackwardsExactly`). `Cursor.HugeIsSkipped` is nine bytes that are skipped
  although they are no item, and `Cursor.RoundNeverEnds` ten bytes that no stack is large
  enough for (`CoseSign1.RoundReply` puts them into a ProveOVHdr reply). The walk is
  modelled as it is, as a total function of the room on the stack. `Cursor.WalkExact` gives
  its exact language under the condition that no string on the walk wraps;
  `Cursor.WalkAgrees` says that it then is the idealised walk, and `Cursor.CalmNeverCrashes`
  gives a guard on the bytes alone. A panic, or a stack that runs out, is an outcome of its
  own (`Crash`) and ends a run; every safety result below holds with it, and completeness
  results ask that nothing crashed (`Bmo.ChunkCrashesExactly`, `Bmo.CalmRun`).
- ProveOVHdr is parsed twice, by two different walkers: the signature is checked over the
  payload one of them finds, while nonce, key share, voucher and delegate chain are read
  from the payload the other finds. The comments promise that the signature binds all of
  these; the code does so under a condition on the unprotected header `h`:
  `CoseSign1.Aligned(h)`, the TO2 decoder takes `h` as exactly one item. All messages
  carrying an aligned header are read alike (`CoseSign1.PayloadViewsAgree`). For headers in
  which no byte 0x5b or 0x7b is followed by 0xff, so that no string in them can wrap the
  cursor, `CoseSign1.ReadAlikeExactly` proves the converse too; with such bytes a length may
  reach into the payload, and only the first half is claimed. Every header without a
  two-byte simple value is aligned, if the stack has room for its nesting
  (`CoseSign1.OrdinaryIsAligned`). Behind an aligned header the signed payload itself
  carries everything a launch rests on (`To2.AlignedLaunchIsSigned`). Without it the two
  payloads are independent (`CoseSign1.AnyOtherPayload`), step 3 accepts fields nobody
  signed (`To2.FieldsNotSigned`), and such a run can go on to launch
  (`To2.LaunchNotSigned`), because a resale SetupDevice20 answers only to the key it names
  (`To2.SetupSigner`). What `To2.LaunchIsAuthorised` says of every run is therefore said of
  the bytes each check is made on.
- The TO2 encoder writes lengths in at most two bytes. `FdoCodec.ServiceInfoRoundTrip`,
  `FdoCodec.EncryptedRoundTrip` and `FdoCodec.BuildersAgreeExactly` hold exactly below 65536.
  `CoseSign1.SigStructureInjective` needs lengths below 2^32; `CoseSign1.SigStructureWraps`
  is a collision at 2^32.
- The voucher code promises that entries cannot be reordered, replaced or removed
  (`src/voucher.rs:20-23`, `503-504`). Of all lists made of an accepted voucher's entries exactly
  the prefixes are accepted (`Voucher.RearrangedExactly`): dropping the last entries goes
  unnoticed, and the holder after the remaining ones is then the owner
  (`Voucher.PrefixAccepted`).
- The firmware minimum decreases exactly when a redefinition of the NV index loses a
  non-zero minimum (`AntiRollback.RatchetExactly`). `AntiRollback.LaunchExactly` says, for
  every run and every mixture of read failures and the four write outcomes (stored; stored
  but reported as failed; unchanged; lost in a redefinition), which attempts launch. A
  revision older than a recorded one that the index still remembers is launched if and only
  if the index cannot be read and the rendezvous minimum lets it pass
  (`AntiRollback.RollbackExactly`): a failed read counts as "no minimum". A lost
  redefinition forgets (`AntiRollback.RollbackAfterLoss`), and a launch whose update failed
  leaves the older minimum in force (`AntiRollback.RollbackAfterFailedWrite`): a failed
  update is only reported.
- A DNS name comes back as itself exactly if it is the root or all its labels are 1 to 63
  bytes (`DnsNames.NameRoundTrip`): empty labels are dropped and long ones cut.

Where code and comments disagree the code is followed: the step list above the meta-URL
delivery says the meta hash is checked "if present" and only `meta_signer` authenticates,
while the code also accepts an owner-signed meta-payload and demands evidence; comments
speak of key -9 where the field is key 8 with -9 as its alias.

## Model

| member | source | states |
|---|---|---|
| `Cbor.SkipExact` | src/cose.rs:696-746 | on unbounded positions, each of the three skippers stops at `e` inside the buffer if and only if the bytes up to `e` are one item of that skipper's language; for the TO2 decoder as it is see `Cursor.WalkExact` |
| `Cbor.SkipNExact` | src/dctpm.rs:45-62 | the same for `n` consecutive items |
| `Cbor.SkipNLocal` | src/dctpm.rs:45-62 | skipping depends only on the bytes consumed: same bytes, any other buffer and offset, same advance |
| `Cbor.WalkersAgree` | src/fdo.rs:617-658 | on unbounded positions, all three stop exactly at the end of every well-formed definite-length item without eight-byte arguments outside floats and without two-byte simple values, whatever surrounds it |
| `Cursor.WalkExact` | src/fdo.rs:617-658 | the decoder's real walk, not wrapping, stops at `e` inside the buffer if and only if the bytes up to `e` are one item of its language and the stack has room for its nesting |
| `Cursor.WalkItem` | src/fdo.rs:617-658 | an item of the language is skipped exactly, or the stack runs out, decided by its nesting |
| `Cursor.PortableWalk` | src/fdo.rs:617-658 | the same for every portable item between any neighbours |
| `Cursor.WalkAgrees` | src/fdo.rs:617-658 | if no string on the walk ends beyond 2^64 the real walk is the idealised one, and more nested calls than bytes left are never needed |
| `Cursor.WalkLocal` | src/fdo.rs:617-658 | a walk that ends inside its bytes, even after wrapping, is the same at any place of a larger buffer |
| `Cursor.BackwardsExactly` | src/fdo.rs:626-629 | at a string head the cursor moves backwards, and reading panics, if and only if the string ends beyond 2^64 |
| `Cursor.ReadInt32Meaning` | src/fdo.rs:512-522 | an integer is read as the signed 32-bit number congruent to it |
| `Cursor.HugeIsSkipped` | src/fdo.rs:626-629 | nine bytes that are no item are skipped to position 8 |
| `Cursor.RoundNeverEnds` | src/fdo.rs:626-635 | an array whose first element takes the cursor back to it, anywhere in a buffer: no stack is large enough |
| `CoseSign1.RoundReply` | src/fdo.rs:1070-1100 | an eleven-byte message on which the second payload parser exhausts every stack |
| `Cursor.CalmNeverCrashes` | src/fdo.rs:573-658 | on bytes without 0x5b or 0x7b before 0xff, shorter than the stack, no read or skip crashes from any position, and skipping is the idealised walk |
| `Cbor.WalkersDiffer` | src/fdo.rs:648-655 | inputs outside that class on which they differ |
| `Cbor.HeadForAt` | src/dctpm.rs:69-88 | a head written in shortest form is read back with its major type and argument by every reader |
| `Cbor.ReadHeadExact` | src/cose.rs:696-720 | a head is read at a position if and only if one of that major type and argument stands there |
| `CoseSign1.CborSkip` | src/cose.rs:696-746 | the recursive skipper with its loops computes the specified position and terminates on every input |
| `CoseSign1.SigStructureInjective` | src/cose.rs:141-150 | no two (protected, aad, payload) triples have the same Sig_structure (section 4.4 of RFC 9052) |
| `CoseSign1.SigStructureWraps` | src/cose.rs:758-776 | the 2^32 bound is needed: a collision where a length wraps |
| `CoseSign1.DomainAadInjective` | src/cose.rs:56-64 | from version 200 on the domain AAD determines its tag, and it is never the AAD of any earlier version, which is empty |
| `CoseSign1.DomainSeparation` | src/cose.rs:10-15 | bytes signed under one FDO 2.0 tag are never the bytes checked under another tag or for a pre-2.0 message |
| `CoseSign1.Sign1RoundTrip` | src/cose.rs:80-135 | parsing a printed COSE_Sign1, tagged or not, with any trailing bytes, returns exactly the spans that were printed |
| `CoseSign1.ParseSign1Exact` | src/cose.rs:80-135 | exactly the messages that are accepted: those that start with tag 18 or none, an array of four, two byte strings around one item and a payload or null, under heads of any width |
| `CoseSign1.ExtractRoundTrip` | src/fdo.rs:1070-1100 | the second payload parser returns the payload that was printed behind any aligned header |
| `CoseSign1.PayloadViewsAgree` | src/fdo.rs:1062-1100 | on every accepted message with an aligned unprotected header both parsers yield the same payload |
| `CoseSign1.ReadAlikeExactly` | src/fdo.rs:1062-1100 | for every header the COSE parser can read and in which no string can wrap the cursor: all messages that carry it are read alike by both parsers if and only if the TO2 decoder takes that header as one item |
| `CoseSign1.AnyOtherPayload` | src/fdo.rs:648-655 | for any signed parts and any bytes there is a header under which the COSE parser returns the signed parts and the second parser those bytes |
| `CoseSign1.OrdinaryIsAligned` | src/fdo.rs:617-658 | every header item without a two-byte simple value is aligned, if the stack has room for its nesting |
| `FdoCodec.CborDecoder.SkipValue` | src/fdo.rs:617-658 | for every input and every stack: the wrapping walk, as success with the new cursor, an error or a crash |
| `FdoCodec.CborEncoder.Header` | src/fdo.rs:338-363 | the encoder appends exactly one head to its buffer |
| `FdoCodec.CborEncoder.WriteBytes` | src/fdo.rs:366-379 | appends one byte string |
| `FdoCodec.CborEncoder.WriteText` | src/fdo.rs:411-424 | appends one text string |
| `FdoCodec.StringAt` | src/fdo.rs:366-379 | a string is read back if it is shorter than 65536 bytes and otherwise comes back shorter or not at all |
| `FdoCodec.BuildCoseSigStructure` | src/fdo.rs:1443-1451 | builds the Sig_structure the device signs |
| `FdoCodec.BuildersAgreeExactly` | src/fdo.rs:1443-1451 | the signing and the verifying builder give the same bytes if and only if every part is below 65536 bytes |
| `FdoCodec.AadBuildersAgree` | src/fdo.rs:1453-1460 | the encoder and the verifier build the same domain AAD for tags below 65536 bytes |
| `FdoCodec.BuildProveDevice` | src/fdo.rs:1413-1439 | the ProveDevice20 envelope as sent |
| `FdoCodec.ProveDeviceParses` | src/fdo.rs:1413-1439 | the client's own COSE parser takes that envelope apart into exactly its parts |
| `FdoCodec.BuildServiceInfo` | src/fdo.rs:2331-2340 | the response loop encodes the queued pairs in order |
| `FdoCodec.ParseServiceInfoArray` | src/fdo.rs:1713-1740 | the parsing loop computes the specified list, error or crash, including its handling of entries of the wrong arity |
| `FdoCodec.ServiceInfoRoundTrip` | src/fdo.rs:1713-1740 | decoding inverts encoding if and only if the number of pairs and every key and value stay below 65536 |
| `FdoCodec.BuildEncryptedMessage` | src/fdo.rs:1518-1537 | builds tag 16, protected header, IV map and ciphertext |
| `FdoCodec.ParseEncryptedMessage` | src/fdo.rs:1544-1594 | the parsing loop computes the specified (IV, ciphertext) |
| `FdoCodec.EncryptedRoundTrip` | src/fdo.rs:1518-1594 | taking apart a built message returns both parts if and only if the IV is non-empty and both are below 65536 bytes; the IV is found whatever the ciphertext |
| `FdoCodec.DecryptEncrypted` | src/fdo.rs:163-204 | decrypting an encrypted message returns the plaintext, given a correct AEAD |
| `FdoCodec.DecryptExactly` | src/fdo.rs:194-204 | a message decrypts to a text if and only if its parts have the right sizes and the AEAD opens them to it under the session key and the Enc_structure of section 5.3 of RFC 9052 |
| `Voucher.ReadHash` | src/voucher.rs:369-385 | reads `[alg, bstr]` and skips any further elements |
| `Voucher.HashAt` | src/voucher.rs:369-385 | a printed hash, with any further elements, is read as its algorithm and value |
| `Voucher.EntryPayloadRoundTrip` | src/voucher.rs:334-366 | a printed entry payload is read field by field: hash of the predecessor, hash of the header, then the key |
| `Voucher.HeaderRoundTrip` | src/voucher.rs:262-315 | a printed header is read field by field, if its GUID has 16 bytes |
| `Voucher.VerifyVoucher` | src/voucher.rs:398-524 | the loop with rolling key and rolling hash computes the specified result, error by error |
| `Voucher.AcceptedExactly` | src/voucher.rs:398-524 | accepted if and only if the header is this device's and every entry is signed by the key its predecessor names, carries its predecessor's hash and belongs to the header; the owner is who the last entry names; a rejection is that of the first bad entry |
| `Voucher.AcceptedMeans` | src/voucher.rs:398-524 | accepted with owner K if and only if the header names this device, its HMAC verifies, and every entry is ES256-signed under its domain tag by the key the one before it names, names no delegate and carries the SHA-256 hashes of its predecessor and of GUID and device information; K is the key named last |
| `Voucher.PrefixAccepted` | src/voucher.rs:468-517 | every prefix of an accepted entry list is accepted, with the holder after it as the owner |
| `Voucher.RearrangedExactly` | src/voucher.rs:503-507 | of all lists of an accepted voucher's entries, with reordering, repetition and omission, exactly the prefixes are accepted |
| `Voucher.HeaderIsNotEntry` | src/voucher.rs:269-281 | a header followed by anything never parses as an entry |
| `Voucher.SharedEntry` | src/voucher.rs:20-23 | two accepted vouchers that share an entry anywhere share its position and everything before it |
| `Voucher.TamperEvidence` | src/voucher.rs:398-524 | accepted vouchers ending in the same entry have identical entries, the same bytes of OVHeader followed by HMac, and the same owner, unless two of the hashed strings collide |
| `Voucher.EntriesDistinct` | src/voucher.rs:20-23 | no entry occurs twice in an accepted voucher |
| `Delegate.VerifyDelegateChain` | src/delegate.rs:150-252 | the root-down walk accepts exactly the owner-rooted, properly linked chains of 1 to 8 certificates and reports the leaf key and the common permissions |
| `Delegate.VerifyX5ChainInternal` | src/delegate.rs:272-314 | the leaf-up walk accepts exactly the properly linked chains and returns the leaf key |
| `Delegate.WalkersAgree` | src/delegate.rs:181-314 | for every chain and owner: the first accepts if and only if the second does and the owner signed the root, with the same leaf key |
| `Delegate.Attenuation` | src/delegate.rs:108-123 | every root-ward suffix of an accepted chain is accepted, yields that suffix's first key and has at least the same permissions |
| `Delegate.ChainMeans` | src/delegate.rs:150-252 | a chain is accepted if and only if it has one to eight certificates that parse, each signed by the next and the last by the owner, and every issuer is a CA with no more intermediates below it than its pathLenConstraint allows (section 4.2.1.9 of RFC 5280) |
| `Delegate.PathLength` | src/delegate.rs:192-219 | every issuer is a CA and has no more intermediates below it than its pathLenConstraint (section 4.2.1.9 of RFC 5280) |
| `ExtendedKeyUsage.CheckEkuOids` | src/delegate.rs:534-577 | the scan terminates on every byte string and computes the specified flags |
| `ExtendedKeyUsage.EkuExact` | src/delegate.rs:534-674 | on every well-formed sequence each permission is set if and only if one of its object identifiers occurs (section 4.2.1.12 of RFC 5280) |
| `ExtendedKeyUsage.ReuseImpliesOnboard` | src/delegate.rs:566-569 | credential reuse always implies onboarding, on any bytes |
| `Artifacts.ArtifactSignerPoint` | src/cose.rs:274-299 | the key that must have signed an artifact |
| `Artifacts.VerifyBmoSigned` | src/cose.rs:222-263 | releases the payload only after content type, signer, signature and then scope |
| `Artifacts.VerifyMetaSigned` | src/cose.rs:305-315 | the same for meta-payloads, under their own domain tag |
| `Artifacts.SignerExactly` | src/cose.rs:266-299 | a key may sign if and only if it is the owner's and the header names no delegate, or the leaf of the owner-rooted chain in the header in which every certificate permits provisioning |
| `Artifacts.SignerRootsInOwner` | src/cose.rs:266-299 | so its authority goes back to the owner, in every certificate of the chain |
| `Artifacts.SignedPayloadExactly` | src/cose.rs:305-315 | a payload is released if and only if the signature over header, tag and payload verifies under a key that may sign |
| `Artifacts.BmoPayloadExactly` | src/cose.rs:222-263 | a provisioning artifact is released if and only if, in addition, its content type and scope pass, under the provisioning tag |
| `Chunking.ParseFields` | src/chunking.rs:145-190 | the keyed-map loop shared by image-begin and meta-payload: later values win, skipped keys are collected |
| `Chunking.FieldsRoundTrip` | src/bmo.rs:208-288 | a printed map of known keys parses, in either message, to exactly the last value of each key |
| `Chunking.MetaRoundTrip` | src/chunking.rs:145-190 | a printed meta-payload parses to itself, whatever follows it |
| `Chunking.VerifyAndExtractMeta` | src/chunking.rs:245-291 | authenticates a fetched meta-payload by its named signer, or by owner or provisioning delegate; never downgrades |
| `Chunking.AuthenticateMetaExactly` | src/chunking.rs:245-291 | reported as signed if and only if tagged and signed under the meta tag by the named publisher, or for the owner if none is named; reported as unsigned if and only if untagged and no publisher is named |
| `Bmo.BeginRoundTrip` | src/bmo.rs:208-304 | a printed image-begin parses to itself, under the generic and under the legacy numbering, whatever follows it |
| `Bmo.MixedBeginExactly` | src/bmo.rs:290-304 | a printed map in any mixture of the two numberings is refused if and only if a key and its alias disagree, and otherwise means the same as its generic form |
| `Bmo.ModeExactly` | src/bmo.rs:290-304 | the three delivery modes are told apart by number, and no other number is taken for one of them |
| `Bmo.ParseImageEndHash` | src/bmo.rs:1150-1191 | the loop finds the byte string under key 1, or nothing, or crashes |
| `Bmo.EndHashRoundTrip` | src/bmo.rs:1150-1191 | a printed image-end with key 1, at any place among other pairs, gives that hash |
| `Bmo.CheckBmoAuthorization` | src/bmo.rs:535-578 | computes the authorisation outcome |
| `Bmo.UrlImageExactly` | src/bmo.rs:934-1005 | URL delivery yields an image if and only if it is what was fetched, of the announced size and with the hash the image-begin commits to |
| `Bmo.ProcessMetaUrlDelivery` | src/bmo.rs:1016-1144 | meta-URL delivery authenticates, restricts, plans, fetches and checks every required hash |
| `Bmo.MetaImageExactly` | src/bmo.rs:1016-1144 | meta-URL delivery yields an image if and only if it is what was fetched, matches the begin hash and every meta hash, at least one of them in a signed message, and an unsigned meta-payload gave no instructions |
| `Bmo.BmoSession.ProcessBmoMessage` | src/bmo.rs:592-928 | one message changes the session exactly as specified |
| `Bmo.BmoSession.ImageBegin` | src/bmo.rs:603-771 | the image-begin branch, in all three delivery modes |
| `Bmo.BmoSession.ImageData` | src/bmo.rs:773-807 | a chunk is appended and counted, only while data is awaited, or kills the program |
| `Bmo.BmoSession.ImageEnd` | src/bmo.rs:809-880 | the image-end branch: size, hash decision, hash |
| `Bmo.StepKeeps` | src/bmo.rs:592-928 | every message in every state keeps the session invariant |
| `Bmo.CompleteIsJustified` | src/bmo.rs:592-1144 | over every message sequence, Complete means: the last image-begin was authorised, its hash (if any) is the image's; inline: the image is exactly the chunks since then, of the announced size, and without a begin hash the image-end hash matches under non-artifact authority; URL: hash and size match; meta-URL: an authenticated hash matches |
| `Bmo.HonestTransferCompletes` | src/bmo.rs:603-1144 | conversely, in each of the three modes a transfer that keeps the rules reaches Complete with exactly its image, from any session the program is still running |
| `Bmo.InlineTransferExactly` | src/bmo.rs:603-880 | an inline transfer of printed pieces: the image is their concatenation, and the session completes if and only if size and hash policy are met by it, and is in Error otherwise |
| `Bmo.ChunkOfString` | src/bmo.rs:784-797 | a chunk that starts with a whole byte string, under a head of any width, is its contents |
| `Bmo.ChunkExactly` | src/bmo.rs:784-797 | what any chunk decodes to: string contents, the raw bytes, or a crash |
| `Bmo.SuccessReportedExactly` | src/bmo.rs:592-928 | success is reported if and only if this message completed a transfer |
| `Bmo.UnknownModeFails` | src/bmo.rs:603-771 | a begin with any other mode ends the session in Error |
| `Bmo.SetStep` | src/bmo.rs:882-923 | settings change nothing if signed for the owner or sent by a peer that may provision, and end the session in Error otherwise; only reading them can crash |
| `Bmo.ParseBmoSet` | src/bmo.rs:371-388 | the loop over the settings |
| `Bmo.SetRoundTrip` | src/bmo.rs:371-388 | printed settings are read back, and an empty list is refused |
| `Bmo.ChunkCrashesExactly` | src/bmo.rs:784-797 | the program dies on a chunk if and only if its length field points beyond 2^64 |
| `Bmo.CalmRun` | src/bmo.rs:592-928 | a session fed messages that pass the guard on their bytes never crashes, whatever they say |
| `Bmo.BytesConserved` | src/bmo.rs:798-801 | in every reachable state the byte counter equals the buffer length |
| `Bmo.AcceptedBeginExactly` | src/bmo.rs:485-578 | exactly the begin messages that are let through and under which authority: signed for the owner and bound to the content, or unsigned from owner, provisioning delegate, or without any owner |
| `Bmo.BegunAuthority` | src/bmo.rs:485-501 | what the authority of a begun transfer proves |
| `Bmo.OnboardOnlyDelegate` | src/bmo.rs:119-145 | with a delegate that may not provision, Complete is reached only through a signed image-begin that covers the image: by its hash (inline, URL) or by the meta-payload it points to |
| `To2.IvInjective` | src/fdo.rs:995-1008 | different counter values give different IVs (section 8.2.1 of NIST SP 800-38D) |
| `To2.FetchAllEntries` | src/fdo.rs:2043-2071 | the entries come back complete and in the order asked for |
| `To2.FetchExactly` | src/fdo.rs:2043-2071 | the entries are had if and only if each was answered under its own number |
| `To2.EntryReplyRoundTrip` | src/fdo.rs:2053-2069 | a printed reply gives its entry if and only if the number is the one asked for |
| `To2.ProveOvRoundTrip` | src/fdo.rs:1105-1167 | a printed ProveOVHdr is read field by field |
| `To2.ProveOwner` | src/fdo.rs:2087-2243 | step 3b: voucher, delegate chain, ProveOVHdr signature, nonce, rendezvous blob |
| `To2.AuthenticateExactly` | src/fdo.rs:2087-2243 | step 3 succeeds if and only if all of those checks pass on what the server sent, each on the parsed view it is made on |
| `To2.CheckTo1d` | src/fdo.rs:2185-2242 | a rendezvous blob, if any, is signed by the owner or a delegate with redirect permission |
| `To2.To1dExactly` | src/fdo.rs:2185-2242 | that check passes if and only if there is no blob or the blob's ES256 signature, under the tag for the voucher's version, is by the owner or the leaf of an owner-rooted chain that permits redirection throughout |
| `To2.To1dChainRoundTrip` | src/fdo.rs:2202-2206 | the chain is read from the wrapped third element |
| `To2.ServiceInfoLoop` | src/fdo.rs:2315-2417 | ends within 100000 rounds, encrypts one message per round under the next IV and feeds every BMO message of every round to the session in order |
| `To2.ExchangeRoundTrip` | src/fdo.rs:2315-2417 | against an honest server the exchange delivers the messages of all its replies, in order, and ends with the one that says so |
| `To2.BmoMsgsExactly` | src/fdo.rs:2369-2384 | of one reply exactly the entries with a `fdo.bmo:` key reach the session, in order |
| `To2.OwnerInfoRoundTrip` | src/fdo.rs:2363-2366 | the second flag of a reply says whether the owner is done |
| `To2.UnreadableIsIgnored` | src/fdo.rs:2366-2390 | a reply with an unreadable ServiceInfo counts as an empty one, and the null reply as an empty last one |
| `To2.PerformTo2` | src/fdo.rs:1836-2489 | the whole run: its outcome is as specified, and the IVs a receiver finds in the encrypted messages it sent are pairwise distinct |
| `To2.LaunchIsAuthorised` | src/fdo.rs:2087-2489 | against every server, an image is launched only after voucher, ES256 signature, ProveOVHdr nonce, a SetupDevice20 signed for this run's nonce and the DoneAck nonce have passed, each on the bytes the code checks it on, and only with bytes a justified transfer delivered |
| `To2.LaunchedExactly` | src/fdo.rs:1836-2489 | an image is launched if and only if step 3, SetupDevice20, every encryption and DoneAck succeed and the session ends complete with it |
| `To2.HonestRunLaunches` | src/fdo.rs:2315-2489 | conversely, a run in which every check passes and an honest transfer is delivered, in any mode and with nothing before it crashing the program, launches exactly its image |
| `To2.SignedFields` | src/fdo.rs:1985-1995 | behind an aligned header the fields acted on are those of the payload whose signature was verified |
| `To2.AlignedLaunchIsSigned` | src/fdo.rs:2105-2181 | a launch behind an aligned header: the signed payload itself names this run's nonce, the session's key share, the accepted voucher and the delegate chain |
| `To2.FieldsNotSigned` | src/fdo.rs:2105-2181 | without that condition step 3 accepts fields on the strength of any ProveOVHdr signature of the responsible key, whatever was signed |
| `To2.SetupExactly` | src/fdo.rs:1210-1263 | SetupDevice20 passes if and only if it is a resale that names this run's nonce and a 16-byte GUID and is ES256-signed by the key it names, or a reuse ES256-signed by the ProveOVHdr signer |
| `To2.DispositionRoundTrip` | src/fdo.rs:1219-1253 | printed resale and reuse payloads are read field by field |
| `To2.DoneNonceRoundTrip` | src/fdo.rs:2456-2460 | a printed DoneAck gives its nonce if and only if that has 16 bytes |
| `To2.SetupSigner` | src/fdo.rs:1210-1263 | credential reuse must be signed by the ProveOVHdr signer; a resale is judged the same whoever that is |
| `To2.LaunchNotSigned` | src/fdo.rs:2105-2489 | such a run launches when the rest, with a resale SetupDevice20, goes well; its header is not aligned |
| `To2.OnboardOnlyLaunch` | src/fdo.rs:2122-2146 | a peer taken for an onboard-only delegate gets an image launched only under a signed image-begin that covers it |
| `DctpmRecord.SkipItem` | src/dctpm.rs:45-62 | the third skipper, with its wrapping pair count, computes the specified position |
| `DctpmRecord.MinFirmwareRev` | src/dctpm.rs:93-109 | reads item 10, or 0 from a ten-item record |
| `DctpmRecord.RevMeaning` | src/dctpm.rs:91-109 | from every record: item 10 if it is an unsigned integer, 0 if there are ten items, else nothing |
| `DctpmRecord.WithMinFirmwareRev` | src/dctpm.rs:114-141 | rewrites the record around item 10 |
| `DctpmRecord.WithRevMeaning` | src/dctpm.rs:111-141 | possible if and only if the bytes start with a complete array of ten or more items; the result is that array with item 10 replaced or appended |
| `DctpmRecord.ReadBack` | src/dctpm.rs:91-141 | reading an updated record gives the new revision, whatever bytes follow it |
| `DctpmRecord.OtherItemsKept` | src/dctpm.rs:111-141 | the bytes of items 0-9 and of items 11 onward are unchanged |
| `DctpmRecord.LastUpdateWins` | src/dctpm.rs:111-141 | a second update, even over padding, gives exactly what it would give alone |
| `RvInfo.RvMinFirmwareRev` | src/dctpm.rs:145-187 | the nested scan over directives and instructions computes the specified revision |
| `RvInfo.InnerRevExactly` | src/dctpm.rs:167-172 | a variable-18 value names a revision if and only if it is a byte string that starts with that unsigned integer |
| `RvInfo.HighestRevision` | src/dctpm.rs:143-187 | on every well-formed RendezvousInfo the result is the highest revision any variable-18 instruction names, or 0 if none does |
| `AntiRollback.NvIndex.ReadFirmwareRevCounter` | src/rv_firmware/anti_rollback.rs:20-37 | the stored minimum, 0 when missing, unreadable or unparseable |
| `AntiRollback.NvIndex.UpdateFirmwareRevCounter` | src/rv_firmware/anti_rollback.rs:42-80 | raises the minimum in place or by redefinition, per NV outcome |
| `AntiRollback.NvIndex.CheckFirmwareRev` | src/rv_firmware/anti_rollback.rs:85-105 | accepts against the larger of stored and rendezvous minimum |
| `AntiRollback.NvIndex.Deliver` | src/rv_firmware/mod.rs:183-204 | check, ratchet, launch, with a failed update only reported |
| `AntiRollback.UpdateEffect` | src/rv_firmware/anti_rollback.rs:39-80 | an update that takes leaves the larger of old and new as the minimum; any other leaves the index as it was, or empty after a lost redefinition; a reported success takes, a failure only if the write was not reported |
| `AntiRollback.UpdateKeepsItems` | src/rv_firmware/anti_rollback.rs:39-80 | an update changes no other item of the stored record |
| `AntiRollback.CounterDropsExactly` | src/rv_firmware/anti_rollback.rs:65-73 | one update lowers the minimum if and only if it redefines the index and loses it |
| `AntiRollback.RatchetExactly` | src/rv_firmware/anti_rollback.rs:5-9 | over any run the minimum never decreases, if and only if no attempt loses the index |
| `AntiRollback.CounterExactly` | src/rv_firmware/anti_rollback.rs:20-80 | after any run the stored minimum is the highest revision recorded since the index last forgot, or what it started with |
| `AntiRollback.LaunchExactly` | src/rv_firmware/mod.rs:183-204 | in every run an attempt launches if and only if it is not below the rendezvous minimum and, if the index can be read, not below anything the index still stands for |
| `AntiRollback.RollbackExactly` | src/rv_firmware/anti_rollback.rs:85-105 | once a revision is recorded and not forgotten, an older one is launched if and only if the index cannot be read and the rendezvous minimum lets it pass |
| `AntiRollback.NoRollback` | src/rv_firmware/mod.rs:183-204 | so no attempt that can read the index launches an older one |
| `AntiRollback.LaunchesAscendExactly` | src/rv_firmware/mod.rs:183-204 | if every launch is recorded and the index never forgets, launched revisions never go down if and only if no attempt with an unreadable index offers less than an earlier launch and passes the rendezvous minimum |
| `AntiRollback.RollbackAfterLoss` | src/rv_firmware/anti_rollback.rs:70-73 | a lost redefinition forgets the minimum |
| `AntiRollback.RollbackAfterFailedWrite` | src/rv_firmware/mod.rs:189-195 | two launches that go down after a failed write |
| `DnsNames.EncodeDnsName` | src/dns.rs:54-72 | the label loop puts the specified bytes on the wire |
| `DnsNames.DecodeDnsName` | src/dns.rs:220-266 | terminates on every packet (jumps left, then bytes left) and computes the specified name and end |
| `DnsNames.SkipDnsName` | src/dns.rs:177-214 | terminates on every packet and computes the specified end |
| `DnsNames.SkipMatchesDecode` | src/dns.rs:177-266 | the skipper succeeds if and only if the decoder does, with the same end position |
| `DnsNames.DecodeCompressed` | src/dns.rs:220-266 | labels followed by a pointer decode to the joined name and end after the pointer (section 4.1.4 of RFC 1035) |
| `DnsNames.NameRoundTrip` | src/dns.rs:54-266 | every encoded ASCII name decodes, anywhere in a packet; to itself if and only if it is the root or all labels are 1 to 63 bytes |
| `LowS.CompareBytes` | src/tpm.rs:943-951 | byte order is numeric order |
| `LowS.SubtractBytes` | src/tpm.rs:954-963 | a - b, and modulo 2^256 when a < b |
| `LowS.OrderIsOdd` | src/tpm.rs:927-940 | the two constants satisfy order = 2 * half + 1 |
| `LowS.NormalizeS` | src/tpm.rs:1003-1007 | the result is s or order - s and is at most (order - 1) / 2 if and only if s is at most the order |

## Left out

- HTTP, TCP4, UDP4, DHCP and UEFI handle code: foreign calls and polling; a fetch is an arbitrary optional byte string.
- TPM command building and response parsing: device I/O; the NV index is one byte string with read and write outcomes.
- The inside of SHA-256, ES256, HMAC, AES-GCM, ECDH and the KDF.
- X.509 field walking, SubjectPublicKeyInfo, FDO PublicKey and COSE_Key parsing: functions of `Platform`; only the ExtendedKeyUsage scan is modelled on bytes.
- `parse_protected_alg`, `parse_protected_tstr`, `has_delegate_header` and x5chain extraction: functions of `Platform`, so the theorems hold whatever they return.
- Scope evaluation inside signed artifacts: an opaque yes/no function.
- The messages the device builds before ProveOVHdr (HelloDeviceProbe, ProveDevice20 contents) and the HelloDeviceAck checks; a run starts with the ProveOVHdr reply.
- The plaintexts of the device's own encrypted messages inside a run are arbitrary; the encoding of ServiceInfo is proved on its own.
- The rendezvous parser that feeds the firmware check (`rv_parse`): the rendezvous minimum is an arbitrary input there.
- `src/rv_firmware/cose_verify.rs`: a third copy of the COSE parser.
- Human-readable result texts, error codes of URL deliveries, informational image-begin fields, the watchdog, and the `AwaitingEnd` state, which no code enters.
- The wrap of the u32 chunk counter; buffers of 2^63 bytes or more, which do not exist.
- The stack needed by `cose::cbor_skip` and `dctpm::skip`: both always move forward, so their recursion ends, and it is taken to fit.
- What happens after a panic or a stack overflow (the client reboots): a run that crashes is one that aborts.
- Indefinite-length CBOR, which no reader of the client accepts.
- Cursor positions after a failed read in the COSE and TO2 readers, where no modelled caller looks at them.
