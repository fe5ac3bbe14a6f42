# Blind BBS credentials: a verified model

This project models the credential library in Dafny and proves properties of the model: the blind
BBS protocol with device key binding, the octet formats its parties exchange, and the mapping
between named JSON claims and the ordered messages the signature covers.

A holder commits to messages, a device signs the commitment's challenge, an issuer signs blindly, and
the holder checks what it received. Later the holder starts a presentation, the device signs once per
key, the holder finishes the proof, and a verifier checks it knowing only the wire. Around this, a claims
tree becomes a list of messages and an index map in the issuer's header, and the verifier reads claims back
through that map.

## What the model assumes

* The curve, the field, the hashes and the point and scalar octets are one record of operations
  (`Curves.CurveOps`) with laws: a field of scalars, a group of points with scalar action, codecs that are
  bijections of width 48 and 32, hashes as functions of octets. The pairing equation with the public
  key `W = x * G2` is the group equation for the exponent `x`. `CurveInstance.ResiduesSatisfyLaws` shows
  that the laws can be met, by the integers modulo 13.
* Randomness is an input: a list of scalars where the code draws a known number, a stream where it
  draws as many as it needs.
* JSON text is a record (`Json.Codec`): printing a value gives octets that parse back to it and are UTF-8
  text. Values, member order and unique member names are modelled; text is not.
  `JsonInstance.TaggedSatisfiesLaws` shows that the laws can be met.
* Counts, lengths and positions are unbounded, except where the code itself cuts them (`u32` lengths in
  the carried state, `u64` counters on the wire), which is written out.

Non-degeneracy never hides in a hypothesis where a theorem can name it: the completeness theorems, up to
`CredentialTheorems.CredentialEndToEnd`, are equivalences, so they say which zero scalar or identity point makes
a step fail. What they name is pinned to the run: a commitment state and a prover's run by their octets, a
header and a signed point by the call that computes them. The soundness theorems are about the quotients an
extractor computes, not about values that are said to exist.

What is refused is stated as well: `Acceptance` says of all octet strings which ones the issuer and the verifier
accept, equation by equation. Hashes are not assumed to be free of collisions. Where the program relies on that,
`ChallengeInputs`, `Keybind` and `Binding` name the two octet strings that would have to collide.

## How the files follow the program

| files | part of the program |
|---|---|
| `Wrappers`, `Octets`, `Curve`, `CurveInstance`, `JsonInstance` | errors, octets, `i2osp`, the algebra, and that the assumed laws can be met |
| `Serialize`, `Injective`, `Suite`, `Indexes` | `serialize`, `expand_message_xmd`, generators, index lists |
| `Bbs`, `Keybind` | base BBS signatures and proofs, the device's Schnorr signatures |
| `CommitWire`, `ProofWire` | the octets of a commitment, of the proof state and of a finished proof |
| `Issuance`, `Presentation` | the protocol itself |
| `IssuanceTheorems`, `Layout`, `ProverAlgebra`, `PresentationTheorems`, `ChallengeInputs`, `Acceptance`, `Soundness`, `Binding` | completeness, layout, unambiguous hash inputs, exactly what is accepted, soundness, what a proof is bound to |
| `Base64`, `Text`, `Compact` | the compact serialization |
| `Sorting`, `Json`, `Pointers`, `ClaimMap`, `LeafTheorems`, `MapTheorems`, `MapRoundTrip`, `Header` | claims, pointers, the index map and the headers |
| `PresentCarry`, `Flow`, `FlowAccepts`, `EndToEnd`, `CredentialTheorems`, `SignedContent`, `Counterexamples` | the credential flows, the end-to-end theorems, what is signed, and the smallest inputs behind the findings |

Code that loops is a method with its invariants, tied by its `ensures` to a function, and what the
program promises is proved of that function. `Cursor` and the map under construction are classes.

## What the proofs found

* A signature whose scalar `e` is zero is issued and then refused by every reader
  (`IssuanceTheorems.IssuanceComplete`): the equivalence has `e != 0` on the holder's side only.
* The map's keys are already escaped, and walking the map escapes them again. A claim whose name holds `~` or
  `/` is therefore named by a pointer escaped twice (`MapRoundTrip.PointerUnchangedIff`), and its own pointer,
  the one `build_cmap` returned, does not find it: it finds nothing, or another claim. Of the claims `a/b` and
  `a~1b`, the pointer `/a~01b` of the second finds the first (`Counterexamples.PointerFindsAnotherClaim`), so a
  wallet asked for one claim would disclose the other, which the comment at src/jwp.rs:106-111 says escaping
  prevents. `CredentialTheorems.OwnPointerFindsIff` says what each pointer finds, and
  `OwnPointerIsOwnIff` that it is the claim itself exactly when no name on the path holds `~` or `/`. The model
  follows the code.
* A top-level member named `""` makes the map unusable, by an error or silently, except when it is the only
  member and a leaf (`MapRoundTrip.MapRecoveredIff`; one input each in `Counterexamples.EmptyNameIsRefused`
  and `EmptyNameIsLost`).
* That member's claims are signed as if they stood at the top: `{"":{"a":..}}` and `{"a":..}` have one map and one
  list of messages (`Counterexamples.EmptyNameSignsAlike`).
* The map does not tell an array from an object whose names are the positions, so the two are signed alike
  (`Counterexamples.ArraySignsAsObject`). Apart from that and the order of members, map and messages determine
  the claims (`SignedContent.SignedAlikeIff`).
* Each side is limited to 512 leaves, but nothing the issuer runs limits both together. With 512 leaves and one
  more a header is built and signed that no reader accepts (`Counterexamples.OneLeafTooMany`;
  `CredentialTheorems.IssuerSideIff` and `CredentialIssued` say exactly when).
* The header's checks do not compare the two maps' pointers. When both name one pointer, a request for it
  resolves to the issuer's claim (`CredentialTheorems.EveryClaimResolvesIff`,
  `Counterexamples.SharedPointerFindsIssuers`).
* A device signature whose challenge is zero verifies under every key
  (`Keybind.MisusedSignatureCollides` excludes it by name).
* An empty list of payloads does not survive the compact form: it reads as one omitted payload
  (`Compact.GroupRoundTripIff`).
* Several base64url spellings decode to one octet string; the decoder does not look at the unused low bits
  (`Base64.EncodeOfDecodeIff`, `Counterexamples.TwoSpellings`).

## Model

| member | source | states |
|---|---|---|
| `Octets.I2ospU64IsPositional` | src/util.rs:21-30 | `i2osp` is the positional big-endian encoding at every width, and loses nothing exactly when the value fits |
| `Suites.ExpandAcceptsIff` | src/util.rs:41-60 | the checks pass exactly for tags up to 255 octets and lengths up to 8160, and then no length or counter octet is cut |
| `Suites.XorInto` | src/util.rs:75-92 | the in-place inner loop leaves the octetwise exclusive or |
| `Suites.ExpandMessageXmd` | src/util.rs:41-99 | the loop that overwrites the previous block computes the recursive definition of section 5.3.1 of RFC 9380, with exactly the requested length |
| `Suites.DeriveGenerators` | src/suite.rs:160-178 | the loop that reassigns `v` returns the generators of the recursive definition |
| `Suites.GeneratorsPrefix` | src/suite.rs:160-178 | asking for more generators leaves the first ones unchanged |
| `Suites.GeneratorsAre` | src/suite.rs:160-178 | the generators written out: seed, counter, tags and the hash to the curve |
| `Suites.HashingFailsIff` | src/suite.rs:142-158 | hashing fails exactly for tags of more than 255 octets |
| `Suites.ValidSuiteHashes` | src/suite.rs:142-158 | under the suites' own tags no hash or generator derivation fails |
| `Suites.MessagesCollide` | src/suite.rs:150-158 | two lists of messages have the same scalars only where the messages are the same, or two different messages hash to one scalar |
| `Suites.TagsDiffer` | src/blind.rs:93-118 | the ten domain separation tags of a suite are pairwise different, whatever the api_id |
| `Suites.KeyGeneratorsAre` | src/blind.rs:103-112 | the first key generator is the base point, the others are hashed under the key family's own tag |
| `Suites.SuitesAreValid` | src/blind.rs:66-91 | both suite identifiers give such tags |
| `Serialize.SerializeItems` | src/bbs.rs:32-45 | the extending loop writes the concatenation of the items' encodings |
| `Serialize.ReadPoints` | src/blind.rs:481-527 | the reading loop returns the points at the position and where they end, or the first failure |
| `Serialize.ReadScalars` | src/blind.rs:481-527 | likewise for scalars, refusing zero where asked |
| `Serialize.ReadChunks` | src/blind.rs:552-608 | likewise for fixed-width signatures |
| `Serialize.PointsAtIff` | src/blind.rs:481-527 | reading `k` points yields a list exactly where the octets of that list, none of them the identity, stand |
| `Serialize.ScalarsAtIff` | src/blind.rs:481-527 | likewise for scalars |
| `Bbs.SignatureFromOctetsIff` | src/bbs.rs:80-109 | a string reads as a signature exactly when it is that signature's encoding and neither part is trivial |
| `Bbs.ParseProof` | src/bbs.rs:161-200 | the parser with its moving offset returns what the positional reader returns, errors included |
| `Bbs.ProofFromOctetsIff` | src/bbs.rs:146-200 | the proof codec is a bijection between proofs without identity points and accepted strings |
| `Bbs.SignThenVerify` | src/bbs.rs:224-271 | every base signature verifies, and under the same domain for no other message sum |
| `Bbs.SignedScalar` | src/bbs.rs:224-247 | the scalar of a base signature is hashed from the key, every message and the domain |
| `Bbs.T1Agrees` | src/bbs.rs:274-406 | the verifier's `T1` is the prover's |
| `Bbs.T2Agrees` | src/bbs.rs:274-406 | the verifier's `T2` with the key correction is the prover's |
| `Keybind.ReduceDigest` | src/keybind.rs:164-173 | filling the wide array with the reversed digest and reducing is the big-endian digest reduced |
| `Keybind.HashesAgree` | src/keybind.rs:156-173 | the signer's hash accepts exactly the digests below the order, and there agrees with the reducing hash |
| `Keybind.SignWithRetry` | src/keybind.rs:199-222 | the retry loop returns the first attempt that has a challenge, or fails |
| `Keybind.VerifyIff` | src/keybind.rs:224-235 | of all octet strings exactly those verify that are the 64 octets of a pair with `s * hk = R + c * pk` and `c` the reduced digest of `R` and the message |
| `Keybind.SignVerifies` | src/keybind.rs:199-235 | whichever attempt produced it, a signature verifies under `hk * sk` |
| `Keybind.SignedVerifiesIff` | src/keybind.rs:199-235 | under any key and for any message a signature verifies exactly when the nonce point shifted by the keys' difference hashes with that message to its challenge |
| `Keybind.MisusedSignatureCollides` | src/keybind.rs:199-235 | a signature accepted for another message, or under another key with a challenge that is not zero, exhibits two octet strings whose digests collide |
| `Keybind.ParseIff` | src/keybind.rs:175-187 | a signature string parses to a pair exactly when it is the pair's encoding |
| `Keybind.AdaptVerifiesIff` | src/keybind.rs:224-246 | an adapted signature verifies under `pk + hk * r` exactly when the original verifies under `pk` |
| `Keybind.AdaptTwice` | src/keybind.rs:237-246 | adapting by `r1` and then `r2` is adapting by `r1 + r2` |
| `Keybind.SchnorrExtracts` | src/keybind.rs:224-235 | from two proofs over one nonce point the signing key is the quotient of the differences |
| `CommitWire.ParseState` | src/blind.rs:481-527 | the parser with its moving index is the positional reader, errors included |
| `CommitWire.StateFromOctetsIff` | src/blind.rs:467-527 | the commitment state codec is a bijection between states with no trivial part and accepted strings |
| `CommitWire.WriteCommitProof` | src/blind.rs:530-550 | the pushes and the signature loop write the commitment with its proof |
| `CommitWire.ParseCommitProof` | src/blind.rs:552-608 | likewise for the commitment with its proof |
| `CommitWire.CommitProofFromOctetsIff` | src/blind.rs:530-608 | the codec of the commitment with proof and signatures is such a bijection |
| `ProofWire.ParseGenState` | src/blind.rs:927-973 | the parser that slices from the back is the positional reader |
| `ProofWire.GenStateFromOctetsIff` | src/blind.rs:927-973 | it accepts exactly the states whose opaque part announces the layout that is there |
| `ProofWire.ParseBlindProof` | src/blind.rs:1175-1231 | the parser of a finished proof is the positional reader |
| `ProofWire.BlindProofFromOctetsIff` | src/blind.rs:1175-1231 | the finished proof's codec is a bijection between well-formed proofs and accepted strings |
| `ProofWire.ThreeStagesAgree` | src/blind.rs:904-973 | what one stage writes, the second slices from the back and the third parses, back to the original proof, commitments, responses, keys and signatures, for all counts |
| `ProofWire.StateSlicesBack` | src/blind.rs:805-826 | the second stage refuses a written state exactly when the challenge, a randomizer or a key is trivial |
| `IssuanceTheorems.CbarAgrees` | src/blind.rs:342-393 | the issuer recomputes the `Cbar` the wallet hashed |
| `Issuance.VerifyEach` | src/blind.rs:385-391 | the loop accepts exactly when every device signature verifies, else fails with the first failure |
| `Issuance.ParseKeysIff` | src/blind.rs:122-133 | the keys parse exactly when each is the encoding of a point that is not the identity |
| `Acceptance.ValidateCommitIff` | src/blind.rs:329-393 | of all octet strings the issuer's check passes exactly the encodings of commitments whose challenge is the hash over the implied `Cbar` and whose every device signature proves its key |
| `Acceptance.CommitFinalizeIs` | src/blind.rs:193-210 | the wallet finishes exactly a state with no trivial part with one signature per key, and writes the commitment of both |
| `Acceptance.BlindSignIff` | src/blind.rs:242-322 | over all octet strings the issuer signs exactly for such a commitment, a point that is not the identity and `SK + e` not zero |
| `Acceptance.AcceptedCommitmentsExtract` | src/blind.rs:342-393 | two accepted commitments with one point and one `Cbar` but different challenges give away an opening |
| `IssuanceTheorems.CommitmentExtracts` | src/blind.rs:342-393 | the quotients of two responses for one commitment and `Cbar` under different challenges are messages and a blind that open it |
| `IssuanceTheorems.CommitmentExtractsSecrets` | src/blind.rs:151-189 | the quotients of the wallet's own responses are exactly its messages and its blind |
| `IssuanceTheorems.CommitStartsIff` | src/blind.rs:139-188 | the wallet's commitment starts exactly when every key parses |
| `IssuanceTheorems.HonestCommitmentValidates` | src/blind.rs:329-393 | the issuer's whole check passes on an honest commitment |
| `IssuanceTheorems.SignedPointAgrees` | src/blind.rs:253-297 | the issuer's sum over its messages and the commitment is the holder's sum over the whole vector with the blind in the middle and the keys, under the same domain |
| `IssuanceTheorems.SignatureIsReadableIff` | src/blind.rs:299-322 | a signature is made exactly when `SK + e` is not zero, satisfies the equation, and is readable exactly when `e` is not zero |
| `IssuanceTheorems.HolderAcceptsIff` | src/blind.rs:396-462 | the holder accepts exactly a readable signature with `A * (x + e)` equal to the signed point |
| `Acceptance.VerifyBlindSignIff` | src/blind.rs:396-462 | over all inputs the holder accepts exactly encodings of signatures with no trivial part, of the point written out, under keys that parse |
| `IssuanceTheorems.IssuanceComplete` | src/blind.rs:139-462 | commit, finalize, sign and verify succeed exactly when no named quantity is trivial, for all message counts and keys |
| `Layout.SlotsAreValid` | src/blind.rs:660-693 | `proof_index` gives strictly increasing slots that are exactly the chosen messages' and never the blind's |
| `Indexes.CheckIndexesLoop` | src/blind.rs:890-901 | the two loops decide order first, then range, with their own errors |
| `Indexes.CheckIndexesIff` | src/blind.rs:890-901 | an index list is accepted exactly when it is strictly increasing and in range |
| `Layout.CountIsRecovered` | src/blind.rs:998-1030 | the count recovered from the proof length is the message count |
| `Layout.HiddenSlotsWithKeys` | src/blind.rs:715-750 | the hidden slots with keys are the hidden messages' slots followed by the key slots |
| `Layout.LayoutAgrees` | src/blind.rs:998-1056 | prover and verifier derive the same partition of all `l + 1 + k` slots, key slots last and hidden, on the same generators |
| `Presentation.CommitLoop` | src/blind.rs:752-775 | the loop pushes the commitments and the proofs at the committed slots' positions, or fails exactly when one is not hidden |
| `Presentation.WriteChallenge` | src/blind.rs:857-884 | the pushing loops write the octets the presentation challenge hashes |
| `Presentation.FinalizeLoop` | src/blind.rs:805-826 | the extending loops finish the proof with the keys and the adapted signatures, or fail with the first failure |
| `Presentation.RecomputeLoop` | src/blind.rs:1126-1134 | the verifier's loop recomputes the commitment proofs at the committed positions, or fails when one is not hidden |
| `ProverAlgebra.WithKeysForm` | src/blind.rs:728-750 | adding the key part turns every published point into the base formula over the signed point with keys |
| `ProverAlgebra.VerifierPointsAgree` | src/blind.rs:1113-1161 | the verifier's `T1` and corrected `T2` are the prover's |
| `ProverAlgebra.ProofsAgree` | src/blind.rs:1140-1156 | the recomputed commitment proofs are the prover's |
| `ProverAlgebra.PairingAgrees` | src/bbs.rs:274-320 | a signature that holds makes the pairing equation hold, with the exact trivial factors |
| `PresentationTheorems.AdaptedSign` | src/blind.rs:805-826 | device signatures, adapted, verify under the randomized keys |
| `PresentationTheorems.VerifierInputOfRun` | src/blind.rs:1063-1156 | from an honest proof the verifier recomputes exactly what the prover hashed |
| `PresentationTheorems.CoreVerifierAcceptsIff` | src/blind.rs:1063-1171 | the core verifier accepts an honest proof exactly when it can read it |
| `Acceptance.CoreAcceptsIff` | src/blind.rs:1063-1171 | of all octet strings the core verifier accepts exactly the encodings of proofs whose counts and indexes fit, whose challenge is the hash of the implied input, whose every device signature proves its randomized key, and whose pairing equation holds |
| `Acceptance.VerifierAcceptsIff` | src/blind.rs:981-1061 | likewise for the outer verifier, with the counts of the choices and the layout it derives |
| `Acceptance.ProofFinalizeIff` | src/blind.rs:805-826 | the second half goes through exactly for a readable state, one signature per key and signatures that are pairs of scalars |
| `PresentationTheorems.PresentationStartsIff` | src/blind.rs:637-693 | with an accepted credential a proof starts exactly when `r2` is not zero |
| `PresentationTheorems.OpeningsAreReturned` | src/blind.rs:752-801 | the scalars and blinds the first half returns open its commitments, message by message |
| `PresentationTheorems.PresentationComplete` | src/blind.rs:637-1171 | init, honest device signatures and finalize give a proof the verifier accepts, for every message count, choice vector, split and number of keys, with the exact trivial cases |
| `Soundness.PresentationExtracts` | src/blind.rs:1118-1171 | from two answers to one challenge input the extractor's quotients are a message vector that agrees with the disclosed messages, keys that randomize to the presented ones, scalars with the signature equation, `r1` zero only if `e = -SK`, and blinds that open every commitment to the message in its slot |
| `Soundness.AcceptedAnswers` | src/blind.rs:976-1171 | every proof the verifier accepts reads as one of the two transcripts the extractor takes, with the challenge hashed from its challenge input and a device signature for every key |
| `Soundness.ProverExtractsItself` | src/blind.rs:695-803 | from an honest prover answering twice the extractor returns exactly the signature scalar, the randomizers, the messages, the keys and the blinds the prover used |
| `Soundness.ExtractedSignatureVerifies` | src/blind.rs:426-462 | two such transcripts give away the secret key, exactly when the extracted `r1` is zero, or else a signature that passes the holder's own check on the extracted messages and keys exactly when `e` is not zero and the signed point is not the identity |
| `ChallengeInputs.DomainLayout` | src/bbs.rs:205-216 | the octets hashed to a domain, written out |
| `ChallengeInputs.DomainInjective` | src/bbs.rs:205-216 | those octets determine key, generators and header |
| `ChallengeInputs.DomainsCollide` | src/bbs.rs:205-216 | equal domains of different keys, generators or headers exhibit a collision of those octets |
| `ChallengeInputs.BlindChallengeInjective` | src/blind.rs:212-236 | octets hashed to a commitment challenge determine commitment, `Cbar`, generators and keys |
| `ChallengeInputs.BlindChallengeLayout` | src/blind.rs:212-236 | those octets, written out |
| `ChallengeInputs.BlindChallengesCollide` | src/blind.rs:212-236 | equal commitment challenges over different values exhibit a collision |
| `ChallengeInputs.ProofChallengeInjective` | src/blind.rs:829-887 | octets hashed to a presentation challenge determine every field |
| `ChallengeInputs.ProofChallengesCollide` | src/blind.rs:829-887 | equal presentation challenges over different inputs exhibit a collision |
| `ChallengeInputs.KeyChallengesCollide` | src/blind.rs:797-799 | what the device signs is the digest of key and challenge, and determines both unless digests collide |
| `Binding.ProofBindsStatement` | src/blind.rs:1063-1171 | a proof that holds for two statements: generators, header, presentation header, disclosed scalars and indexes are the same, or two named octet strings collide |
| `Binding.AcceptanceBinds` | src/blind.rs:976-1171 | a proof accepted twice: header, presentation header, disclosed messages and choices are the same, or two named octet strings collide |
| `Binding.VerifiedProofBinds` | src/flow.rs:266-297 | two accepted presented forms with one proof are the same form, or two named octet strings collide |
| `Base64.EncodeLoop` | src/jwp.rs:415-429 | the chunk loop computes the recursive encoding |
| `Base64.DecodeLoop` | src/jwp.rs:431-458 | the chunk loop computes the recursive decoding, or the error at a bad length or character |
| `Base64.DecodeOfEncode` | src/jwp.rs:415-458 | decoding an encoding gives back every octet string |
| `Base64.EncodeOfDecodeIff` | src/jwp.rs:415-458 | encoding a decoding gives back the text exactly when the unused low bits of the last character are zero |
| `Base64.EncodeHasNoSeparator` | src/jwp.rs:415-429 | no encoding holds `~` or `.` |
| `Compact.SlotRoundTrip` | src/jwp.rs:463-483 | omitted, empty and full slots stay apart and come back |
| `Compact.GroupRoundTripIff` | src/jwp.rs:463-483 | a group comes back exactly when it has a slot |
| `Compact.GroupCanonicalIff` | src/jwp.rs:475-483 | an accepted group is the encoding of what it decodes to exactly when every slot is spelled canonically |
| `Compact.IssuedRoundTripIff` | src/jwp.rs:496-538 | the issued form comes back exactly when it has a payload |
| `Compact.PresentedRoundTripIff` | src/jwp.rs:571-611 | the presented form comes back exactly when it has a slot |
| `Compact.IssuedCanonicalIff` | src/jwp.rs:496-538 | an accepted issued form is the encoding of what it decodes to exactly when every part is spelled canonically |
| `Compact.PresentedCanonicalIff` | src/jwp.rs:571-611 | likewise for the presented form |
| `Pointers.UnescapeOfEscape` | src/jwp.rs:396-397 | the two unescaping passes undo the two escaping passes (sections 3 and 4 of RFC 6901) |
| `Pointers.EscapeChangesIff` | src/jwp.rs:134-135 | escaping removes every slash, and changes exactly the names with `~` or `/` |
| `Pointers.RenderInjective` | src/jwp.rs:366-382 | two paths written alike are the same path |
| `Pointers.PartsOfRender` | src/jwp.rs:388-397 | insertion reads a written path back as its escaped names, once the first name is not empty |
| `Pointers.PartsOfEmptyHead` | src/jwp.rs:388-397 | an empty first name is trimmed away |
| `ClaimMap.CollectLeaves` | src/jwp.rs:366-382 | the recursive pushes list the tree's leaves with their pointers |
| `ClaimMap.CmapTree.Insert` | src/jwp.rs:388-408 | moving down and adding missing objects in place has the outcome of the recursive insertion |
| `ClaimMap.BuildCmapLoop` | src/jwp.rs:295-324 | the loop builds the map, the messages and the pointers of the sorted leaves |
| `ClaimMap.BuildFromPointersLoop` | src/jwp.rs:336-364 | the loops refuse repeated or malformed pointers and otherwise insert them in order |
| `ClaimMap.WalkCmap` | src/jwp.rs:106-144 | the recursive pushes list the map's claims, or fail at a bad entry |
| `LeafTheorems.LeavesPrefixFree` | src/jwp.rs:366-382 | no leaf path leads to or through another |
| `LeafTheorems.LeafListedIff` | src/jwp.rs:366-382 | a leaf is listed exactly when following its names finds it |
| `LeafTheorems.PointersDistinct` | src/jwp.rs:366-382 | leaf pointers are pairwise distinct, whatever the names |
| `LeafTheorems.ReorderingChangesNothing` | src/jwp.rs:288-324 | reordering object members at any depth changes neither map, messages nor pointers |
| `MapTheorems.WalkIs` | src/jwp.rs:106-144 | the walk accepts exactly maps whose every leaf is a valid annotation, and lists each once |
| `MapTheorems.InsertAdds` | src/jwp.rs:388-408 | insertion at a path apart from all others conflicts with nothing, overwrites nothing and adds one entry |
| `MapRoundTrip.MapOfLeaves` | src/jwp.rs:314-322 | the map of a claims tree has exactly one entry per leaf |
| `MapRoundTrip.MapRecoveredIff` | src/jwp.rs:295-408 | building and walking give every leaf's pointer back at its index exactly when no top-level member is named "", or the tree is one such leaf, and the last index is below 512 |
| `MapRoundTrip.WalkHasNoDoubleSlash` | src/jwp.rs:388-408 | no built map walks to a pointer that starts with two slashes |
| `MapRoundTrip.PointerUnchangedIff` | src/jwp.rs:132-138 | the walked pointer is the claim's own exactly when no name on its path holds `~` or `/` |
| `MapRoundTrip.PermutedPointersBuildTheSame` | src/jwp.rs:326-364 | from any arrangement of the pointers, the other side builds the identical map or fails alike |
| `Headers.ValidateIndexes` | src/jwp.rs:247-283 | the contiguity loop and the split loop decide the stated checks |
| `Headers.ParseIssuerHeader` | src/jwp.rs:201-285 | the parser's steps, errors included |
| `Headers.ChecksPassIff` | src/jwp.rs:247-283 | the checks pass exactly when issuer claims are `0..s` and holder claims `s..n`, in order |
| `Headers.AcceptedHeaderIsInOrder` | src/jwp.rs:188-285 | in every accepted header that holds, and `pointers()[i]` names the claim with index `i` |
| `FlowAccepts.ParseHeaderIff` | src/jwp.rs:188-285 | of all octet strings exactly those parse to a view that are an object with these members, and whose maps name every message once, the issuer's first |
| `Headers.IndexOfIff` | src/jwp.rs:178-186 | `index_of` finds exactly the first message with the pointer |
| `Headers.MarkRequested` | src/jwp.rs:712-721 | the marking loop discloses exactly the indexes of requested pointers, or refuses an unknown one |
| `Headers.MergeExtras` | src/jwp.rs:679-687 | the merging loop inserts every extra member, or refuses a reserved name |
| `Headers.ExtrasKeepReserved` | src/jwp.rs:679-703 | extras merge exactly when none is reserved, and leave reserved members alone |
| `Headers.BuildHeaderIff` | src/jwp.rs:668-689 | an issuer header is built exactly when the caller adds no member named alg, vct, kb, cmap or hcmap |
| `Headers.IssuerHeaderRoundTrip` | src/jwp.rs:668-689 | a built issuer header parses to its type, key binding and claims |
| `Headers.BuiltPresentationHeaderPasses` | src/jwp.rs:630-704 | every presentation header that can be built is accepted |
| `Headers.PresentationHeaderPassesIff` | src/jwp.rs:630-650 | of all octet strings exactly those are accepted that parse to an object with this `alg`, a text `nonce` and a text `aud` |
| `PresentCarry.WriteCarry` | src/flow.rs:350-373 | the pushes write the recursive encoding |
| `PresentCarry.Cursor.Take` | src/flow.rs:412-421 | takes what is there or fails, and never leaves the buffer |
| `PresentCarry.Cursor.Blob` | src/flow.rs:428-431 | reads a length-prefixed blob or fails, and never leaves the buffer |
| `PresentCarry.ReadCarry` | src/flow.rs:375-403 | the cursor's loop decodes what the positional reader decodes, errors included |
| `PresentCarry.DecodeCarryIff` | src/flow.rs:349-403 | decoding accepts exactly the encodings of carries that fit, and returns what was encoded |
| `PresentCarry.NoPrefixDecodes` | src/flow.rs:375-403 | no strict prefix of a valid encoding is accepted |
| `Flow.VerifyPresentation` | src/flow.rs:266-297 | the pushing loop returns the disclosed claims, or the error of the step that failed |
| `FlowAccepts.IssuerSideAcceptsIff` | src/go_ffi.rs:417-465 | over all inputs the issuer's side is fixed exactly when claims and pointers build, the commitment is readable and counts as many messages as there are pointers, and the arguments fit |
| `FlowAccepts.IssueAcceptsIff` | src/go_ffi.rs:403-479 | a credential is then issued exactly when the commitment holds, the key is a scalar, the point is not the identity and `SK + e` is not zero |
| `FlowAccepts.AcceptIff` | src/flow.rs:167-197 | over all inputs the wallet accepts exactly an issued form whose header counts its payloads and the wallet's messages, with a signature of the point they make up |
| `FlowAccepts.VerifyIff` | src/flow.rs:266-297 | over all inputs the verifier accepts exactly a presented form with readable headers, a slot per message, text in every filled slot, and a proof that holds for them |
| `EndToEnd.PresentStartsIff` | src/flow.rs:199-244 | with an accepted credential, presenting starts exactly when every requested claim is known and `r2` is not zero |
| `EndToEnd.PresentationReturnsRequested` | src/flow.rs:199-297 | presenting any accepted credential finishes and verifies exactly when nothing named of the started run is trivial, and returns exactly the requested claims in message order with the signed octets |
| `EndToEnd.StartDetermines` | src/flow.rs:227-244 | the state and challenges handed to the wallet determine the run's challenge, key randomizers and randomized keys |
| `EndToEnd.ShownAreRequested` | src/flow.rs:281-296 | the returned pointers are exactly the requested ones, each once |
| `CredentialTheorems.WalletCommits` | src/flow.rs:144-148 | the wallet commits to its leaves in pointer order |
| `CredentialTheorems.IssuerSideIff` | src/go_ffi.rs:417-465 | the issuer builds a header exactly when each side has at most 512 leaves and its other inputs fit; the header can be read exactly when both sides together have at most 512, and then names issuer leaves `0..s` and holder leaves `s..n` |
| `CredentialTheorems.EveryClaimResolvesIff` | src/jwp.rs:178-186 | every claim is reachable by the header's pointer for it exactly when the two sides share no path |
| `CredentialTheorems.OwnPointerFindsIff` | src/jwp.rs:132-186 | a claim's own pointer finds message `j` exactly when the escaped path of claim `j` is the claim's path |
| `CredentialTheorems.OwnPointerIsOwnIff` | src/jwp.rs:132-186 | a claim's own pointer finds that claim exactly when no name on its path holds `~` or `/` |
| `CredentialTheorems.CredentialIssued` | src/go_ffi.rs:403-479 | for the state, header and point the run made: the commitment is finalized, the credential issued and then accepted exactly when the inputs fit, both sides fit one header and nothing named is trivial |
| `CredentialTheorems.CredentialEndToEnd` | src/flow.rs:167-297 | commit, issue, accept, present, finish and verify, each with the exact condition under which it succeeds after the one before; the verifier is then told exactly the requested pointers of the header's map with the text of the signed octets |
| `SignedContent.EqualLeavesIff` | src/jwp.rs:366-387 | two trees have the same leaves in the same order exactly when they are the same up to member order, with arrays read as objects named by their positions |
| `SignedContent.SignedAlikeIff` | src/jwp.rs:284-324 | two usable trees get the same map and the same messages exactly when that holds |
| `Counterexamples.PointerFindsAnotherClaim` | src/jwp.rs:106-138 | the claims `a/b` and `a~1b`: the pointer of the second finds the first, the pointer of the first finds nothing |
| `Counterexamples.EmptyNameIsRefused` | src/jwp.rs:388-408 | the claims `""` and `a`: building fails |
| `Counterexamples.EmptyNameIsLost` | src/jwp.rs:388-408 | a claim `a` under a member `""`: the map names it as a top-level `a` |
| `Counterexamples.EmptyNameSignsAlike` | src/jwp.rs:388-408 | `a` under a member `""` and a top-level `a`: one map, one list of messages |
| `Counterexamples.ArraySignsAsObject` | src/jwp.rs:384-387 | an array of one value and an object naming it `0`: the same map, messages and pointers |
| `Counterexamples.OneLeafTooMany` | src/jwp.rs:303-345 | 512 issuer leaves and one holder leaf: the header is built and cannot be read |
| `Counterexamples.SharedPointerFindsIssuers` | src/jwp.rs:178-283 | issuer and holder both claim `a`: the header is in order and `/a` finds the issuer's |
| `Counterexamples.TwoSpellings` | src/jwp.rs:431-458 | `AA` and `AB` decode to the same octet |

## Left out

- `NullScheme` and the `Option`-shaped conveniences of single bindings: they add only constant cases.
- Seeded randomness (`ScalarSource::for_attempt`, `calculate`) and its failures: scalars are inputs.
- Curve arithmetic, hash-to-curve, SHA-256, the pairing and subgroup checks: library code, taken as laws.
- JSON text and UTF-8 decoding: taken as the laws of `Json.Codec`; the issuing closure takes parsed values.
- Machine-word overflow of sizes and positions; counts are unbounded apart from the cuts written out.
- Error texts: every variant is kept, its message is not.
- Serialized G2 points and raw octet items are written out where the program serializes them, not as item kinds.
- `ClaimMap.CmapTree.Insert`: the moving reference is named by the keys that lead to it, so aliasing between nodes is not modelled.
- `Flow.VerifyPresentation`: the binding's step that turns the claim text back into a JSON value is not modelled.
- Suite and selector parsing by name, key generation, `keybind_public_key_from_coordinates`.
- `inspect`, which is the first half of `accept`, and the command line's file handling.
- The C, Kotlin, Swift and browser bindings, and buffer ownership across them.
- Unlinkability, collision resistance and the probability that a retry is needed.
