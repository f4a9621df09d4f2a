# A model of the IKEv2 library

This project models the core of an IKEv2 library and proves properties of the model.
It covers four connected parts.

- **The wire codec.** A message is a header and a chain of payloads; each payload's type stands in the header of the
  payload before it. The SA payload nests proposals and transforms and regroups transforms by type when decoding.
  Traffic selectors, Configuration, Notify, Delete, EAP and the plain payloads are modelled byte by byte, with the 8-bit
  and 16-bit sums that the decoders compute.
- **The EAP-AKA' attribute store.** A map with an optional order list, its padding and length fields, and the AT_MAC
  that both ends compute over the whole packet.
- **The SK layer.** Encoding with a zeroed checksum, signing, putting the checksum in place and encoding again; CBC with
  padding; the keys chosen by role; hash objects that are shared and stateful.
- **Key derivation.** prf+ over slices that share a backing array, the seven IKE SA keys, the child SA keys, the AKA'
  keys and Diffie-Hellman agreement.

`Session` puts the parts together: two peers derive keys from their secrets, and one decodes what the other encoded.

## How it is built

Each operation that works on bytes has a specification function, and each loop of the library is a method with the same
branches, proved equal to that function. Objects that the library updates in place are classes: `SecurityAssociation`,
`EapAkaPrime`, `EapPacket`, `Configuration`, `Delete`, `Notification`, the two traffic selector classes, `Encrypted`,
`IkePayloadContainer`, `IkeMsg`, `Hash`, `IkesaKey` and `ChildSaKey`. Round trips, invariants and agreement are lemmas
about the specification functions, so they hold of the methods.

`Outcome` has three cases: a value, a returned error, and `Fault`, which is a run-time bounds fault. Nothing is assumed to
be well formed on input: short, truncated and inconsistent bytes have the outcome the code gives them. One decoder, that
of Delete, can read bytes behind its body in the array that holds it; so decoding takes those bytes as well (`behind` for
a body, `spare` for a chain or a message), and results hold for all of them. Where a round trip does not hold for
everything that can be encoded, the lemma says exactly for which values it does.

HMAC and the block cipher are function parameters. The only laws used are that the digests of a prf have their size and
that block encryption is undone by block decryption. Random bytes are parameters, so every result holds for every draw.

| files | content |
|---|---|
| `Bytes` | big-endian fields, outcomes |
| `SecurityAssociation`, `SecurityAssociationProofs`, `SecurityAssociationPayload` | SA payload: functions, proofs, object |
| `Selectors`, `Configuration`, `Deletes`, `Notifications` | the other structured payloads |
| `AkaPrime`, `AkaPrimeProofs`, `AkaPrimeExact`, `AkaPrimeUnknown`, `AkaPrimeReceived`, `AkaPrimeObject` | AKA' store: functions, proofs, exact conditions for what was stored, with unknown types, and for what was received, object |
| `Eap`, `EapObject` | EAP packets and AT_MAC |
| `Payload`, `Chain`, `DecodeAgain`, `Message`, `IkeMessage` | payload bodies, the chain, encoding again what was decoded, whole messages, message objects |
| `Cbc`, `Sk`, `Ike` | padding and CBC, the SK layer as functions, the SK layer on objects |
| `PrfPlus`, `Keys`, `Modular`, `DiffieHellman` | expansion, key derivation, key agreement |
| `Session` | two peers end to end |
| `Witnesses` | inputs on the failing side of the exact conditions |

## Where the code and its documents differ

The model follows the code in each of these cases.

- A proposal's SPI and a Notify's SPI have an 8-bit size, but the decoders add 8 and 4 to it in 8 bits. An SPI of more than
  247 or 251 bytes can be encoded and cannot be decoded.
- A transform attribute in TLV form loses its value when decoded, and an attribute type keeps only its low 7 bits.
- AT_KDF_INPUT accepts values whose word count does not fit its byte. They are delivered up to 248 bytes, and again from
  65529 to 65535 bytes, where the lost high bits cancel out.
- AT_CHECKCODE accepts lengths that are no multiple of 4, which its length field cannot express.
- The Delete decoder reads SPIs in groups of four bytes whatever the SPI size is. A body whose SPIs do not fill whole
  groups ("ragged") takes the rest of its last SPI from behind the body: from the next payload, from the padding of a
  decrypted chain, or from spare capacity. It faults only if there are too few such bytes.
- An attribute of an unknown type is read without its two reserved bytes, which are then read as an attribute of type 0.
- The decoder drops padding, so a receiver hashes fewer bytes than the sender when a value needed padding.
- Section 2.13 of RFC 7296 ends prf+ at 255 blocks; the code goes on with a counter that wraps.

## Model

| member | source | states |
|---|---|---|
| `Session.Deliver` | ike.go:12-64 | For all secrets, nonces, SPIs, draws and well-formed payload lists: both peers get keys if and only if there is a nonce and both exchanged powers are acceptable; then encoding succeeds if and only if the chain can be encoded and fits a payload with all that is added, and the other decodes, in the opposite role, the header as read and exactly the payloads. |
| `Session.EstablishBoth` | security/security.go:196-310 | Each side, from its own secret and the other's public value, ends up with the same seven keys, cut from the prf+ stream of the generator raised to the product of the secrets. |
| `Session.Establish` | security/security.go:196-310 | A side gets keys if and only if it accepts the peer's public value and there is a nonce; all objects are keyed as derived. |
| `Sk.SkRoundTrip` | ike.go:158-295 | Every message sent with a key object, whole or in part, is received by the other role with the same keys, its header as read and its payload list unchanged, when the chain is well formed and what receiving looks at is present, for every draw and whatever stands behind the message; unless it has a strange AKA' body only then. |
| `Sk.SendsExactly` | ike.go:229-295 | With a hash whose digests have their size, sending with a key succeeds if and only if the chain can be encoded, the parts are present, a preset vector or padding fits, the digest is long enough and the payload with vector, padding and checksum fits 16 bits; the draw plays no part. |
| `Sk.SentIsSigned` | ike.go:12-26 | Every message sent with a key is some P followed by the truncated keyed hash of P under the integrity key of the sender's role. |
| `Sk.SentParts` | ike.go:229-295 | Whatever is sent carries the ciphertext of the encoded chain and the signature of the zeroed encoding, and needed what sending looks at. |
| `Sk.SignedMessage` | ike.go:270-292 | The second encoding ends with the checksum of everything in front of it. |
| `Sk.SignatureCovers` | ike.go:270-289 | The checksum covers a prefix that does not depend on what stands in the checksum's place, although it is taken from an encoding with zeros there. |
| `Sk.Received` | ike.go:30-64 | What the other role makes of any sent chain, well formed or not: the header as read and what decoding the plain chain gives with the sent padding behind it, or an error if what receiving looks at is missing. |
| `Sk.OpenSent` | ike.go:137-156 | The opposite role verifies and decrypts what was sent, whatever was drawn. |
| `Sk.HeaderInHand` | ike.go:39-50 | Passing a header parsed from the message gives the result of parsing it inside. |
| `Ike.EncodeEncrypt` | ike.go:12-26 | On message and key objects, without a key and with one that is whole or lacks parts, the bytes or the kind of failure are those of the SK layer's function of the state before the call. |
| `Ike.EncryptMsg` | ike.go:229-295 | The container ends up with one SK payload that names the first original type and holds ciphertext and checksum; every missing part has the failure the code gives it. |
| `Ike.Sign` | ike.go:279-292 | Writing the checksum in place into the buffer of the SK payload that the container shares leaves ciphertext followed by the signature of the zeroed encoding. |
| `Ike.DecodeDecrypt` | ike.go:30-64 | On objects, with or without a header in hand, without a key and with one that is whole or lacks parts, the message or the kind of failure is that of the function. |
| `Ike.DecryptMsg` | ike.go:158-227 | The container ends up with what the last SK payload carries; any other payload beside it is an error, and every missing part has the failure the code gives it. |
| `Ike.OpenData` | ike.go:66-83 | The checksum is checked under the other role's key before decryption with the other role's cipher. |
| `Ike.CalculateIntegrity` | ike.go:85-114 | The checksum, its error or its fault depends on the role's hash and the data only, whatever the hash absorbed before. |
| `Ike.FindSk` | ike.go:189-200 | Succeeds if and only if every payload is SK, and gives the last one. |
| `Ike.RunCalls` | ike.go:85-114 | Over every interleaved run of checksums and child key derivations on one key object, each answer is determined by the keys and that call alone. |
| `Ike.AnswerUnique` | ike.go:85-114 | For given keys a call has only one answer, so the order of the run cannot matter. |
| `Cbc.DecryptEncrypt` | security/encr/encr_aes_cbc.go:87-159 | Decrypting what was encrypted returns the plaintext if and only if the padding used ends with its own length minus one, which the generated padding always does; the padding stays behind the plaintext. |
| `Cbc.CbcRoundTrip` | security/encr/encr_aes_cbc.go:111-145 | CBC decryption undoes CBC encryption for every block permutation, vector and number of blocks. |
| `Cbc.Pkcs7Padding` | security/lib/lib.go:11-28 | The result is a positive multiple of the block size that starts with the plaintext, and its last byte plus one is the number of bytes added, for every draw. |
| `Cbc.EncryptsExactly` | security/encr/encr_aes_cbc.go:87-120 | Whether encryption succeeds, and how long its result is, depends on the plaintext's length and a preset vector or padding only. |
| `Cbc.Encrypt` | security/encr/encr_aes_cbc.go:87-120 | Vector, padded plaintext and block mode in the layout that decryption expects, with the failures of a preset padding or vector. |
| `Cbc.Decrypt` | security/encr/encr_aes_cbc.go:122-159 | Length checks, block mode and removal of padding, with its failures. |
| `Message.MessageRoundTrip` | message/message.go:27-69 | A whole message comes back, header fields and payloads, when its version numbers fit a nibble and its chain is well formed, whatever stands behind it; unless it has a strange AKA' body only then. |
| `Message.HeaderRoundTrip` | message/header.go:55-120 | A header that can be written is read back if and only if both version numbers fit a nibble; otherwise exactly their low nibbles change. |
| `Chain.ChainRoundTrip` | message/message.go:73-192 | Every list of payloads that can be encoded is decoded, in order and whatever stands behind it, from its first type when it is well formed, where an SK payload keeps the type it names; unless it has a strange AKA' body only then. |
| `Chain.AcceptedExactly` | message/message.go:115-192 | For any bytes and whatever stands behind them, a chain is accepted if and only if it splits into frames, no frame is unknown and critical, and every known body is accepted where it stands. |
| `Chain.CriticalRejected` | message/message.go:130-179 | A chain with an unknown type whose critical bit is set is never accepted. |
| `Chain.AcceptedByBodies` | message/message.go:115-192 | Without a Delete body that reads on, acceptance depends on each body alone. |
| `Chain.SkippedExactly` | message/message.go:130-179 | Removing all unknown, uncritical payloads from a correctly linked chain without SK leaves the decoded list and the way it ends unchanged if and only if every Delete that is reached and reads on finds the same bytes behind it, or too few in both. |
| `Chain.UnknownPayloadsSkipped` | message/message.go:130-179 | In particular they can be removed, with the same result, if no Delete body reads on. |
| `Chain.RenderedDecodes` | message/message.go:115-192 | A correctly linked chain of frames decodes to the bodies of its known frames, each read where it stands. |
| `DecodeAgain.DecodeEncodeDecodeChain` | message/message.go:73-192 | For the payloads decoded from any bytes: they can be encoded again if and only if each meets a condition on its kind and fits its frame, and decoding that gives the same payloads if and only if each is steady and SK payloads name their successors; strange AKA' bodies aside. |
| `DecodeAgain.BodyUnderstood` | message/message.go:134-184 | For a payload decoded from any body, what it takes to be written again and to come back; strange AKA' bodies aside. |
| `Payloads.PayloadRoundTrip` | message/message.go:134-184 | For every payload kind, a body that can be written is read back under exactly its well-formedness condition, whatever stands behind it; strange AKA' bodies aside. |
| `Payloads.TaggedRoundTrip` | message/payload_keyexchange.go:18-37 | A fixed header and data are read back if and only if there is data. |
| `IkeMessage.IkePayloadContainer.Encode` | message/message.go:73-113 | The indexed loop computes the chain, with an SK payload's own next type. |
| `IkeMessage.IkePayloadContainer.Decode` | message/message.go:115-192 | The loop appends to the receiver exactly the payloads of the chain up to where it ended. |
| `IkeMessage.IkeMsg.Encode` | message/message.go:27-40 | Writes the message and leaves the header's next type and payload bytes as written. |
| `IkeMessage.IkeMsg.Decode` | message/message.go:42-55 | Parses the header, which stays also if the payloads fail, and appends the payloads, or fails as the function does. |
| `IkeMessage.IkeMsg.DecodePayload` | message/message.go:57-69 | Decodes behind a header in place; a type without bytes is an error. |
| `IkeMessage.Encrypted.Marshal` | message/payload_encrypted.go:16-22 | The live buffer, or an error when it is empty. |
| `IkeMessage.Encrypted.Unmarshal` | message/payload_encrypted.go:24-27 | Appends to the data. |
| `SecurityAssociationProofs.ProposalsRoundTrip` | message/payload_securityassociation.go:45-252 | An SA that can be written is read back if and only if every SPI has at most 247 bytes, every transform stands in the bucket of its type, and every attribute is absent with zero fields or in TV form with a type below 128. |
| `SecurityAssociationProofs.TransformsRoundTrip` | message/payload_securityassociation.go:93-244 | The same for the inner list, and types survive in any case. |
| `SecurityAssociationProofs.DecodeEncodeDecode` | message/payload_securityassociation.go:45-252 | For any accepted bytes the decoded SA can be written if and only if each proposal kept 1 to 255 known transforms and none lost a TLV value, and then decoding again gives the same SA. |
| `SecurityAssociationProofs.RegroupingConserves` | message/payload_securityassociation.go:183-244 | Regrouping keeps every transform of a known type exactly once and nothing else. |
| `SecurityAssociationProofs.BucketsAreTyped` | message/payload_securityassociation.go:228-241 | Every bucket holds transforms of its type only, and all of them. |
| `SecurityAssociationProofs.BucketedAll` | message/payload_securityassociation.go:73-79 | Writing bucket after bucket and regrouping returns the proposal if and only if its transforms stand in their buckets. |
| `SecurityAssociationProofs.OfTypeSnoc` | message/payload_securityassociation.go:228-241 | Appending to a bucket keeps the order within a type. |
| `SecurityAssociationPayload.SecurityAssociation.Marshal` | message/payload_securityassociation.go:45-150 | The nested loops that patch lengths in place compute the nested list. |
| `SecurityAssociationPayload.SecurityAssociation.Unmarshal` | message/payload_securityassociation.go:152-252 | The nested loops append exactly the proposals read, up to where decoding ended. |
| `SecurityAssociationPayload.SecurityAssociation.UnmarshalTransforms` | message/payload_securityassociation.go:183-244 | The loop that appends to five buckets is the partition by type of all transforms read. |
| `AkaPrimeProofs.RunKeepsInv` | eap/eap_aka_prime.go:104-486 | Over every run of SetAttr, successful or failed decoding and MAC resets, each entry keeps its own type as key and the order list, when present, lists each key exactly once. |
| `AkaPrimeProofs.EveryAttributeOnce` | eap/eap_aka_prime.go:136-181 | After every run on a new store, what is written contains each attribute exactly once. |
| `AkaPrimeProofs.StoreRoundTrip` | eap/eap_aka_prime.go:136-463 | A store of sendable attributes is read back, into any receiver, with only padding gone and the order of writing recorded. |
| `AkaPrimeUnknown.ComesBackExactly` | eap/eap_aka_prime.go:136-463 | A store whose types are all known, or whose attributes are all plain, is read back as it is if and only if it is settled: plain attributes, an order list, and, if there are unknown types, the zero attribute of type 0 as the first of them or right behind it. |
| `AkaPrimeExact.ReadBackExactly` | eap/eap_aka_prime.go:136-463 | The case of known types: read back as it is if and only if every attribute is sendable and unpadded and there is an order list. |
| `AkaPrimeUnknown.EchoedExactly` | eap/eap_aka_prime.go:136-463 | The case of plain attributes: read back if and only if the zero attribute is in its place, because the reserved bytes of an unknown type are read as an attribute of type 0. |
| `AkaPrimeUnknown.RunKeepsBare` | eap/eap_aka_prime.go:104-486 | Over every run, whatever is decoded, attributes of unknown types go on having no value and nothing in their reserved field. |
| `AkaPrimeUnknown.NotOnlySettled` | eap/eap_aka_prime.go:287-330 | A family of stores with an unknown type and an attribute that is not plain that come back without being settled. |
| `AkaPrimeReceived.WritesWhatWasRead` | eap/eap_aka_prime.go:136-463 | For any bytes that decoding accepts, if all types are known or no padding is skipped, the store writes those very bytes if and only if ignored reserved fields are zero, nothing is padded, no byte is left over, and what was read is the store's attributes in order, each once, those of unknown types followed by the zero attribute. |
| `AkaPrimeReceived.HashesWhatWasRead` | eap/eap_aka_prime.go:465-468 | From such bytes, whatever the types, the store with its MAC reset writes what was received with only the 16 MAC bytes zeroed. |
| `AkaPrimeExact.DeliveredExactly` | eap/eap_aka_prime.go:104-463 | After any calls of SetAttr on a new store, its packet delivers the last value given for each type if and only if every last value fits: AT_KDF_INPUT at most 248 or 65529 to 65535 bytes, AT_CHECKCODE a multiple of 4 of at most 252. |
| `AkaPrimeExact.KdfInputLost` | eap/eap_aka_prime.go:287-330 | An AT_KDF_INPUT between the two ranges makes the receiver skip so much that decoding fails or AT_CHECKCODE is lost. |
| `AkaPrimeProofs.LastValueDelivered` | eap/eap_aka_prime.go:496-729 | When the last values fit, the receiver holds exactly the types set, each with the last value given and without padding. |
| `AkaPrimeProofs.DeliveredExactlyWhenFits` | eap/eap_aka_prime.go:496-714 | Sent alone, an accepted value arrives unchanged with nothing left over if and only if it fits. |
| `AkaPrimeProofs.SameBytesUnderMac` | eap/eap_aka_prime.go:465-486 | After a MAC reset at both ends, sender and receiver write the same bytes if and only if no attribute carries padding. |
| `AkaPrimeProofs.OnlyMacZeroed` | eap/eap_aka_prime.go:465-468 | What is hashed and what is sent differ in the 16 bytes of the MAC only. |
| `AkaPrimeObject.EapAkaPrime.SetAttr` | eap/eap_aka_prime.go:104-121 | The store gains the attribute or, on an error, stays as it was; the invariant is kept. |
| `AkaPrimeObject.EapAkaPrime.GetAttr` | eap/eap_aka_prime.go:123-134 | The attribute under a type, or an error if there is none. |
| `AkaPrimeObject.EapAkaPrime.GetAttrsKeys` | eap/eap_aka_prime.go:470-486 | The recorded order, or the keys in increasing order. |
| `AkaPrimeObject.EapAkaPrime.Marshal` | eap/eap_aka_prime.go:136-181 | The loop over the keys writes the store. |
| `AkaPrimeObject.EapAkaPrime.Unmarshal` | eap/eap_aka_prime.go:183-463 | The reader loop leaves the store that the function gives, also when it fails part-way; the invariant is kept. |
| `AkaPrimeObject.EapAkaPrime.InitMac` | eap/eap_aka_prime.go:465-468 | Replaces or adds a zero MAC; the invariant is kept. |
| `Eap.MacAgreement` | eap/eap.go:185-214 | The sender's MAC is stored, sent and read back; both ends hash the same bytes if and only if nothing is padded, and then compute the same MAC. |
| `Eap.SenderBuiltMacAgreement` | eap/eap.go:185-214 | For every sequence of SetAttr calls whose values fit and need no padding, the receiver of the packet computes the MAC that the sender stored. |
| `Eap.SameHashedBytes` | eap/eap.go:185-214 | Sender and receiver hash equal packets if and only if no attribute carries padding. |
| `Eap.PacketRoundTrip` | eap/eap.go:103-182 | A packet that can be written is read back when it is well formed and, unless its AKA' body is strange, only then. |
| `Eap.ReceiverHashesPacket` | eap/eap.go:185-214 | For any packet as it arrives, if its AKA' attributes are clean and the store holds each once, the receiver computes the MAC over the received bytes with only the 16 MAC bytes zeroed. |
| `Eap.ExpandedRoundTrip` | eap/eap_expanded.go:36-71 | An expanded type is read back with the low 24 bits of its vendor id. |
| `EapObject.EapPacket.Marshal` | eap/eap.go:103-125 | Header, patched length and type data, or an error. |
| `EapObject.EapPacket.Unmarshal` | eap/eap.go:127-182 | What each length of input leaves in the receiver, and the type data untouched on an error. |
| `EapObject.EapPacket.CalcEapAkaPrimeAtMac` | eap/eap.go:185-214 | The first 16 bytes of the keyed hash of the packet with its MAC zeroed; the AKA' object is left with the zero MAC. |
| `Selectors.PayloadRoundTrip` | message/payload_trafficselectorinitiator.go:31-186 | Every selector list that can be written is read back. |
| `Selectors.TrafficSelectorInitiator.Marshal` | message/payload_trafficselectorinitiator.go:31-113 | The counted list of records of two sizes, or an error. |
| `Selectors.TrafficSelectorInitiator.Unmarshal` | message/payload_trafficselectorinitiator.go:115-186 | The counting loop appends exactly the selectors read. |
| `Selectors.TrafficSelectorResponder.Marshal` | message/payload_trafficselectorresponder.go:20-101 | A second body, proved equal to the same function on every input. |
| `Selectors.TrafficSelectorResponder.Unmarshal` | message/payload_trafficselectorresponder.go:103-176 | A second body, proved equal to the same function on every input. |
| `Payloads.ConfigurationRoundTrip` | message/payload_configuration.go:25-80 | A configuration is read back if and only if it has an attribute and every type is below 0x8000. |
| `Configurations.AttributesRoundTrip` | message/payload_configuration.go:25-80 | The attribute list is always read, whatever its length, and unchanged if and only if every type is below 0x8000. |
| `Configurations.Configuration.Marshal` | message/payload_configuration.go:25-44 | The loop writes type, length and value of each attribute, or fails on a long value. |
| `Configurations.Configuration.Unmarshal` | message/payload_configuration.go:46-80 | The loop appends the attributes read, with the 16-bit sum of its bounds test. |
| `Deletes.DeletionRoundTrip` | message/payload_delete.go:20-67 | A delete payload is read back, whatever stands behind it, if and only if its SPI size is 4 or it lists no SPI. |
| `Deletes.BehindIgnoredExactly` | message/payload_delete.go:57-62 | What stands behind a body in its array plays no part if and only if the body is not ragged. |
| `Deletes.ReadOnExactly` | message/payload_delete.go:57-62 | A ragged body is read the same way in two places if and only if the bytes that complete its last SPI are the same, or missing, in both. |
| `Deletes.Delete.Marshal` | message/payload_delete.go:20-40 | The loop over one reused slot writes each SPI in a slot of the stated size. |
| `Deletes.Delete.Unmarshal` | message/payload_delete.go:42-67 | Appends the SPIs read, with a short last group completed from the bytes behind the body, and leaves the receiver alone on an error. |
| `Notifications.NoticeRoundTrip` | message/payload_notification.go:21-59 | A notification is read back if and only if its SPI has at most 251 bytes. |
| `Notifications.Notification.Marshal` | message/payload_notification.go:21-38 | Header, SPI and data, or an error for a long SPI. |
| `Notifications.Notification.Unmarshal` | message/payload_notification.go:40-59 | Appends the SPI and the data read, with the 8-bit sum of its bounds test. |
| `PrfPlus.PrfPlus` | security/lib/lib.go:30-41 | Over slices with capacity, whatever capacities appending picks, the result is the first bytes of the blocks and depends on the hash's key only. |
| `PrfPlus.Round` | security/lib/lib.go:33-38 | Appending the seed to a slice that shares the stream's array never changes a byte of the stream. |
| `PrfPlus.Scratch` | security/lib/lib.go:34-34 | The scratch append yields block, seed and counter and leaves the stream's contents. |
| `PrfPlus.Append` | security/lib/lib.go:34-37 | Appends in place within the capacity, or to a new array; nothing in front of the slice's end changes. |
| `PrfPlus.OutputIsRfc` | security/lib/lib.go:30-41 | Up to 255 blocks the output is a prefix of T1, T2, ... of section 2.13 of RFC 7296, defined separately. |
| `PrfPlus.OutputPrefix` | security/lib/lib.go:30-41 | A shorter output is a prefix of a longer one. |
| `Keys.IkesaKey.GenerateKeyForIkesa` | security/security.go:214-310 | The seven keys have the required lengths and join, in the order of section 2.14 of RFC 7296, to the whole prf+ output; every hash and cipher object is keyed with its own key; failures are exactly those of missing inputs, no bytes to derive, or a refused cipher key. |
| `Keys.DeriveKeys` | security/security.go:245-289 | SKEYSEED, seed, expansion and cut. |
| `Keys.KeysUnique` | security/security.go:276-289 | Lengths and joined bytes determine the seven keys. |
| `Keys.ChildSaKey.GenerateKeyForChildSa` | security/security.go:397-454 | Appends to the four keys, in the order of section 2.17 of RFC 7296, parts of the required lengths that join to the whole prf+ output; succeeds if and only if the parts are present. |
| `Keys.EapAkaPrimePrf` | eap/eap_aka_prime.go:732-794 | The second expansion loop gives five keys of the required lengths that join to the first 208 bytes of prf+ over the same keyed hash. |
| `DiffieHellman.Agreement` | security/security.go:196-212 | For every modulus, generator and pair of secrets, a side accepts if and only if the other's power lies strictly between 1 and the modulus minus one, and two accepting sides hold the same key, as long as the modulus. |
| `DiffieHellman.SharedKeyIs` | security/dh/dh_2048_bit_modp.go:52-72 | The shared key is the generator raised to the product of the secrets, as wide as the modulus. |
| `DiffieHellman.FixedWidthRoundTrip` | security/dh/dh_2048_bit_modp.go:60-72 | Bytes with zeros in front read back as the residue they stand for. |
| `Witnesses.LongSpiLost` | message/payload_securityassociation.go:172-181 | A proposal with a 248-byte SPI is encoded and not read back. |
| `Witnesses.LengthValueLost` | message/payload_securityassociation.go:200-222 | A transform attribute in TLV form is encoded and not read back. |
| `Witnesses.WideSpiLost` | message/payload_delete.go:20-67 | A deletion with SPI size 5 is encoded and not read back. |
| `Witnesses.WideReadOn` | message/payload_delete.go:57-62 | At the end of a chain it is read with a second SPI made of what stands behind the chain. |
| `Witnesses.ShortReadOn` | message/message.go:115-192 | A Delete body with one byte for its SPI is accepted in front of an unknown payload, whose first bytes become part of the SPI. |
| `Witnesses.ShortAloneFaults` | message/message.go:115-192 | Without the unknown payload, and nothing else behind it, the same body faults. |
| `Witnesses.LongNoticeLost` | message/payload_notification.go:40-59 | A notification with a 252-byte SPI is encoded and not read back. |
| `Witnesses.KdfInputOf249Lost` | eap/eap_aka_prime.go:287-330 | An AT_KDF_INPUT of 249 bytes is accepted and not delivered. |
| `Witnesses.CheckcodeOf3Lost` | eap/eap_aka_prime.go:183-463 | An AT_CHECKCODE of 3 bytes is accepted and not delivered. |
| `Witnesses.PaddedResHashedOtherwise` | eap/eap_aka_prime.go:465-486 | Under the MAC, the receiver of a padded AT_RES writes other bytes than its sender. |

## Left out

- Chain.ChainRoundTrip: its "only then" half excludes strange AKA' bodies, those with both an unknown type and an attribute that is not in its plain form, because it is false for them; `AkaPrimeUnknown.NotOnlySettled` gives stores.
- Message.MessageRoundTrip: as Chain.ChainRoundTrip.
- Sk.SkRoundTrip: as Chain.ChainRoundTrip.
- Payloads.PayloadRoundTrip: as Chain.ChainRoundTrip.
- Eap.PacketRoundTrip: as Chain.ChainRoundTrip.
- DecodeAgain.DecodeEncodeDecodeChain: as Chain.ChainRoundTrip.
- IkeMessage.IkeMsg.Decode: the nil header that the code stores when the header does not parse is not modelled.
- AkaPrimeReceived.WritesWhatWasRead: excludes bytes with both an unknown type and skipped padding, for the same reason.
- PrfPlus.PrfPlus: requires a positive digest size, without which the loop does not end.
- Chain.SkippedExactly: leaves out chains with an SK payload, which keeps the type of the payload behind it, so that removing that payload changes it.
- AkaPrimeUnknown.ComesBackExactly: leaves out stores with both an unknown type and an attribute that is not plain, as Chain.ChainRoundTrip.
- Error texts; an error is one value.
- Capacities of slices other than in prf+ and behind a Delete body: nowhere else does the code slice past a length, except for a digest shorter than its checksum length, which no algorithm of the library has and which is a fault here.
- Whether an empty attribute map is nil.
- Identity of payload objects in a container: payloads are values there, except SK payloads, which are objects because signing patches one in place.
- Decoded payloads and SPIs are collected and appended to the receiver when the loop ends, not one by one.
- The header that a caller passes to decoding is copied, not shared.
- AES, HMAC, SHA, the big-integer library and sorting: functions with the stated laws.
- Failure of the random source and of hash writes.
- Algorithm registries, `ToProposal`, `NewIKESAKey` and the proposal constructors: finite tables.
- `message/build.go`, `NewMessage`, `NewHeader`, the flag tests and the `String` methods: they copy or compare fields.
- Generation of secrets and `CompareRootCertificate`.
