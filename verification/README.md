# A verified model of trishul-snmp

trishul-snmp is an SNMP v2c and v3 library in Python. This project models its three cores in Dafny
and proves what they are for:

1. **The wire format and the user-based security model.** BER lengths and elements, integers, object
   identifiers, values, varbinds, PDUs, v2c messages, ScopedPDUs and v3 messages; the authentication
   field that is overwritten in place at an offset the parser reports; sealing and opening at the
   three security levels; the listener's helpers; and, on top of them, a state machine in which one
   notifier discovers one listener's engine and sends it informs and traps over a network that loses,
   delays, duplicates and reorders datagrams.
2. **The responder and the subtree walk.** The sorted store kept in step with a dictionary, GETNEXT
   and GETBULK over it, the client loop that stitches answers together, also while the store changes
   between requests; the request dispatcher, alone and against the responder over an unreliable network;
   and walks over that network.
3. **The MIB registry.** Its indexes, longest-prefix lookup, the sidecar index, and translation
   between numeric and symbolic names. Notification building and reading completes the picture.

`dafny verify dfyconfig.toml` checks the whole project.

## How the model is laid out

| files | what they hold |
|---|---|
| `Wrappers`, `Octets`, `Text` | results, octet strings and big-endian numbers, decimal text |
| `Ber`, `Integers`, `Oids`, `Asn1`, `Pdus`, `Messages`, `LengthForms` | the v2c codec |
| `V3Messages`, `V3Grammar`, `Usm`, `NotifyV3`, `Listener`, `Handshake` | v3 messages, security, the listener, the two-party protocol |
| `Lex`, `Sources`, `Responder`, `Walk`, `WalkExact`, `Walking` | lexicographic order, the store, GETBULK, walks |
| `Dispatcher`, `Exchange`, `NetworkWalk` | the dispatcher's loops, the request/response protocol, and walks over it |
| `Registry`, `Translation`, `Notifications` | MIB lookup and names, notification varbinds |

The model takes the form of the program. Code that computes values is functions; objects whose methods
update fields are classes with those fields (`InMemoryObjectSource`, `UsmModel`, `RequestDispatcher`,
`V3NotificationListener`, `MibRegistry`); a loop that updates variables is a method with a loop, proved
equal to a function about which the lemmas speak. The loops that only repeat forever over a socket, and the
key expansion, are left out. Errors are values: `Outcome<T>`
holds a result or one of the program's exceptions, so that malformed input is part of every statement.

Octets are `0..255` and integers unbounded, as in Python. Where a width matters it is written out: the
12-octet tag, the 8-octet salt, `struct.pack(">I", n)`. `Fits(n)` says that a length needs at most the
127 octets BER's long form has room for; for a datagram of at most 65535 octets it is a proved fact
(`Ber.SmallFits`), which the two network models use.

MAC, key localisation and cipher are arbitrary functions. `Usm.Sound` is all that is asked of them: a
MAC has at least 12 octets and a localised key at least 16; under one key and initialisation vector of
16 octets each, decryption undoes encryption and encryption keeps the length
(`Usm.SoundIsSatisfiable` shows functions that have these properties). The random salt is a parameter.

## What turned out to be false, and when exactly it holds

- An OID outside the shared-octet domain does not survive the codec, and the encoder does not refuse
  all of them: only arcs from the third on are checked for sign, so 1.-5 is written as 0.35
  (`NegativeArcEscapes`). `OidRoundTripExactly` gives the exact domain.
- Some values are encoded but come back changed: address text with leading zeros, such as 010.0.0.1, and
  identifiers such as 1.-5 (`ZerosAreDropped`, `AlteredAnswers`, `AlteredInform`). The model gives every
  encodable value, PDU and message its normal form, and says that what arrives is the normal form, which is
  the original if and only if it is representable (`NormalValueExactly`, `NormalBodyExactly`). The
  end-to-end results (`OpenUndoesSeal`, `HandshakeIsSafe`, `ExchangeIsSafe`, `WalkOverTheNetwork`) say so.
- Unsigned contents with the top bit set are accepted, and re-encoding is then longer by one octet, as for
  FF (`UnsignedNotShorter`); `UnsignedRewrittenExactly` says when it is, and when it changes nothing.
- Padded sub-identifiers are accepted although section 8.19.2 of X.690 forbids them
  (`PaddedIsAccepted`); `CanonicalOidExactly` says which accepted contents the encoder writes.
- Where replies are opened, an authentication field longer than 12 octets passes, its first 12 octets being
  checked; section 6.3.2 of RFC 3414 asks for exactly 12, and the listener insists on it
  (`LongFieldIsOpened`). `AuthenticExactly` says what the check amounts to for every length.
- Nothing stops a caller from storing an endOfMibView value. GETBULK and the walk then stop at it,
  although larger OIDs are stored (`StoredMarkerStalls`). `BulkIteratesSuccessorExactly` and
  `WalkIsExact` give the exact condition.
- A sidecar entry that names a node at another OID makes `matched_oid + suffix` differ from the OID
  looked up; `LookupRecomposesExactly` shows that this is the only way.
- An object and a notification of one module may share a name; the name shown for the one then resolves
  to the other (`DuplicateNameMisleads`). `RoundTripsExactly` gives the exact condition for one OID, and
  `AllRoundTripExactly` and `RoundTripsUnlessShadowed` give it for all of them.
- A listener with an empty engine id answers probes with a REPORT that every notifier refuses
  (`ReportIsAccepted`).

## Model

| member | source | states |
|---|---|---|
| `Ber.DecodeTlv` | trishul_snmp/wire/ber.py:41-50 | every decoded element consumes at least two octets, ends in bounds, and its content is the slice just before its end; every other input is a ProtocolError |
| `Ber.LengthRoundTripExactly` | trishul_snmp/wire/ber.py:8-33 | a length field reads back exactly when the length needs at most 127 octets, the short and the long form alike |
| `Ber.TlvAt` | trishul_snmp/wire/ber.py:36-50 | an element written anywhere in a buffer is read there with its tag and content, and the offset lands right behind it |
| `Ber.RewrittenTlv` | trishul_snmp/wire/pdu.py:175-178 | an element that was read can be written again, in the shortest length form, and reads as the same tag and content |
| `Ber.OverwriteInside` | trishul_snmp/wire/ber.py:41-50 | overwriting octets inside an element's content leaves its tag, extent and end, and overwrites the content read in the same place |
| `Ber.OverwriteOutside` | trishul_snmp/wire/ber.py:41-50 | overwriting octets before or behind an element does not change how it is read |
| `Integers.EncodeSignedInteger` | trishul_snmp/wire/asn1.py:108-118 | the loop yields the two's-complement content, cuts at most one octet, and cuts one exactly for -128 * 256^k |
| `Integers.SignedRoundTrip` | trishul_snmp/wire/asn1.py:108-124 | every integer's encoding decodes to it and has no redundant leading octet (section 8.3.2 of X.690) |
| `Integers.SignedShortest` | trishul_snmp/wire/asn1.py:108-118 | of all contents that denote one integer the encoder's is the unique shortest, and the only one without a redundant leading octet |
| `Integers.ContentsAreRead` | trishul_snmp/wire/asn1.py:121-141 | every content but the empty one is read: by the signed decoder as the one number of its range that the octets stand for, by the unsigned one as the number they stand for |
| `Integers.UnsignedRoundTrip` | trishul_snmp/wire/asn1.py:127-141 | unsigned encoding succeeds exactly on naturals, decodes back, and reads as the same number under the signed decoder |
| `Integers.UnsignedRewrittenExactly` | trishul_snmp/wire/asn1.py:127-141 | re-encoding an accepted unsigned content lengthens it if and only if its top bit is set, by one zero octet, and leaves it alone if and only if its top bit is clear and it has no redundant zero in front |
| `Integers.UnsignedIsSigned` | trishul_snmp/wire/asn1.py:108-135 | on naturals the two encoders write the same octets, the shortest two's-complement content |
| `Oids.EncodeBase128` | trishul_snmp/wire/asn1.py:179-192 | the chunk list, reversed and marked, is the base-128 rendering whose last octet alone has no continuation bit |
| `Oids.DecodeSubIdentifier` | trishul_snmp/wire/asn1.py:195-204 | the loop reads one sub-identifier or reports truncation, as the recursive decoder does |
| `Oids.EncodeObjectIdentifier` | trishul_snmp/wire/asn1.py:144-157 | the encoder's loop and its three kinds of refusal, the Python ValueError of a head octet outside 0..255 included |
| `Oids.DecodeObjectIdentifier` | trishul_snmp/wire/asn1.py:160-176 | the decoder's loop, which ends exactly at the end of the content |
| `Oids.OidRoundTripExactly` | trishul_snmp/wire/asn1.py:144-176 | encoding then decoding is the identity if and only if the OID has two or more arcs, none negative, the first at most 2, the second below 40 under 0 and 1, and both fit one octet |
| `Oids.DecodedInDomain` | trishul_snmp/wire/asn1.py:160-176 | whatever is decoded lies in that domain |
| `Oids.HeadExactly` | trishul_snmp/wire/asn1.py:160-171 | the head octet is 40 times the first arc plus the second, the first at most 2 and the second below 40 under 0 and 1 |
| `Oids.SubIdentifierExactly` | trishul_snmp/wire/asn1.py:195-204 | a sub-identifier ends at the first octet without continuation bit and stands for the number of the lower seven bits, padded or not; without such an octet it is refused |
| `Oids.NegativeArcEscapes` | trishul_snmp/wire/asn1.py:152-155 | 1.-5 is not refused; its encoding reads as 0.35 |
| `Oids.NormalOidExactly` | trishul_snmp/wire/asn1.py:144-176 | the encoder accepts an OID if and only if it has two or more arcs, a first of at most 2, a second below 40 under 0 and 1, a head octet in 0..255 and no negative arc from the third on; what is read is its normal form, with the head octet split anew, which is the OID itself if and only if it is in the domain |
| `Oids.CanonicalOidExactly` | trishul_snmp/wire/asn1.py:160-204 | an accepted content is what the encoder writes for its OID if and only if no sub-identifier after the first starts with 0x80 (section 8.19.2 of X.690) |
| `Oids.PaddedIsAccepted` | trishul_snmp/wire/asn1.py:195-204 | a padded sub-identifier is accepted |
| `Asn1.IpRoundTripExactly` | trishul_snmp/wire/asn1.py:207-223 | address text survives the wire if and only if it is canonical dotted decimal |
| `Asn1.ContentRoundTripExactly` | trishul_snmp/wire/asn1.py:39-105 | for all thirteen kinds: a value's content decodes, under its own tag, to the value if and only if the value is representable |
| `Asn1.ValueRoundTripExactly` | trishul_snmp/wire/asn1.py:39-105 | the same for whole elements |
| `Asn1.ContentExactly` | trishul_snmp/wire/asn1.py:70-105 | a tag and content are read as a value if and only if the tag is the octet of its kind, by number, and the content denotes the value |
| `Asn1.WrittenExactly` | trishul_snmp/wire/asn1.py:39-67 | what is written starts with the octet of the kind, denotes the value in its normal form, and is shortest for numbers |
| `Asn1.NormalValueExactly` | trishul_snmp/wire/asn1.py:39-105 | every value the encoder accepts is written like its normal form and read as it, and is its own normal form if and only if it is representable |
| `Asn1.NormalIpExactly` | trishul_snmp/wire/asn1.py:207-223 | four numerals of at most 255, in any spelling, are accepted, and read as the canonical text of the same four numbers |
| `Asn1.ZerosAreDropped` | trishul_snmp/wire/asn1.py:207-223 | 010.0.0.1 is accepted and comes back as 10.0.0.1 |
| `Asn1.DecodedIsRepresentable` | trishul_snmp/wire/asn1.py:70-105 | every accepted tag and content gives a representable value of that tag |
| `Asn1.DecodeValueRewritten` | trishul_snmp/wire/pdu.py:159-160 | decoding the rewritten element equals interpreting the tag and content read |
| `Pdus.ReadVarbindList` | trishul_snmp/wire/pdu.py:139-149 | the varbind loop reads each varbind in turn and ends exactly at the end of the list, or fails with the first failure |
| `Pdus.VarbindRoundTripExactly` | trishul_snmp/wire/pdu.py:132-163 | a varbind survives if and only if its OID is in the domain and its value representable |
| `Pdus.BodyRoundTripExactly` | trishul_snmp/wire/pdu.py:67-101 | a PDU body survives if and only if every varbind is representable |
| `Pdus.NormalBodyExactly` | trishul_snmp/wire/pdu.py:67-101 | a body is written if and only if every varbind is encodable, and read as its normal form: the same numbers, every varbind in its normal form; that is the body itself if and only if every varbind is representable |
| `Pdus.DecodedBodyRepresentable` | trishul_snmp/wire/pdu.py:80-101 | every accepted body holds representable varbinds only |
| `Pdus.PduAt` | trishul_snmp/wire/pdu.py:67-101 | a PDU written inside a message is read back there, through the rewriting of its element |
| `Pdus.BodyLayout` | trishul_snmp/wire/pdu.py:67-77 | request id, error status, error index and varbind list stand in this order |
| `Pdus.PdusOnTheWire` | trishul_snmp/wire/pdu.py:67-87 | each kind of PDU is written under its own identifier octet, by number, and read under no other |
| `Messages.MessageRoundTripExactly` | trishul_snmp/wire/message.py:36-62 | encode then decode is the identity if and only if the version is 1, the community UTF-8 and every varbind representable |
| `Messages.NormalMessageIsRead` | trishul_snmp/wire/message.py:36-62 | exactly the messages with encodable varbinds are written, and those of version 1 with a UTF-8 community are read as their normal form |
| `Messages.AcceptedMessagesNormalise` | trishul_snmp/wire/message.py:47-62 | any octets that are accepted decode to a message that can be encoded, and whose encoding decodes to the same message |
| `Messages.UnwrapUndoesWrap` | trishul_snmp/security/community.py:15-22 | what one community wraps another unwraps, in its normal form, if and only if the communities agree; messages of others are passed over, not refused |
| `Text.Utf8Exactly` | trishul_snmp/wire/message.py:88-95 | a community is text if and only if it is the UTF-8 encoding of a sequence of Unicode scalar values |
| `LengthForms.DecoderReadsTheTree` | trishul_snmp/wire/message.py:47-62 | decoding the octets equals decoding the tree of tags and primitive contents, for every input that is a sequence of elements throughout |
| `LengthForms.AcceptedHasTree` | trishul_snmp/wire/message.py:47-62 | every accepted message is a sequence of elements throughout, so that it has a tree |
| `LengthForms.LengthFormIndependence` | trishul_snmp/wire/ber.py:18-50 | two encodings of one tree, whatever length forms they use at any node, are the same message or are refused alike |
| `LengthForms.SpellingHasTree` | trishul_snmp/wire/ber.py:18-33 | an encoding with any definite length form at any node, short, long, or long with any number of leading zeros, has the tree it spells |
| `LengthForms.LengthIsShortest` | trishul_snmp/wire/ber.py:8-15 | the length field written is the one shortest definite form |
| `LengthForms.AcceptedIsSpelled` | trishul_snmp/wire/ber.py:18-50 | every accepted message is one such encoding of its tree |
| `LengthForms.RespelledIsAccepted` | trishul_snmp/wire/message.py:47-62 | an accepted message spelled anew with any length forms is accepted as the same message |
| `V3Messages.OffsetPointsAtAuthParams` | trishul_snmp/wire/v3message.py:83-145 | in every accepted message the octets at the reported offset are the authentication parameters, in bounds, whatever the length forms |
| `V3Messages.ParseStability` | trishul_snmp/wire/v3message.py:83-145 | overwriting any part of that field in place gives an accepted message with the same view in every other field |
| `V3Messages.DataIsOneElement` | trishul_snmp/wire/v3message.py:122-145 | the data of every accepted message is exactly one element, an OCTET STRING if the privacy flag is set and a SEQUENCE if not |
| `V3Messages.VersionsApart` | trishul_snmp/wire/v3message.py:83-145 | no octets are accepted both as a v2c and as a v3 message |
| `V3Messages.FrameExactly` | trishul_snmp/wire/v3message.py:53-145 | an encoded message with any version, security model and data element is accepted if and only if the version is 3, the model is 3 and the data is an OCTET STRING or a SEQUENCE as the privacy flag says; then every field reads back |
| `V3Grammar.V3Exactly` | trishul_snmp/wire/v3message.py:83-145 | exactly the octets of well-formed messages are accepted, element by element, with any definite length form and integer content at any element, and each is read as what it says, the offset of the authentication parameters included |
| `V3Grammar.ScopedExactly` | trishul_snmp/wire/v3message.py:160-178 | exactly a SEQUENCE of two octet strings and one more element, and nothing behind, is read as a ScopedPDU |
| `V3Messages.V3RoundTrip` | trishul_snmp/wire/v3message.py:53-145 | an encoded v3 message reads back field by field, its data element verbatim |
| `V3Messages.ScopedRoundTrip` | trishul_snmp/wire/v3message.py:148-178 | the fields of an encoded ScopedPDU read back, for PDUs of any tag |
| `V3Messages.ScopedPduRoundTrip` | trishul_snmp/wire/v3message.py:148-178 | a ScopedPDU encodes if and only if its varbinds are encodable, and reads back to its engine, context and PDU in its normal form |
| `Usm.UsmModel.constructor` | trishul_snmp/security/usm.py:93-101 | a new model knows no peer engine and starts counting at zero |
| `Usm.UsmModel.WrapPdu` | trishul_snmp/security/usm.py:105-141 | a trap is sealed for the local engine, anything else for the cached peer engine, under a fresh message id; only a trap without a local engine fails, before the counter moves |
| `Usm.UsmModel.UnwrapMessage` | trishul_snmp/security/usm.py:143-189 | a PDU comes out if and only if the message is in the user's name, from the discovered engine if there is one, carries the right MAC if the user has authentication, and protects a ScopedPDU that holds it; nothing of the model changes |
| `Usm.UsmModel.BuildDiscoveryProbe` | trishul_snmp/security/usm.py:467-495 | takes a fresh id and sends the probe carrying it |
| `Usm.UsmModel.ParseDiscoveryResponse` | trishul_snmp/security/usm.py:497-527 | the cached peer engine changes only when a REPORT is accepted, and then to what it says |
| `Usm.FlagsMatch` | trishul_snmp/security/usm.py:264-273 | the flags state the user's level, are reportable exactly for the confirmed classes, and say nothing else |
| `Usm.StampVerifies` | trishul_snmp/security/usm.py:317-342 | stamping a field that starts with 12 zeros changes nothing but those octets, zeroing them gives back the very octets that were authenticated, and the check passes |
| `Usm.AuthenticExactly` | trishul_snmp/security/usm.py:317-342 | the check passes, for fields of every length, if and only if the field has at least 12 octets and stamping the message with those zeroed gives it back |
| `Usm.CheckIsMac` | trishul_snmp/security/usm.py:291-342 | the check passes if and only if the field has at least 12 octets and the first 12 are the first of the MAC of the whole message with them zeroed, under the empty key, the key itself if it is localised, or the key localised for the engine |
| `Usm.OpenedIsAuthentic` | trishul_snmp/security/usm.py:143-189 | whatever is opened names the user, comes from the bound engine if there is one, carries the MAC of the zeroed message if the user has authentication, and an 8-octet salt and 32-bit boots and time if the user has privacy |
| `Usm.OpenExactly` | trishul_snmp/security/usm.py:143-189 | opening yields a PDU, yields nothing, or fails to authenticate, each if and only if a condition on the octets, the MAC and the cipher holds |
| `Usm.IvLayout` | trishul_snmp/security/usm.py:395-397 | the vector exists exactly for 32-bit boots and time, and is boots, time and salt, 16 octets in all (section 3.1.2.1 of RFC 3826) |
| `Usm.KeyAndVector` | trishul_snmp/security/usm.py:395-445 | key and vector have the 16 octets AES-128 needs |
| `Usm.SealedIsRead` | trishul_snmp/security/usm.py:105-141 | a sealed message reads with the ids, flags, engine state and user it was sealed with, its tag verifies and its ScopedPDU is recovered |
| `Usm.SealedIsAuthentic` | trishul_snmp/security/usm.py:105-141 | whatever is sealed for a user with authentication carries the MAC of the message with its 12-octet field zeroed |
| `Usm.SealedIsEncrypted` | trishul_snmp/security/usm.py:382-457 | whatever is sealed with privacy is the encryption of the ScopedPDU under the first 16 octets of the localised privacy key and the vector of boots, time and the salt that travels along |
| `Usm.DecryptsExactly` | trishul_snmp/security/usm.py:407-457 | what is decrypted is the decryption of the encryptedPDU under the same key and the vector of the message's own boots, time and salt; nothing else is read |
| `Usm.EncryptErrors` | trishul_snmp/security/usm.py:346-457 | which of the two errors encryption raises, and when |
| `Usm.OpenUndoesSeal` | trishul_snmp/security/usm.py:105-189 | at all three levels opening a sealed PDU returns its normal form, for every context and engine state, unless the receiver is bound to another engine, when it returns none; the normal form is the PDU itself if and only if every varbind is representable |
| `Usm.OpenUndoesSealScoped` | trishul_snmp/security/usm.py:143-189 | the same for any flags of the user's level and any context engine |
| `Usm.SealSucceedsExactly` | trishul_snmp/security/usm.py:346-457 | sealing succeeds if and only if every varbind is encodable and privacy is off, or it is AES-128 with a key, an authentication protocol and 32-bit boots and time; the sealed message is as long as its frame |
| `Usm.OnlyReportsAreParsed` | trishul_snmp/security/usm.py:497-561 | discovery takes nothing from a message that carries a PDU of an ordinary exchange |
| `Usm.DiscoveryExactly` | trishul_snmp/security/usm.py:497-579 | discovery takes exactly REPORTs with a well-formed body and a non-empty engine id, and from them the engine they come from |
| `NotifyV3.ProbeExactly` | trishul_snmp/notify/v3.py:102-141 | a datagram is a probe if and only if it is a reportable, unprotected message without security parameters around an empty context and a GET of usmStatsUnknownEngineIDs.0 with NULL |
| `NotifyV3.ProbeIsRecognised` | trishul_snmp/security/usm.py:467-495 | the notifier's probe is recognised by the listener, with its message id and PDU |
| `NotifyV3.ReportIsAccepted` | trishul_snmp/notify/v3.py:144-167 | every recognised probe is answered, under its own message id and request id, and the notifier takes exactly the listener's engine from the answer, or refuses it exactly when that engine's id is empty |
| `NotifyV3.ReportIsParsed` | trishul_snmp/notify/v3.py:320-344 | a REPORT reads back with the probe's ids, no protection, the engine's state and the counter, and discovery accepts it (section 4 of RFC 3414) |
| `NotifyV3.ReportIsNoResponse` | trishul_snmp/security/usm.py:143-189 | opening a REPORT as a reply yields no PDU |
| `NotifyV3.SealIsAuthentic` | trishul_snmp/security/usm.py:105-141 | a sealed PDU carries its MAC, and protects exactly the ScopedPDU of the engine, context and PDU |
| `NotifyV3.NotificationIsDelivered` | trishul_snmp/notify/v3.py:50-99 | a sealed trap or inform is delivered with its PDU in its normal form, its context, engine state and level, and is never taken for a probe |
| `NotifyV3.NotificationExactly` | trishul_snmp/notify/v3.py:50-99 | an envelope is delivered, or the message passed over, each if and only if a condition on user, level, MAC, ScopedPDU, kind and reportable flag holds; the envelope holds just what the message holds |
| `NotifyV3.DeliveredIsAuthentic` | trishul_snmp/notify/v3.py:50-99 | whatever is delivered is a trap or inform of the user with representable varbinds, at exactly the user's level, reportable exactly if it is an inform, with an authentic 12-octet tag if the user has authentication |
| `NotifyV3.AckIsRead` | trishul_snmp/notify/v3.py:170-221 | the acknowledgement carries the inform's message id, the listener's engine, its MAC and the user's level, is not reportable, and protects, in the inform's context, the RESPONSE with its request id and varbinds and no error |
| `NotifyV3.AckIsAccepted` | trishul_snmp/notify/v3.py:170-221 | the notifier opens the acknowledgement as the RESPONSE with the inform's request id and varbinds in their normal form, which what was delivered already has |
| `NotifyV3.AckSucceedsExactly` | trishul_snmp/notify/v3.py:170-221 | an inform is acknowledged if and only if its varbinds are encodable and the listener can protect messages at the user's level |
| `NotifyV3.InformIsAcknowledged` | trishul_snmp/notify/v3.py:50-221 | where both sides can protect messages, an inform with encodable varbinds is sealed, delivered and acknowledged, and the acknowledgement is as long as the inform |
| `NotifyV3.LongFieldIsOpened` | trishul_snmp/security/usm.py:325-342 | a message whose authentication field is longer than 12 octets, stamped over the first 12, is opened where replies are opened and refused by the listener, whatever the further octets are |
| `Listener.V3NotificationListener.Receive` | trishul_snmp/notify/listener.py:148-187 | the loop consumes datagrams up to the first that is no probe and decodes to a notification, which it returns, or that raises; none before it does either; it sends for each what its reaction says and nothing else |
| `Listener.ReactionExactly` | trishul_snmp/notify/listener.py:148-187 | a probe is answered, a trap delivered, an inform delivered with its acknowledgement, the rest ignored or raised, each if and only if the datagram is such a one |
| `Listener.OneOutput` | trishul_snmp/notify/listener.py:148-187 | the REPORT goes to whoever probed, the acknowledgement to whoever sent the inform, and nothing else is sent |
| `Listener.TrapIsReceived` | trishul_snmp/notify/listener.py:168-175 | a sealed trap that arrives, after any datagrams that bring nothing, is what is returned, in normal form, and nothing is sent for it |
| `Listener.OneAnswerEach` | trishul_snmp/notify/listener.py:148-187 | over any sequence of datagrams: one REPORT per probe and one acknowledgement per delivered inform, nothing else |
| `Handshake.StepKeeps` | trishul_snmp/notify/listener.py:148-187 | every step of notifier, listener or network keeps the protocol's invariant |
| `Handshake.HandshakeIsSafe` | trishul_snmp/security/usm.py:467-527 | in every reachable state the notifier knows no engine or exactly the listener's; every delivery is the normal form of an issued inform or trap, in its own context, engine and level; every accepted response acknowledges the normal form of that very inform, which was delivered; and each is the original if and only if its varbinds are representable |
| `Handshake.DiscoveryCompletes` | trishul_snmp/notify/client.py:188-209 | when the probe and the REPORT arrive, the notifier's engine is the listener's |
| `Handshake.InformCompletes` | trishul_snmp/notify/client.py:188-209 | when both sides can protect messages, the varbinds are encodable and the frame fits a datagram, then the inform and its acknowledgement arriving, the inform is delivered and its acknowledgement accepted, in its normal form |
| `Handshake.TrapCompletes` | trishul_snmp/notify/client.py:211-224 | when the notifier can protect messages in its own engine's name, the varbinds are encodable and the frame fits a datagram, then the trap arriving is delivered, and nothing is sent back |
| `Handshake.AlteredInform` | trishul_snmp/wire/asn1.py:207-223 | an inform with the address text 010.0.0.1 is encoded, and delivered and acknowledged with 10.0.0.1 |
| `Lex.SubtreeIsConvex` | trishul_snmp/manager/walk.py:10-12 | what lies in order between a root and an OID below it is itself below the root |
| `Lex.BelowIsAfter` | trishul_snmp/manager/walk.py:10-12 | what lies strictly below a root comes after it in lexicographic order |
| `Lex.LessExactly` | trishul_snmp/responder/sources.py:69 | tuple order: the smaller arc at the first difference, or the shorter of two that begin alike |
| `Lex.WithinExactly` | trishul_snmp/manager/walk.py:10-12 | a subtree is the root and whatever continues it |
| `Sources.InMemoryObjectSource.BisectRight` | trishul_snmp/responder/sources.py:69 | binary search finds the number of stored OIDs not after the argument |
| `Sources.InMemoryObjectSource.LookupExact` | trishul_snmp/responder/sources.py:58-65 | the stored value or a rule's reading; found exactly for the OIDs on the sorted list, although only the dictionary is read |
| `Sources.InMemoryObjectSource.LookupNext` | trishul_snmp/responder/sources.py:67-75 | the least stored OID greater than the argument with its value, or none exactly when no greater one is stored |
| `Sources.InMemoryObjectSource.SetObject` | trishul_snmp/responder/sources.py:77-83 | inserts at its place or replaces, and keeps list and dictionary in step |
| `Sources.InMemoryObjectSource.DeleteObject` | trishul_snmp/responder/sources.py:89-96 | removes from both, or changes nothing and says so |
| `Sources.InMemoryObjectSource.RemoveOid` | trishul_snmp/responder/sources.py:95 | removes the first occurrence from the list, and only that |
| `Sources.InMemoryObjectSource.Clear` | trishul_snmp/responder/sources.py:98-101 | empties both |
| `Sources.NextIsLeastGreater` | trishul_snmp/responder/sources.py:67-75 | the entry at the bisection point is the least stored OID after the argument |
| `Sources.RunsKeep` | trishul_snmp/responder/sources.py:53-101 | after any sequence of set, delete and clear the list is strictly increasing, holds exactly the keys, and the successor lookup is right |
| `Responder.ReachedStep` | trishul_snmp/responder/server.py:227-232 | one repetition: looking up the successor of what the chain has reached yields the closed form's cell, and the chain moves on unless the cell ends the view |
| `Responder.BulkClosedForm` | trishul_snmp/responder/server.py:209-234 | the response has split + max(M,0)*R varbinds; the first split are single successors, and the one at split + i*R + c is cell i of repeater c (section 4.2.3 of RFC 3416) |
| `Responder.BulkIteratesSuccessorExactly` | trishul_snmp/responder/server.py:226-232 | cell i shows the (i+1)-fold successor, or endOfMibView named by the last OID of the exhausted chain, if and only if no end-of-view marker is stored among the OIDs the chain passes, the store's last one excepted |
| `Responder.StoredMarkerStalls` | trishul_snmp/responder/server.py:231 | a stored end-of-view marker stops a repeater although a larger OID is stored |
| `Responder.AnswersByKind` | trishul_snmp/responder/server.py:149-200 | which requests are answered; every answer echoes the request id; GET names what was asked with the stored value or noSuchObject; SET is refused as notWritable with its own varbinds and index 0 or 1 |
| `Responder.NextAnswers` | trishul_snmp/responder/server.py:156-160 | every varbind of a GETNEXT answer is the least greater stored OID with its value, or endOfMibView under the name asked for when there is none |
| `Responder.BulkAnswers` | trishul_snmp/responder/server.py:162-168 | a GETBULK answer takes non-repeaters and max-repetitions from the request's error status and index: it has split + max(M,0)*R varbinds, and the first split are single successors |
| `Responder.BulkAnswerCell` | trishul_snmp/responder/server.py:222-232 | the varbind at split + i*R + c of a GETBULK answer shows the (i+1)-fold successor of repeater c if and only if no end-of-view marker is among the OIDs passed, the last of the store excepted |
| `Responder.AnswersAreAddressed` | trishul_snmp/responder/server.py:104-120 | the responder is silent exactly on malformed messages, communities not allowed, and PDUs that are no request; it raises exactly when the answer is not encodable; what it sends reads, in the request's community, as the normal form of the answer, which is the answer itself if and only if its varbinds are representable |
| `Responder.AlteredAnswers` | trishul_snmp/responder/server.py:149-200 | stored address text 010.0.0.1 and a stored identifier 1.-5 are answered as such, and read as 10.0.0.1 and 0.35 |
| `Responder.V2cResponder.LookupExactVarbinds` | trishul_snmp/responder/server.py:151-153 | one exact lookup for every requested OID, in order |
| `Responder.V2cResponder.LookupNextVarbinds` | trishul_snmp/responder/server.py:157-159 | one successor lookup for every requested OID, in order |
| `Responder.V2cResponder.Repeat` | trishul_snmp/responder/server.py:228-232 | the inner loop appends one row of the closed form and advances exactly the chains that have not ended |
| `Responder.V2cResponder.BuildBulkVarbinds` | trishul_snmp/responder/server.py:209-234 | the nested loops, with the negative counts clamped, compute the closed form |
| `Responder.V2cResponder.BuildResponsePdu` | trishul_snmp/responder/server.py:149-178 | the answer to each kind of request, or none |
| `Walk.StepIsLookups` | trishul_snmp/manager/walk.py:27-51 | consuming one GETBULK answer of M cells equals M single successor lookups from the current OID |
| `Walk.WalkIsSound` | trishul_snmp/manager/walk.py:27-53 | whatever happens to the store between requests, the OIDs returned are strictly increasing and strictly below the root, and each was stored, with the value returned, when its request was answered |
| `Walk.WalkIsComplete` | trishul_snmp/manager/walk.py:27-53 | a finished walk has returned every OID below the root that was stored at each request, no marker being in the way |
| `WalkExact.WalkIsExact` | trishul_snmp/manager/walk.py:15-53 | on an unchanged store a walk is finished after exactly floor(k/M)+1 requests, has then found the k consecutive stored OIDs from the root on, and these are all that lie strictly below the root if and only if none of them stores an end-of-view marker |
| `WalkExact.RequestCount` | trishul_snmp/manager/walk.py:27-31 | a walk issues exactly floor(k/M)+1 requests for its k results, M being max-repetitions for GETBULK and 1 for GETNEXT |
| `WalkExact.BulkWalkEqualsNextWalk` | trishul_snmp/manager/walk.py:28-31 | GETNEXT and GETBULK walks of one store, with any numbers of repetitions, return the same OIDs |
| `Walking.UpdatedResponder.Update` | trishul_snmp/responder/server.py:122-132 | a batch of updates through the store's methods has the effect of the commands one after the other |
| `Walking.UpdatedResponder.Request` | trishul_snmp/responder/server.py:104-120 | applies the next batch of updates, then answers the walk's request from the store as it is |
| `Walking.RankGrows` | trishul_snmp/manager/walk.py:37-51 | an answer that does not end the walk moves it strictly towards the end of the store |
| `Walking.FinishedWalk` | trishul_snmp/manager/walk.py:27-53 | what a finished walk under updates guarantees: increasing, below the root, nothing missed that was stored throughout |
| `Walking.WalkSubtree` | trishul_snmp/manager/walk.py:15-53 | the two loops terminate against every script of updates, and return what the walk over the stores that answered returns, so soundness, completeness and the number of requests hold of the result |
| `Dispatcher.RequestDispatcher.PrepareRequest` | trishul_snmp/transport/dispatcher.py:38-58 | every request takes a fresh id, even one that cannot be encoded |
| `Dispatcher.JudgeExactly` | trishul_snmp/transport/dispatcher.py:115-125 | a datagram is the answer, ends the wait with ProtocolError, or is passed over, each if and only if a condition on its community, PDU kind and request id holds |
| `Dispatcher.RequestDispatcher.ReceiveMatchingResponse` | trishul_snmp/transport/dispatcher.py:115-125 | datagrams of other communities and other requests are discarded, and the first other one decides: accepted, refused, or the wait expired |
| `Dispatcher.RequestDispatcher.SendPreparedRequest` | trishul_snmp/transport/dispatcher.py:68-79 | result and number of copies are those of the event-by-event account `Await`; between one and retries+1 identical copies are sent, a timeout is raised only after exactly retries+1, and a response returned was carried by a datagram that arrived |
| `Exchange.ResponseIsRead` | trishul_snmp/transport/dispatcher.py:115-125 | the responder's answer is accepted exactly by the request with its id, as the normal form of what was built |
| `Exchange.ClientStepKeeps` | trishul_snmp/transport/dispatcher.py:115-125 | a late answer to an earlier request is never returned for a later one |
| `Exchange.ServerStepKeeps` | trishul_snmp/responder/server.py:104-120 | what the responder sends, altered by the wire or not, is its answer to a request that was issued, computed from the store it has |
| `Exchange.TimesKeeps` | trishul_snmp/transport/dispatcher.py:68-79 | an expired wait puts one more copy on the network, or ends the request when retries+1 are there |
| `Exchange.ClientIsDispatcher` | trishul_snmp/transport/dispatcher.py:68-125 | the machine's client ends a request with the result, and at the cost of the copies, that `SendPreparedRequest` computes on the same events |
| `Exchange.ExchangeIsSafe` | trishul_snmp/transport/dispatcher.py:36-79 | in every reachable state every PDU returned is the normal form of the honest responder's answer to that very request, as the wire carries it, from a store it had after the request was issued, and the answer itself if and only if its varbinds are representable; every datagram the client handed to the network is the encoding of an issued request, at most retries+1 of them for each, and exactly that many for each request that timed out |
| `Exchange.ExchangeCompletes` | trishul_snmp/transport/dispatcher.py:36-79 | when nothing is lost, an encodable request of an allowed community, whose answer is encodable, is sent, answered and returned from, provided both fit a datagram |
| `NetworkWalk.FollowIsRun` | trishul_snmp/manager/client.py:93-129 | a walk whose answers cross the network is the walk over the stores the answers were computed from, its results in their normal form |
| `NetworkWalk.WalkOverTheNetwork` | trishul_snmp/manager/walk.py:27-53 | end to end, over an unreliable network and a changing store: the walk returns strictly increasing OIDs strictly below the root, each stored with the value returned, up to its normal form, after its request was issued; a finished walk has returned every OID stored ever since it began |
| `Registry.MibRegistry.constructor` | trishul_snmp/mib/registry.py:86-103 | the nested loops fill the two indexes, later nodes replacing earlier ones |
| `Registry.MibRegistry.LookupOid` | trishul_snmp/mib/registry.py:117-151 | the exact lookup and the descending scan find what the longest-prefix function finds |
| `Registry.IndexIsFaithful` | trishul_snmp/mib/registry.py:93-101 | the indexes hold listed nodes only, at their own OIDs and names, and miss none |
| `Registry.LookupFindsLongestPrefix` | trishul_snmp/mib/registry.py:117-151 | the lookup fails if and only if no non-empty prefix is known, and otherwise splits the OID behind the longest known one and tells the name, type and kind of its node |
| `Registry.LookupRecomposesExactly` | trishul_snmp/mib/registry.py:117-151 | matched OID and suffix make up every OID looked up if and only if each resolving sidecar entry names a node at its own key |
| `Registry.AcceleratorAgrees` | trishul_snmp/mib/registry.py:191-195 | a consistent sidecar changes neither success, matched OID nor suffix, nor the node when no two nodes share an OID |
| `Translation.OidTextRoundTrip` | trishul_snmp/mib/registry.py:22-55 | the text of a non-empty OID is numeric, parses back to it, and holds digits and dots only |
| `Translation.OidTextExactly` | trishul_snmp/mib/registry.py:26-55 | a text is numeric, and is parsed, if and only if it is numerals separated by single dots with white space around and any number of dots in front; it is parsed to just those numbers, and everything else is an invalid OID |
| `Translation.SurroundedTextIsParsed` | trishul_snmp/mib/registry.py:26-55 | the text of an OID is parsed to it whatever white space and leading dots surround it |
| `Translation.SymbolicExactly` | trishul_snmp/mib/registry.py:58-74 | a text is a symbolic target if and only if it is a module, :: where it first occurs, a symbol without dots, and, behind a dot, the text of an OID; it is split into just these, and everything else is an unknown symbol |
| `Translation.OidIsTranslated` | trishul_snmp/mib/registry.py:153-170 | a text that spells an OID is translated like the OID, whatever surrounds it |
| `Translation.SymbolIsTranslated` | trishul_snmp/mib/registry.py:109-115 | a text that spells a symbol is translated to the OID of the node of that name, with the suffix, or is unknown |
| `Translation.OtherTextIsRefused` | trishul_snmp/mib/registry.py:153-161 | every other text is refused: blank text as such, text with :: as an unknown symbol, other text as an invalid OID |
| `Translation.SymbolicParses` | trishul_snmp/mib/registry.py:58-74 | a symbolic name splits into the module, symbol and suffix it was made of |
| `Translation.AliasExactly` | trishul_snmp/mib/registry.py:197-219 | the alias policy applies if and only if an OBJECT IDENTIFIER found itself ends in 0 right below a scalar, and then shows the scalar's name with .0 |
| `Translation.DisplayedNodeIsListed` | trishul_snmp/mib/registry.py:163-170 | what is displayed for a known OID is the name of a listed node whose own OID plus the suffix shown is the OID, also where the alias policy rewrites the match |
| `Translation.RoundTripsExactly` | trishul_snmp/mib/registry.py:153-161 | a known OID is translated to its display name and back to itself if and only if the name shown resolves to the OID matched |
| `Translation.AllRoundTripExactly` | trishul_snmp/mib/registry.py:153-170 | every known OID makes the round trip if and only if every node that is shown for some OID is, up to its OID, the one its own module and name resolve to |
| `Translation.RoundTripsUnlessShadowed` | trishul_snmp/mib/registry.py:98-101 | the same in terms of the listing: no entry that is the last of its OID, and is shown, is followed by an entry of its module and name with another OID; so it holds whenever names are unique (`TranslationRoundTrip`) |
| `Translation.DuplicateNameMisleads` | trishul_snmp/mib/registry.py:98-101 | with one name for an object and a notification the name shown resolves to the other one |
| `Notifications.BuildNotificationVarbinds` | trishul_snmp/notify/client.py:235-263 | the two standard varbinds, then every explicit varbind that is no well-typed override, at the place that counts those before it; refused exactly for a negative uptime |
| `Notifications.UptimeIsLastOverride` | trishul_snmp/notify/client.py:247-263 | the uptime sent is that of the last TimeTicks varbind named sysUpTime.0, or the argument if there is none |
| `Notifications.TrapOidIsLastOverride` | trishul_snmp/notify/client.py:247-263 | likewise for the notification OID |
| `Notifications.BuildMemberBindings` | trishul_snmp/notify/events.py:313-332 | each varbind of another name than the two standard ones is bound to the member whose place counts those before it, and the members beyond their number are unbound |
| `Notifications.ExtractedIsFirst` | trishul_snmp/notify/events.py:263-277 | the first TimeTicks varbind named sysUpTime.0, and the first OID varbind named snmpTrapOID.0, decide; there is none exactly when no such varbind exists |
| `Notifications.EventExactly` | trishul_snmp/notify/events.py:212-232 | exactly traps and informs make events, with their request id and all their varbinds |
| `Notifications.NotificationIsReadBack` | trishul_snmp/notify/events.py:263-277 | the first two varbinds are sysUpTime.0 and snmpTrapOID.0 (section 4.2.6 of RFC 3416), the event's uptime and notification OID are those meant, and each member is bound to the explicit varbind of another name that has as many such before it |
| `Notifications.NotificationSurvivesTheWire` | trishul_snmp/notify/events.py:183-209 | a notification is sent through the v2c codec if and only if its varbinds are encodable, and the receiver's event has its varbinds and OID in their normal form and its uptime |

## Left out

- Ber.LengthOctets: for lengths of 256^127 and more the count octet would not fit its seven bits, and from 256^255 on Python refuses to build it; the round trips ask for `Fits`, which every datagram meets.
- Ber.TlvAt: for a content that fits 127 length octets, as all contents that can exist in memory do.
- Translation.PrintResolved: negative arcs, which the bundle loader refuses, are an error here and not printed with their sign.
- Text: decimal text is ASCII digits and white space is ASCII; the signs, underscores, surrounding blanks and non-ASCII digits that Python's `int` and `isdigit` treat specially are not modelled.
- Translation.OidTextExactly: under this restriction of text; Python's `int` also takes `+1`, `1_0` and blanks around a single arc, which are refused here.
- Asn1.EncodeIpAddress: likewise.
- Messages.Message: communities, and user names in v3, are held as UTF-8 octets; text with lone surrogates, which Python cannot encode, does not occur.
- Usm.Sound: hash, HMAC, AES and the key expansion are functions with these properties only; nothing is said about forgery by an attacker.
- Usm.EncryptScoped: DES, and installations without the cryptography package, only raise; the salt drawn from the operating system is a parameter.
- Handshake.InformCompletes: completion is shown when nothing is lost; a frame of more than 65535 octets, which a socket would refuse, is not sent in the model.
- Handshake: one notifier and one listener with one user; the notifier's retries of an inform are further copies of its datagram, which the network may make anyway.
- Listener.V3NotificationListener.Receive: the event built from the envelope is in `Notifications` for its standard varbinds; metadata lookup and display are not modelled. The v2c listener and its acknowledgement are not modelled.
- Responder.HandleDatagram: one datagram at a time; `serve` and `handle_request` repeat it forever over a socket. The set of allowed communities is taken as normalised, without the empty one.
- Simulation rules: a stored rule yields an arbitrary value other than endOfMibView at each read; walks and GETBULK speak about its OID only.
- Sources.InMemoryObjectSource.SetObject: the parsing of targets through a bundle, `set_objects` and `from_bundle` are not modelled; `CallbackObjectSource` delegates to code that cannot be seen.
- Exchange.ServerStep: an answer that cannot be encoded, such as one with a negative counter, raises out of the responder's loop; in the model nothing is sent and the responder goes on. Answers that the wire alters are sent.
- Exchange.Send: a datagram of more than 65535 octets is logged as sent but does not travel; a socket would refuse it.
- Exchange.ExchangeIsSafe: over a community security model, with requests one after the other as the client's lock makes them; timeouts are steps that may happen at any time, so nothing is said about how long a request takes.
- Walking.WalkSubtree: the store changes between requests, not while one is answered.
- NetworkWalk.WalkOverTheNetwork: for OIDs without negative arcs, which `parse_oid` lets neither into a store nor into a walk; that a walk over a lossy network finishes is not claimed.
- Registry.MibRegistry: the type index, `resolve_type`, class names and descriptions, and the loading and checking of bundles are not modelled; nodes come as listed, in iteration order.
- Notifications.BuildNotificationVarbinds: takes normalised OIDs; the normalisation of targets is the registry's.
- Sockets, asyncio, address resolution, `send_raw_and_receive`, the session objects, value display, error-status labels, and the command line are not modelled.
