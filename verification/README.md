# Verified model of the SNMP stack's core

This project models the parts of the stack under `Firmware/Core` that turn management data into
octets and back and that keep track of messages and names, and proves what they are for:

- **BER codec** (`Bytes`, `Tags`, `Ber`, `ReverseBuffer`, `ReverseEncode`, `ReverseInt64`,
  `ReverseReals`, `ForwardBuffer`, `ForwardEncode`, `ForwardInt64`, `ForwardReals`, `ForwardOid`,
  `ParseSpec`, `Parsers`, `RoundTrip`). Every ASN.1 type has a forward builder, a reverse builder that fills a growable
  buffer from its top end, and a parser. The builders and parsers are methods with the loops,
  registers and buffers of `Asn01.c`, each proved against a function of its input; the lemmas are
  about those functions: minimality and uniqueness (X.690 sections 8.1.3, 8.3 and 8.19), agreement
  of the two builders, round trips with their exact domains, and exact consumption.
- **Varbinds, PDUs and scoped PDUs** (`PduSpec`, `PduRoundTrip`, `ScopedPdu`, `VarList`,
  `ReversePdu`, `RingCache`, `ReverseMessage`, `ForwardMessage`, `Agreement`, `PduParser`,
  `VarClone`; section 3 of RFC 3416). The reverse PDU builder goes backwards through a singly
  linked list with a 50-slot ring; the forward builder patches four-octet headers; the parser
  builds the list.
- **Stream reassembly** (`Framing`, `Stream`; section 8 of RFC 3417 for the message form), and built
  messages going through it (`Delivery`).
- **The order of names** (`OidOrder`, `OidCompare`) and **the OID stash** (`OidStash`,
  `OidStashNext`, `OidStashWalk`), a trie on the heap with hashed slots, sibling chains and parent
  pointers, proved to be a map with a successor search.
- **Outstanding requests** (`MessageIds`, `Requests`): a linked queue with a tail pointer, retry
  counts and wrapping message ids, over all runs of sends, responses, reports and timeouts.
- **Table indexes** (`IndexSpec`, `Index`; section 7.7 of RFC 2578) and **the subtree walk**
  (`Walk`; section 4.2.2 of RFC 3416).

Conventions. `long` and `size_t` have 64 bits, `int`, `oid` and `u_int` 32, and the host is
little-endian; wrap-around, truncation and masks are written out. A float or double is its IEEE 754
bit pattern, whose bits the code moves and never computes with. A data pointer is the sequence of octets from it on, and a read past the
end counts as failure. Allocation succeeds. What a call into the environment gave (octets received,
whether a packet could be built or sent, what a callback returned, a clock, an agent's status, an
uninitialised variable) is a parameter over which every statement quantifies.

Where the code and its comments differ, the model follows the code: a clone stops after 10000
varbinds (`VarClone.CloneIsExact`); `OidStash_addData` answers a missing argument like existing data
(`OidStash.h` promises a different code); `OidStash_getNextNode` is a GetNext only for some names
(`OidStashWalk.NextOfMissing`); `Asn_checkPacket` truncates to `int` (`Framing.CheckPacketExact`);
the second sub-identifier of a name may be 40 for the builders, but does not survive
(`RoundTrip.OidRoundTrip`); the reverse builder takes an empty BIT STRING, which the forward builder
and the parser refuse (`RoundTrip.BitstringRoundTrip`); the float and double parsers return a pointer
in front of the content (`RoundTrip.FloatRoundTrip`); a PDU repaired after an error lacks more than the
varbind at fault beyond 10000 (`VarClone.FixDropsOne`); an IpAddress index comes back with its octets
in the other order (`IndexSpec.IndexRoundTrip`); a walk given several varbinds leaves the last answers
for the others behind its results (`Walk.QueryWalk`).

## Model

| member | source | states |
|---|---|---|
| Ber.TwosUnique | Firmware/Core/Asn01.c:1655-1714 | an octet string meeting the minimality rule of X.690 section 8.3.2 is the one content its value has, so no two minimal encodings of a number exist |
| Ber.TwosMinimal | Firmware/Core/Asn01.c:1655-1714 | the INTEGER content always meets that rule |
| Ber.TwosValue | Firmware/Core/Asn01.c:147-192 | the INTEGER content, read as two's complement, denotes the number it was made from |
| Ber.TwosLength | Firmware/Core/Asn01.c:1655-1714 | the content has at most k octets exactly when the number fits k octets of two's complement |
| Ber.ShiftLoopIsMinimal | Firmware/Core/Asn01.c:1655-1714 | the octets shifted out until only the sign is left, with the sign octet the builder adds when needed, are the minimal content |
| Ber.DropSign | Firmware/Core/Asn01.c:241-289 | the forward builders' step of dropping a redundant leading octet keeps the value and shifts the register by eight bits |
| Ber.SubIdUnique | Firmware/Core/Asn01.c:1837-1944 | the base-128 octets of a sub-identifier are the only ones X.690 section 8.19.2 allows for its value |
| Ber.EncSubIdWellFormed | Firmware/Core/Asn01.c:1837-1944 | they follow that rule (bit 8 on all but the last, no leading 0x80) and denote the sub-identifier |
| Ber.SubIdOctets | Firmware/Core/Asn01.c:723-863 | the size thresholds of the forward builder's table cut the 32-bit sub-identifiers exactly where one more octet is needed |
| Ber.OidContentsAgree | Firmware/Core/Asn01.c:744-759 | the forward and the reverse OID content agree if and only if the name has at least two sub-identifiers or is the single 0 |
| ReverseBuffer.Packet.Realloc | Firmware/Core/Asn01.c:1555-1578 | growing the buffer keeps the octets built so far at its top end and fills the rest with blanks |
| ReverseBuffer.Packet.PutAll | Firmware/Core/Asn01.c:1716-1768 | the octets end up in front of what was built before, through any number of reallocations; it fails only when it may not grow and they do not fit |
| ReverseEncode.RbuildLength | Firmware/Core/Asn01.c:1580-1631 | leaves the definite-form length octets in front of the previous content |
| ReverseEncode.BuildHeader | Firmware/Core/Asn01.c:1633-1653 | leaves identifier and minimal length in front of the previous content |
| ReverseEncode.RbuildTwos | Firmware/Core/Asn01.c:1655-1714 | the shift-right loop and the sign fix leave exactly the minimal two's complement content in front |
| ReverseEncode.RbuildInt | Firmware/Core/Asn01.c:1655-1714 | prepends the complete INTEGER encoding of the value reduced by the 32-bit macro |
| ReverseEncode.RbuildUnsignedInt | Firmware/Core/Asn01.c:1770-1827 | the same for the unsigned types, whose content never reads as negative |
| ReverseEncode.RbuildString | Firmware/Core/Asn01.c:1716-1768 | prepends the complete encoding of an octet string |
| ReverseEncode.RbuildBitstring | Firmware/Core/Asn01.c:1964-2021 | prepends the complete encoding of a bit string, also of an empty one |
| ReverseEncode.RbuildNull | Firmware/Core/Asn01.c:1946-1962 | prepends the complete encoding of a NULL |
| ReverseEncode.RbuildSubId | Firmware/Core/Asn01.c:1881-1924 | the loop that emits seven bits at a time from the low end leaves the base-128 octets of the sub-identifier |
| ReverseEncode.RbuildObjid | Firmware/Core/Asn01.c:1837-1944 | prepends the complete OBJECT IDENTIFIER encoding for exactly the names whose first two sub-identifiers pass the checks, and fails for the others |
| ReverseInt64.HalvesShiftedOut | Firmware/Core/Asn01.c:2179-2295 | the octets of the low half padded to four and then those of the high half are the octets of the 64-bit value |
| ReverseInt64.LowHalfAlone | Firmware/Core/Asn01.c:2179-2295 | when the high half is only sign, the octets of the low half alone are the octets of the 64-bit value |
| ReverseInt64.RbuildUnsignedInt64 | Firmware/Core/Asn01.c:2023-2177 | from two 32-bit halves, prepends the minimal encoding of the 64-bit value, plain or as a special value wrapped in an Opaque |
| ReverseInt64.RbuildSignedInt64 | Firmware/Core/Asn01.c:2179-2295 | the same for the signed 64-bit type |
| ReverseInt64.Content64Length | Firmware/Core/Asn01.c:2023-2177 | an unsigned 64-bit content has 1 to 9 octets and a signed one 1 to 8, so a wrapped value always fits the short Opaque |
| ReverseReals.RbuildFloat | Firmware/Core/Asn01.c:2297-2353 | prepends a float as a special value wrapped in an Opaque, its four octets most significant first; fails only when it may not grow and the nine octets do not fit |
| ReverseReals.RbuildDouble | Firmware/Core/Asn01.c:2355-2414 | the same for a double, the upper of its two words first |
| ForwardEncode.ForwardLengthAgrees | Firmware/Core/Asn01.c:575-621 | the forward and the reverse length octets are the same if and only if the length is at most 0xFFFF |
| ForwardEncode.Strip | Firmware/Core/Asn01.c:241-289 | shifting out octets while the top nine bits are all equal leaves the minimal content in the register's top octets |
| ForwardEncode.BuildInt | Firmware/Core/Asn01.c:241-289 | appends the INTEGER encoding and lowers the room by its size; fails only for lack of room |
| ForwardEncode.BuildUnsignedInt | Firmware/Core/Asn01.c:291-357 | the same for the unsigned types |
| ForwardEncode.BuildString | Firmware/Core/Asn01.c:415-459 | the same for octet strings |
| ForwardEncode.BuildBitstring | Firmware/Core/Asn01.c:943-971 | the same for bit strings, except that an empty one is refused |
| ForwardInt64.PairShiftValue | Firmware/Core/Asn01.c:1240-1309 | one shift of both registers by eight bits multiplies the 64-bit value by 256 modulo 2^64 |
| ForwardInt64.StripHalves | Firmware/Core/Asn01.c:1240-1309 | the two-register strip loop finds the minimal content of the 64-bit value |
| ForwardInt64.BuildUnsignedInt64 | Firmware/Core/Asn01.c:1045-1160 | appends the minimal encoding of the 64-bit value, plain or wrapped |
| ForwardInt64.BuildSignedInt64 | Firmware/Core/Asn01.c:1240-1309 | the same for the signed type |
| ForwardReals.BuildFloat | Firmware/Core/Asn01.c:1378-1428 | appends a float wrapped in an Opaque; fails only for lack of room |
| ForwardReals.BuildDouble | Firmware/Core/Asn01.c:1500-1553 | the same for a double |
| ForwardOid.SizeIsExact | Firmware/Core/Asn01.c:779-805 | the octet count the size pass assigns to a sub-identifier is the number of its base-128 octets |
| ForwardOid.BuildObjid | Firmware/Core/Asn01.c:723-863 | appends the OBJECT IDENTIFIER encoding for the names it accepts, and fails for the others or for lack of room |
| ParseSpec.ParseLength | Firmware/Core/Asn01.c:2533-2582 | a length parsed consumed at least one octet, none past the memory, and is below 2^63 |
| ParseSpec.ParseHead | Firmware/Core/Asn01.c:2449-2471 | after the length check header and content lie within the count the caller gave |
| ParseSpec.ParseInt | Firmware/Core/Asn01.c:147-192 | a parsed INTEGER advanced by at least one octet and by no more than the count, `*datalength` is lowered by exactly that, and the value fits the range of the 32-bit macro |
| ParseSpec.ParseUnsignedInt | Firmware/Core/Asn01.c:194-239 | a parsed unsigned value advanced by at least one octet and by no more than the count, and `*datalength` is lowered by exactly that |
| ParseSpec.ParseString | Firmware/Core/Asn01.c:359-413 | the same for a parsed string, which fits the buffer |
| ParseSpec.ParseUnsignedInt64 | Firmware/Core/Asn01.c:973-1043 | the same for a parsed 64-bit value, plain or inside an Opaque |
| ParseSpec.ParseSignedInt64 | Firmware/Core/Asn01.c:1162-1238 | the same for a parsed signed 64-bit value |
| ParseSpec.ParseBitstring | Firmware/Core/Asn01.c:904-941 | the same for a parsed bit string, which is never empty |
| ParseSpec.ParseFloat | Firmware/Core/Asn01.c:1311-1376 | for a parsed float `*datalength` is lowered by four octets more than the pointer advanced: it stands in front of the content |
| ParseSpec.ParseDouble | Firmware/Core/Asn01.c:1430-1498 | the same for a parsed double, with eight octets |
| ParseSpec.ParseObjid | Firmware/Core/Asn01.c:623-721 | the same for a parsed object identifier |
| ParseSpec.ParseHeader | Firmware/Core/Asn01.c:461-517 | a parsed header, also of a special value inside an Opaque, announces content within the count |
| ParseSpec.ParseSequence | Firmware/Core/Asn01.c:519-533 | the same for a header of the expected type |
| Parsers.ReadLength | Firmware/Core/Asn01.c:2533-2582 | the octet loop computes the base-256 value and refuses what the specification refuses; `*length` keeps its old value for a refused number of length octets, and is set for every other |
| Parsers.ReadInt | Firmware/Core/Asn01.c:147-192 | the sign-extending loop computes the two's complement value of the content, and the new `*datalength`, computed as the code does, is the old one less the octets advanced |
| Parsers.ReadUnsignedInt | Firmware/Core/Asn01.c:194-239 | the same loop in an unsigned register computes that value modulo 2^32, with the same new count |
| Parsers.ReadString | Firmware/Core/Asn01.c:359-413 | takes exactly the content octets, and only when they fit the buffer, with the same new count |
| Parsers.AccumulatePair | Firmware/Core/Asn01.c:973-1043 | shifting two 32-bit registers octet by octet gives the halves of the value modulo 2^64 |
| Parsers.AccumulateSignedPair | Firmware/Core/Asn01.c:1162-1238 | so it does from registers preset with the sign, for the signed value |
| Parsers.ReadUnsignedInt64 | Firmware/Core/Asn01.c:973-1043 | parses plain and wrapped 64-bit values as specified, with every refusal and the new count |
| Parsers.ReadSignedInt64 | Firmware/Core/Asn01.c:1162-1238 | the same for the signed type, including the sign registers an empty content leaves behind |
| Parsers.ReadBitstring | Firmware/Core/Asn01.c:904-941 | takes exactly the content octets, and only when there are some and they fit the buffer |
| Parsers.ReadFloat | Firmware/Core/Asn01.c:1311-1376 | parses a float, wrapped in an Opaque or bare, as specified, with every refusal |
| Parsers.ReadDouble | Firmware/Core/Asn01.c:1430-1498 | the same for a double, swapping its words |
| Parsers.ReadSubId | Firmware/Core/Asn01.c:664-684 | the inner loop stops at the first octet without bit 8 and computes the base-128 value modulo 2^64 |
| Parsers.ReadSubIds | Firmware/Core/Asn01.c:661-690 | the outer loop stores exactly the decoded sub-identifiers, and fails for a truncated one, one of 2^32 or more, or more than fit |
| Parsers.ReadObjid | Firmware/Core/Asn01.c:623-721 | parses an object identifier into the array as specified, splitting the first sub-identifier in two, with the new count |
| Parsers.ReadHeader | Firmware/Core/Asn01.c:461-517 | parses headers as specified, looking inside an Opaque for special values |
| RoundTrip.LengthRoundTrip | Firmware/Core/Asn01.c:2533-2582 | reverse-built length octets of n parse back to n exactly when n is below 2^63, whatever follows |
| RoundTrip.HeadRoundTrip | Firmware/Core/Asn01.c:1633-1653 | a built header parses back to its tag and length, and the content follows it |
| RoundTrip.IntRoundTrip | Firmware/Core/Asn01.c:147-192 | a built INTEGER parses to the value the 32-bit macro leaves after both ends applied it, and all of it is consumed |
| RoundTrip.IntSurvives | Firmware/Core/Asn01.c:11-28 | that value is the original if and only if it lies in [-2^31, 2^32-1] |
| RoundTrip.UnsignedRoundTrip | Firmware/Core/Asn01.c:194-239 | a built unsigned value parses back to itself if and only if it is below 2^32 |
| RoundTrip.StringRoundTrip | Firmware/Core/Asn01.c:359-413 | a built octet string that fits the receiver's buffer parses back to itself |
| RoundTrip.Unsigned64RoundTrip | Firmware/Core/Asn01.c:973-1043 | a built unsigned 64-bit value parses back to the same two halves |
| RoundTrip.Signed64RoundTrip | Firmware/Core/Asn01.c:1162-1238 | a built signed 64-bit value parses back to the same two halves |
| RoundTrip.BitstringRoundTrip | Firmware/Core/Asn01.c:904-941 | a built bit string that fits the buffer parses back to itself if and only if it is not empty |
| RoundTrip.FloatRoundTrip | Firmware/Core/Asn01.c:1311-1376 | every bit pattern of a float parses back to itself; the pointer returned stands four octets in front of the end |
| RoundTrip.DoubleRoundTrip | Firmware/Core/Asn01.c:1430-1498 | the same for a double, with eight octets |
| RoundTrip.SubIdsRoundTrip | Firmware/Core/Asn01.c:661-690 | the base-128 octets of any sub-identifiers decode to them when there are slots for all, and to an error otherwise |
| RoundTrip.OidParsesTo | Firmware/Core/Asn01.c:623-721 | what a built object identifier parses to, for every one that can be built, also of length 0 and 1 |
| RoundTrip.OidRoundTrip | Firmware/Core/Asn01.c:623-721 | it parses back to itself if and only if it has 2 to 128 sub-identifiers and the second is below 40 (first 0 or 1) or below 2^32-80 (first 2) |
| PduSpec.ParseVarOp | Firmware/Core/Priot.c:76-124 | a parsed varbind advanced by at least one octet and never by more than the list length, so the count of octets left in the list never underflows |
| PduSpec.ParseFields | Firmware/Core/Api.c:3668-3768 | the fields in front of the varbinds, three integers or the five items of an SNMPv1 trap, take at least one octet and no more than the PDU's length, and the count is lowered by exactly that |
| PduRoundTrip.ValueRoundTrip | Firmware/Core/Priot.c:246-376 | every value type a varbind can carry parses back to the same type and value |
| PduRoundTrip.VarOpRoundTrip | Firmware/Core/Priot.c:76-124 | a built varbind parses back to its name, type and value, and the pointer ends behind it |
| PduRoundTrip.VarBindsRoundTrip | Firmware/Core/Api.c:3777-3931 | a built list of any number of varbinds parses back to the same varbinds in the same order |
| PduRoundTrip.TrapRoundTrip | Firmware/Core/Api.c:3669-3713 | the fields of a built SNMPv1 trap parse back to themselves when its enterprise is a name that survives, its numbers lie in [-2^31, 2^32-1] and its time is below 2^32 |
| PduRoundTrip.PduComesBack | Firmware/Core/Api.c:3643-3933 | a built PDU of any length, an SNMPv1 trap included, with minimal or four-octet headers and anything behind it, parses back to the same command, fields and varbinds |
| ScopedPdu.ParseContext | Firmware/Core/Api.c:3942-4009 | the scoped header leaves the data pointer within the memory and the length lowered by exactly what was passed |
| ScopedPdu.ScopedComesBack | Firmware/Core/Api.c:3942-4009 | a built scoped PDU parses back to the same context engine id, context name and PDU |
| RingCache.FillCache | Firmware/Core/Api.c:2708-2717 | walking the list once leaves its last 50 nodes before the stopping node in the ring, and says where the newest is and whether the ring wrapped |
| RingCache.EmitSlots | Firmware/Core/Api.c:2719-2749 | going through a stretch of the ring prepends the varbinds it holds, newest first |
| RingCache.EmitAll | Firmware/Core/Api.c:2701-2771 | the refill-and-wrap loop terminates and leaves the encodings of all varbinds in list order, each once, for lists of any length |
| ReversePdu.RbuildVarOp | Firmware/Core/Priot.c:246-376 | prepends the encoding of one varbind of any type the code knows, and fails exactly when the type is unknown or a name in it cannot be built |
| ReverseMessage.PduReallocRbuild | Firmware/Core/Api.c:2698-2904 | prepends the encoding of the whole PDU, an SNMPv1 trap included, and fails exactly when a varbind or a trap's enterprise cannot be built |
| ReverseMessage.RbuildTrapFields | Firmware/Core/Api.c:2825-2893 | prepends the five fields of an SNMPv1 trap, last one first, and fails exactly when the enterprise cannot be built |
| ReverseMessage.ScopedHeaderReallocRbuild | Firmware/Core/Api.c:2122-2162 | prepends name, engine id and a sequence header that also counts the body built before |
| ReverseMessage.ScopedReallocRbuild | Firmware/Core/Api.c:2122-2162 | PDU and scoped header together leave the encoding of the scoped PDU |
| ReverseMessage.PacketParses | Firmware/Core/Api.c:3643-3933 | parsing the `offset` octets the reverse encoder left at the end of its buffer gives the PDU that was encoded |
| ForwardMessage.BuildVarOp | Firmware/Core/Priot.c:138-244 | appends the encoding of one varbind of any type the code knows under a patched four-octet header; fails for an unknown type, an empty bit string, a name it refuses or lack of room, and only then |
| ForwardMessage.PduBuild | Firmware/Core/Api.c:2531-2693 | appends the encoding of the whole PDU, an SNMPv1 trap included, patching its headers once the lengths are known |
| Agreement.TlvAgrees | Firmware/Core/Asn01.c:535-551 | forward and reverse primitive encodings are identical octet for octet if and only if the content has at most 0xFFFF octets |
| Agreement.ValueAgrees | Firmware/Core/Priot.c:138-244 | on their common domain all primitive builder pairs give identical octets |
| Agreement.ForwardPduIs | Firmware/Core/Api.c:2531-2693 | with contents of at most 0xFFFF octets the forward PDU is the same encoding with four-octet headers |
| Agreement.ForwardLengthExact | Firmware/Core/Asn01.c:553-573 | the length a parser finds in a forward PDU is the right one if and only if the content has at most 0xFFFF octets; otherwise it is that length modulo 2^16 |
| Agreement.BuildersAgree | Firmware/Core/Api.c:2531-2693 | the parser maps what either builder made of a PDU to that same PDU |
| PduParser.ReadVarOp | Firmware/Core/Priot.c:76-124 | parses one varbind's name and value header as specified |
| PduParser.ReadValue | Firmware/Core/Api.c:3818-3926 | the type switch parses every value type as specified |
| PduParser.ReadVarBinds | Firmware/Core/Api.c:3787-3931 | the varbind loop terminates on any octets, links one node per varbind in order, and succeeds exactly when the specification does, an unknown type being an error only at its end |
| PduParser.PduParse | Firmware/Core/Api.c:3643-3933 | the record and list it fills denote exactly the specified PDU, an SNMPv1 trap included, and it fails exactly when there is none |
| PduParser.ScopedPduParse | Firmware/Core/Api.c:3942-4009 | the context it stores, the pointer and the length it returns are the specified ones |
| PduParser.ReceiveScoped | Firmware/Core/Api.c:3942-4009 | scoped header and PDU parsed one after the other give the specified scoped PDU |
| VarClone.CopyVarlist | Firmware/Core/Client.c:300-343 | the new list holds the first varbinds of the old one in order, without the one to drop, in nodes of its own |
| VarClone.CopyPduVars | Firmware/Core/Client.c:364-389 | the same behind the varbinds to skip, the index to drop counted from there |
| VarClone.CloneIsExact | Firmware/Core/Client.c:416-419 | a clone has all the varbinds if and only if there are at most 10000, although its comment says it copies all |
| VarClone.SplitsJoin | Firmware/Core/Client.c:443-451 | two splits at the same place make up the whole list |
| VarClone.ClonePdu | Firmware/Core/Client.c:397-408 | the clone has the header of the original and its varbinds up to 10000, without the one to drop, in nodes of its own |
| VarClone.FixPdu | Firmware/Core/Client.c:466-492 | there is a repaired PDU exactly for a response with an error status whose index names one of at least two varbinds; it has the given command and request id, the default error fields and the varbinds without the one at fault |
| VarClone.FixDropsOne | Firmware/Core/Client.c:466-492 | a repaired PDU lacks the varbind at fault and no other if and only if there are at most 10000 varbinds, or 10001 with the last one at fault |
| Framing.SplitConserves | Firmware/Core/Api.c:4949-5117 | the packets taken from a stream and the rest, put together, are the octets of the stream |
| Framing.SplitWhole | Firmware/Core/Api.c:4949-5117 | every packet is one whole message |
| Framing.SplitExtends | Firmware/Core/Api.c:4949-5117 | octets arriving later do not change the packets already taken: the stream goes on from the rest |
| Framing.SplitOfMessages | Firmware/Core/Api.c:4949-5117 | whole messages put behind one another, and part of a further one, come apart as they were |
| Framing.CheckPacketExact | Firmware/Core/Asn01.c:121-145 | within an int's worth of octets the length found is the message's own if and only if that is below 2^31 |
| Framing.TruncatedLength | Firmware/Core/Asn01.c:121-145 | a header that announces 2^32 octets is taken for a whole message of seven octets |
| Framing.TooLongStalls | Firmware/Core/Asn01.c:121-145 | a message of more than 2^31-65536 octets counts as incomplete when a full receive buffer completes it |
| Stream.AsnCheckPacket | Firmware/Core/Asn01.c:121-145 | with fewer than 2^31 octets at hand, the answer is the length of the message they begin with when it is complete, 0 or more than there are while it is not, -1 for another type, and for a length that is too large what an `int` keeps of it |
| Stream.Session.MakeRoom | Firmware/Core/Api.c:4848-4892 | keeps the saved octets and leaves room for one receive behind them, in the old, an extended or a new buffer |
| Stream.Session.TakePackets | Firmware/Core/Api.c:4949-5056 | the loop delivers exactly the whole messages at hand and leaves the rest, or reports a broken stream behind them |
| Stream.Session.Compact | Firmware/Core/Api.c:5089-5117 | the rest is moved to the start of a buffer of its size, also when the two overlap |
| Stream.Session.Read | Firmware/Core/Api.c:4848-5117 | one receive delivers the messages that saved and new octets complete and saves the rest; the saved octets always fit the buffer, whatever is received |
| Stream.Receive | Firmware/Core/Api.c:4848-5117 | over any run of non-empty chunks, what is delivered and what is saved are functions of the octets received alone, together they are those octets, and nothing saved is a whole message |
| Delivery.MessageIsFrame | Firmware/Core/Asn01.c:121-145 | a built sequence of at most 2^31-65536 octets, with either header, is exactly one whole message on a stream |
| Delivery.AllArrive | Firmware/Core/Api.c:4848-5117 | the octets of scoped PDUs built and put behind one another split into exactly those messages, each of which parses back to the one sent |
| Delivery.DeliverAll | Firmware/Core/Api.c:4848-5117 | when those octets arrive in any non-empty chunks at a session with nothing saved, it delivers as many messages, every record parsed from them says what was sent, and nothing is left over |
| OidOrder.CompareTotalOrder | Firmware/Core/Api.c:5665-5704 | comparison is a total order: 0 only for equal names, antisymmetric, transitive |
| OidOrder.LessAtDifference | Firmware/Core/Api.c:5665-5704 | the order is decided at the end of the common prefix |
| OidOrder.SubtreeIsInterval | Firmware/Core/Api.c:5773-5779 | the names at or below a root are an interval of the order |
| OidOrder.BelowRoot | Firmware/Core/Api.c:5773-5779 | the names below a root come behind it and in front of every other name behind it |
| OidCompare.OidCompare | Firmware/Core/Api.c:5665-5704 | the loop computes the lexicographic comparison |
| OidCompare.OidNcompare | Firmware/Core/Api.c:5605-5656 | it compares both names cut to max_len |
| OidCompare.OidCompareLl | Firmware/Core/Api.c:5713-5756 | it compares, and its offset is the length of the common prefix plus one, also for equal names |
| OidCompare.OidTreeCompare | Firmware/Core/Api.c:5765-5771 | 0 if and only if one name is a prefix of the other, and otherwise the comparison of the whole names |
| OidCompare.OidSubtreeCompare | Firmware/Core/Api.c:5773-5779 | 0 if and only if the first name is a prefix of the second, and otherwise their comparison |
| OidCompare.OidEquals | Firmware/Core/Api.c:5791-5823 | 0 if and only if the names are equal |
| OidCompare.OidIsSubtree | Firmware/Core/Api.c:5833-5843 | 0 if and only if the first name is a prefix of the second |
| OidCompare.OidFindPrefix | Firmware/Core/Api.c:5853-5873 | the length of the common prefix of two non-empty names |
| OidCompare.Family | Firmware/Core/Api.c:5713-5873 | the subtree comparison is 0 exactly when the subtree test is, and the offset is one more than the prefix found |
| OidStash.Attach | Firmware/Core/OidStash.c:50-76 | the new node heads its slot's chain, linked both ways, and nothing else changes |
| OidStash.Stash.FindChild | Firmware/Core/OidStash.c:103-116 | the chain walk finds the child with that value if there is one |
| OidStash.Stash.NewChild | Firmware/Core/OidStash.c:50-76 | inserting a child keeps every chain, hash and parent invariant and changes no stored data |
| OidStash.Stash.AddData | Firmware/Core/OidStash.c:32-92 | it succeeds exactly for a non-empty name without data; then that name and no other is bound (unless to NULL), and otherwise no binding changes; the nodes there afterwards are those before and the name's prefixes |
| OidStash.Stash.GetNode | Firmware/Core/OidStash.c:94-120 | finds the node of a non-empty name if there is one |
| OidStash.Stash.GetData | Firmware/Core/OidStash.c:201-208 | agrees with the map from names to data |
| OidStashNext.Down | Firmware/Core/OidStash.c:183-186 | going down to the least admitted child leaves the same names to come, but for that child |
| OidStashNext.GoUp | Firmware/Core/OidStash.c:187-194 | going up when no child is admitted leaves the same names to come |
| OidStashNext.LeastChild | Firmware/Core/OidStash.c:160-176 | the scan over slots and chains finds the least admitted child, also when it stops early |
| OidStashNext.Search | Firmware/Core/OidStash.c:159-199 | the loop terminates and finds the least name with data among those to come, or none |
| OidStashNext.GetNextNode | Firmware/Core/OidStash.c:122-199 | for any name: the least stored name behind the longest prefix that has a node, its children restricted as the code restricts them |
| OidStashWalk.NextIsSuccessor | Firmware/Core/OidStash.c:122-199 | for the empty name and every name that has a node, the answer is the stored name next in order |
| OidStashWalk.NextOfMissing | Firmware/Core/OidStash.c:131-157 | for a name without a node, the answer is the next in order if and only if the stored names below its longest prefix with a node are all on the same side of lookup[i + 1] (of no bound at the last sub-identifier) as of lookup[i] |
| OidStashWalk.NotTheSuccessor | Firmware/Core/OidStash.c:131-157 | with only 1 stored, the answer for 3 is 1 |
| OidStashWalk.VisitAll | Firmware/Core/OidStash.c:122-199 | asking for the next node from the empty name on visits every stored name once, in increasing order |
| MessageIds.LaterClosed | Firmware/Core/Api.c:287-305 | closed form of the id drawn n draws later: it counts up to the mask and then goes round from 2 |
| MessageIds.LaterInRange | Firmware/Core/Api.c:287-305 | an id is never 0 and stays within the mask |
| MessageIds.Distinct | Firmware/Core/Api.c:287-305 | any 2^31-2 (with 16-bit ids 2^15-2) draws in a row are distinct |
| MessageIds.ComesRound | Firmware/Core/Api.c:287-305 | and no longer run is: an id comes back after that many draws |
| MessageIds.Ids.constructor | Firmware/Core/Api.c:512-524 | the first id drawn is the one behind the masked random seed, 0 replaced by 1, and the sequence starts there |
| MessageIds.Ids.GetNextMsgid | Firmware/Core/Api.c:287-305 | the counter step draws the next id of that sequence |
| Requests.LogStep | Firmware/Core/Api.c:4543-4659 | one more event about an outstanding request keeps the two rules of the log: nothing after leaving, transmissions numbered upwards within the bound |
| Requests.Session.AsyncSend | Firmware/Core/Api.c:4223-4268 | a request that expects a response goes to the end of the queue with its ids and no retry; a failed send changes nothing |
| Requests.Session.Unlink | Firmware/Core/Api.c:4644-4652 | taking a request out keeps the order of the others and the tail pointer on the last one, NULL when none is left |
| Requests.Session.ResendRequest | Firmware/Core/Api.c:5409-5511 | one more retry under the next message id, transmitted when it could be built, and a new expiry only when it was sent |
| Requests.Session.ProcessResponse | Firmware/Core/Api.c:4543-4659 | the queue and the events afterwards are exactly those of the search; an accepted report that the message was late is retried while a retry is left, every other accepted response ends its request |
| Requests.Session.SearchExact | Firmware/Core/Api.c:4543-4587 | the request settled is the first one the response is for that does not decline, and only requests it is for are told |
| Requests.Session.Timeout | Firmware/Core/Api.c:5513-5594 | of the requests visited exactly those expired with no retry left leave, after their callback, the other expired ones have one retry more and go out again when they can be built, and order and all else are kept; all are visited unless a resend fails |
| Requests.Session.CreatePdu | Firmware/Core/Client.c:28-48 | a new PDU has a message id of a draw no outstanding request has |
| Requests.Session.IdsDiffer | Firmware/Core/Api.c:4547-4555 | outstanding requests fewer than 2^31-2 (2^15-2) draws apart have different ids, so a v3 response is for one of them at most |
| Requests.TransmissionsBounded | Firmware/Core/Api.c:4588-4597 | numbered within a bound, the transmissions of a request are no more than the bound |
| Requests.LeavesOnce | Firmware/Core/Api.c:4644-4658 | a request leaves at most once |
| Requests.RunCounts | Firmware/Core/Api.c:5556-5585 | in any reachable state, no request was transmitted more than retries + 2 times or left more than once, and none had an event after leaving |
| Requests.Run | Firmware/Core/Api.c:4223-4268 | every run of sends, responses and timeouts keeps the queue, tail, retry, id and log invariants |
| IndexSpec.OneComesBack | Firmware/Core/Mib.c:3392-3571 | one index that is not IMPLIED parses back, with any sub-identifiers behind it, to the same value if and only if a number is in range (int32 for INTEGER, below 2^32 for the unsigned types) and an address reads the same in both octet orders; an address comes back in the other order |
| IndexSpec.ImpliedTakesAll | Firmware/Core/Mib.c:3452-3464 | an IMPLIED index with something behind it never parses back to itself |
| IndexSpec.IndexRoundTrip | Firmware/Core/Mib.c:3374-3390 | a list of indexes parses back into fresh variables if its numbers are in range, its addresses read the same in both octet orders and an IMPLIED one is only last and not empty, and (names below 2^32 sub-identifiers) only then |
| IndexSpec.SegmentsInjective | Firmware/Core/Mib.c:3307-3338 | two lists of the same types with numbers in range and an IMPLIED index only last and not empty that give the same name are equal, whatever their addresses |
| Index.BuildOidSegment | Firmware/Core/Mib.c:3209-3305 | the segment copied to the variable is the specified one for every index type, and it fails exactly for other types and for more than 128 sub-identifiers |
| Index.BuildOidNoalloc | Firmware/Core/Mib.c:3307-3338 | prefix and segments end up behind one another, and it succeeds exactly when all segments exist and fit |
| Index.TakeAddress | Firmware/Core/Mib.c:3423-3450 | the shifting loop and htonl turn up to four sub-identifiers into as many octets and zeros behind them, and refuse one above 255 |
| Index.ParseOneOidIndex | Firmware/Core/Mib.c:3392-3571 | value and sub-identifiers left are the specified ones, incomplete names included |
| Index.ParseOidIndexes | Firmware/Core/Mib.c:3374-3390 | succeeds exactly when every variable gets a value and nothing is left, with the specified values |
| Walk.BelowIsStretch | Firmware/Core/Client.c:1189-1207 | the variables strictly below a name are one stretch of an ordered table |
| Walk.AnswerDecides | Firmware/Core/Client.c:1190-1193 | the loop test lets exactly the variables below the starting name into the results, and at the first other answer the results are complete |
| Walk.BelowExact | Firmware/Core/Client.c:1173-1220 | the expected result holds exactly the variables strictly below the name, in increasing order |
| Walk.Collect | Firmware/Core/Client.c:1189-1207 | the loop terminates with the results linked in order; they are all of them unless a query failed, and the first part otherwise; behind them are the answers of the last round for the other varbinds |
| Walk.QueryWalk | Firmware/Core/Client.c:1173-1220 | afterwards the parameter heads the list of exactly the variables strictly below the name it had, each once and in order, or is unchanged when there are none; what follows the results is the last round's answers for the other varbinds, none for a list of one |
| Walk.OneParameter | Firmware/Core/Client.c:1176-1181 | for a list of one varbind, as the comment has it, nothing follows the results |

## Left out

- Asn01_parseNull: no modelled path calls it. The meaning of the bits of a float or double.
- Security models, engine-id probing, message headers around the scoped PDU: their code is not part of this model.
- Sockets, select, transports, locks and configuration storage: inputs of the modelled steps.
- Failing allocation and the release of memory.
- Partial results of a failed parse: a failed call promises nothing about what it stored, except that a varbind list stays a list.
- A varbind node is linked when it is filled; the parser links it first and fills it then.
- Callbacks that themselves send or cancel requests: a callback is its answer.
- The duplicate-report, engine-id and `waiting` bookkeeping in the response handler: it does not touch the queue.
- A big-endian host: there a double is built with its words swapped, and an IpAddress index keeps its order. Mib_buildOid: it passes a size in octets where sub-identifiers are counted.
- Names of 2^31 or more sub-identifiers: the comparison loops count in `int`, which is not modelled there.
- A session whose retries or callback change while requests are outstanding.
- Printing, MIB loading, name parsing, OidStash_store, OidStash_clear: formatting and traversals without new difficulty.
- PduParser.PduParse: the record is one as calloc leaves it, which is the only kind its callers pass; what a short agent address leaves of an older one is not stated.
- Walk.QueryWalk: a query is its status and its answers as a whole; the retry inside a query of several varbinds that drops the one at fault, so that the answers shift, is not modelled.
- VarClone.FixPdu: the message id is not part of the record; MessageIds.Ids.GetNextMsgid says what the counter gives.
- Delivery.DeliverAll: a message of the code has a version, header data and security parameters around the scoped PDU, which are not part of this model; a bare scoped PDU on a stream is no message the code sends.
- PduRoundTrip.PduComesBack: an Opaque payload that starts like a special value (0x9F and one of five types), or is empty at the end of the memory, is outside its domain, because the header parser takes it for one.
- Stream.Receive: a stream with an unusable length (indefinite, more than eight octets, or a message over 2^31-65536 octets) is outside its domain; Framing.TruncatedLength and Framing.TooLongStalls show what happens there. Memory safety (the saved octets fit the buffer) holds for it too.
- Requests.Session.IdsDiffer: needs fewer draws between the two requests than the period; MessageIds.ComesRound shows that the ids repeat after it.
