/** Identifier octets of Asn01.h and Priot.h. */
module Tags {
  import opened Bytes

  const INTEGER: Byte := 0x02
  const BIT_STR: Byte := 0x03
  const OCTET_STR: Byte := 0x04
  const NULL: Byte := 0x05
  const OBJECT_ID: Byte := 0x06
  const SEQUENCE: Byte := 0x30 // asnSEQUENCE | asnCONSTRUCTOR
  const IPADDRESS: Byte := 0x40
  const COUNTER: Byte := 0x41
  const GAUGE: Byte := 0x42
  const TIMETICKS: Byte := 0x43
  const OPAQUE: Byte := 0x44
  const NSAP: Byte := 0x45
  const COUNTER64: Byte := 0x46
  const UINTEGER: Byte := 0x47

  // values wrapped in an Opaque: the inner identifier is OPAQUE_TAG1 and one of these
  const OPAQUE_TAG1: Byte := 0x9f
  const OPAQUE_COUNTER64: Byte := 0x76
  const OPAQUE_FLOAT: Byte := 0x78
  const OPAQUE_DOUBLE: Byte := 0x79
  const OPAQUE_I64: Byte := 0x7a
  const OPAQUE_U64: Byte := 0x7b
  const OPAQUE_COUNTER64_MX_BER_LEN := 12

  const NOSUCHOBJECT: Byte := 0x80
  const NOSUCHINSTANCE: Byte := 0x81
  const ENDOFMIBVIEW: Byte := 0x82

  const MSG_GET: Byte := 0xa0
  const MSG_GETNEXT: Byte := 0xa1
  const MSG_RESPONSE: Byte := 0xa2
  const MSG_SET: Byte := 0xa3
  const MSG_TRAP: Byte := 0xa4
  const MSG_GETBULK: Byte := 0xa5
  const MSG_INFORM: Byte := 0xa6
  const MSG_TRAP2: Byte := 0xa7
  const MSG_REPORT: Byte := 0xa8

  const MAX_OID_LEN := 128
}
