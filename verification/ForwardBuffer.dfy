/** The fixed buffer the forward encoders fill from its start: `data` and `*datalength`. */
module ForwardBuffer {
  import opened Bytes

  class Cursor {
    const buf: array<Byte>
    var data: nat              // the data pointer, as an index
    var left: nat              // `*datalength`
    ghost var content: seq<Byte> // the octets between the start of the buffer and the pointer

    ghost predicate Valid()
      reads this, buf
    {
      && data == |content| && data + left <= buf.Length
      && forall i :: 0 <= i < data ==> buf[i] == content[i]
    }

    constructor (buf: array<Byte>)
      ensures Valid() && this.buf == buf && data == 0 && left == buf.Length && content == []
    {
      this.buf, data, left, content := buf, 0, buf.Length, [];
    }

    /** What every forward builder promises: it succeeds exactly when the octets fit, and then
        they follow what was there. */
    twostate predicate Appended(enc: seq<Byte>, ok: bool)
      reads this, buf
    {
      && (ok <==> |enc| <= old(left))
      && (ok ==> Valid() && content == old(content) + enc && left == old(left) - |enc|)
    }

    /** `*data++ = b` together with its share of the decrease of `*datalength` */
    method Store(b: Byte)
      requires Valid() && left >= 1
      modifies this, buf
      ensures Valid() && content == old(content) + [b] && left == old(left) - 1
    {
      buf[data] := b;
      data, left, content := data + 1, left - 1, content + [b];
    }

    /** Moves past four octets that will be written later. */
    method SkipHeader()
      requires Valid() && left >= 4
      modifies this
      ensures Valid() && |content| == |old(content)| + 4 && content[..|old(content)|] == old(content)
      ensures left == old(left) - 4
    {
      content := content + [buf[data], buf[data + 1], buf[data + 2], buf[data + 3]];
      data, left := data + 4, left - 4;
    }

    /** Writes four octets over the ones at `at`, where the pointer has already passed. */
    method Patch(at: nat, b0: Byte, b1: Byte, b2: Byte, b3: Byte)
      requires Valid() && at + 4 <= data
      modifies this`content, buf
      ensures Valid() && content == old(content)[..at] + [b0, b1, b2, b3] + old(content)[at + 4..]
    {
      buf[at], buf[at + 1], buf[at + 2], buf[at + 3] := b0, b1, b2, b3;
      content := content[..at] + [b0, b1, b2, b3] + content[at + 4..];
    }

    /** memmove of a string to the data pointer */
    method StoreAll(s: seq<Byte>)
      requires Valid() && left >= |s|
      modifies this, buf
      ensures Valid() && content == old(content) + s && left == old(left) - |s|
    {
      var base := data;
      forall i | 0 <= i < |s| {
        buf[base + i] := s[i];
      }
      data, left, content := data + |s|, left - |s|, content + s;
    }
  }
}
