/** The growable packet buffer the reverse encoders fill from its top end downwards. */
module ReverseBuffer {
  import opened Bytes

  const SPACE: Byte := 0x20

  /** Memory_reallocIncrease: the size the next allocation asks for. */
  function IncreasedLength(n: nat): (m: nat)
    ensures m > n
  {
    if n <= 255 then n + 256 else if n <= 8191 then n * 2 else n + 8192
  }

  /** The memmove of the first n octets to the end, and the memset of what is in front of them. */
  method MoveUp(a: array<Byte>, n: nat)
    requires n <= a.Length
    modifies a
    ensures forall k :: a.Length - n <= k < a.Length ==> a[k] == old(a[k - (a.Length - n)])
    ensures forall k :: 0 <= k < a.Length - n ==> a[k] == SPACE
  {
    var shift := a.Length - n;
    forall i | shift <= i < a.Length {
      a[i] := a[i - shift];
    }
    forall i | 0 <= i < shift {
      a[i] := SPACE;
    }
  }

  /** `pkt`, `*pkt_len` (its length) and `*offset`, the number of octets already built. */
  class Packet {
    var pkt: array<Byte>
    var offset: nat
    ghost var content: seq<Byte> // the octets built so far

    ghost predicate Valid()
      reads this, pkt
    {
      && offset == |content| <= pkt.Length
      && forall i :: 0 <= i < offset ==> pkt[pkt.Length - offset + i] == content[i]
    }

    function Room(): int
      reads this
    {
      pkt.Length - offset
    }

    /** What every reverse builder promises: `enc` is put in front of what was there, through
        any number of reallocations, and it succeeds exactly when it may reallocate or the
        octets fit. */
    twostate predicate Prepended(enc: seq<Byte>, r: bool, ok: bool)
      reads this, pkt
    {
      && Valid()
      && (pkt == old(pkt) || fresh(pkt))
      && (!r ==> pkt == old(pkt))
      && (ok <==> r || |enc| <= old(Room()))
      && (ok ==> content == enc + old(content))
    }

    constructor (size: nat)
      ensures Valid() && fresh(pkt) && pkt.Length == size && content == []
    {
      pkt := new Byte[size];
      offset := 0;
      content := [];
    }

    /** Asn01_realloc: the old octets move to the top of the larger buffer, blanks fill the rest. */
    method Realloc()
      requires Valid()
      modifies this`pkt
      ensures Valid() && fresh(pkt)
      ensures pkt.Length == IncreasedLength(old(pkt.Length))
      ensures forall i :: 0 <= i < pkt.Length - old(pkt.Length) ==> pkt[i] == SPACE
    {
      var oldLen := pkt.Length;
      var grown := new Byte[IncreasedLength(oldLen)];
      forall i | 0 <= i < oldLen {
        grown[i] := pkt[i];
      }
      MoveUp(grown, oldLen);
      forall i | 0 <= i < offset
        ensures grown[grown.Length - offset + i] == content[i]
      {
        assert pkt[pkt.Length - offset + i] == content[i];
      }
      pkt := grown;
    }

    /** Enlarges until n octets fit, or gives up where reallocation is not allowed. */
    method MakeRoom(n: nat, r: bool) returns (ok: bool)
      requires Valid()
      modifies this`pkt
      ensures Valid()
      ensures pkt == old(pkt) || fresh(pkt)
      ensures ok <==> r || n <= old(Room())
      ensures ok ==> n <= Room()
      ensures !r ==> pkt == old(pkt)
    {
      while Room() < n
        invariant Valid()
        invariant pkt == old(pkt) || (r && fresh(pkt))
        decreases n - Room()
      {
        if !r {
          return false;
        }
        Realloc();
      }
      ok := true;
    }

    /** `*( *pkt + *pkt_len - ( ++*offset ) ) = b` */
    method Store(b: Byte)
      requires Valid() && Room() >= 1
      modifies this`offset, this`content, pkt
      ensures Valid() && offset == old(offset) + 1
      ensures content == [b] + old(content)
    {
      offset := offset + 1;
      pkt[pkt.Length - offset] := b;
      content := [b] + content;
    }

    /** The room test and the store that recur throughout the reverse builders. */
    method Put(b: Byte, r: bool) returns (ok: bool)
      requires Valid()
      modifies this, pkt
      ensures Prepended([b], r, ok)
    {
      ok := MakeRoom(1, r);
      if ok {
        Store(b);
      }
    }

    /** The room loop and memcpy of the string builders. */
    method PutAll(s: seq<Byte>, r: bool) returns (ok: bool)
      requires Valid()
      modifies this, pkt
      ensures Prepended(s, r, ok)
    {
      ok := MakeRoom(|s|, r);
      if ok {
        offset := offset + |s|;
        var base := pkt.Length - offset;
        forall i | 0 <= i < |s| {
          pkt[base + i] := s[i];
        }
        content := s + content;
      }
    }
  }
}
