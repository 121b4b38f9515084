/** dynamic-string.c and dynamic-string.h: a string in a buffer that grows. */
module DynamicString {
  import opened Bytes
  import opened Bits
  import JsonCodec

  lemma OctetsInARow(s: Bytes, a: Byte, b: Byte, c: Bytes, d: Bytes)
    ensures s + [a] + [b] + c + d == s + ([a, b] + c + d)
    ensures c == [] ==> s + [a] + [b] == s + [a, b]
    ensures d == [] ==> s + [a] + [b] + c == s + ([a, b] + c)
  {
  }

  class Ds {
    var buffer: array?<Byte>       // string: capacity + 1 bytes, or null
    var length: nat
    var capacity: nat              // allocated
    ghost var peak: nat            // the greatest length that has been asked for
    ghost var moved: nat           // bytes that reallocations have copied

    /** Over the whole life of a string all reallocations together have copied no more bytes than
        are allocated, and not even twice as many are allocated as have been asked for. */
    ghost predicate Valid()
      reads this, buffer
    {
      && (buffer == null ==> length == 0 && capacity == 0)
      && (buffer != null ==> length <= capacity && buffer.Length == capacity + 1)
      && length <= peak && capacity <= Max(8, 2 * peak)
      && moved <= capacity
    }

    ghost function Contents(): Bytes
      reads this, buffer
      requires Valid()
    {
      if buffer == null then [] else buffer[..length]
    }

    /** ds_init. */
    constructor ()
      ensures Valid() && Contents() == [] && buffer == null && peak == 0
    {
      buffer, length, capacity := null, 0, 0;
      peak, moved := 0, 0;
    }

    /** xrealloc: what fits of the old buffer is at the beginning of the new one. */
    method Reallocate(size: nat)
      requires Valid() && size > capacity
      modifies this`buffer
      ensures buffer != null && fresh(buffer) && buffer.Length == size + 1
      ensures buffer[..length] == old(Contents())
    {
      var bigger := new Byte[size + 1];
      var i := 0;
      while i < length
        invariant i <= length && bigger[..i] == old(Contents())[..i] && buffer == old(buffer)
        invariant forall j :: 0 <= j < length ==> buffer[j] == old(Contents())[j]
      {
        bigger[i] := buffer[i];
        i := i + 1;
      }
      buffer := bigger;
    }

    /** ds_reserve: the contents stay, and there is room for `min` bytes and a terminator. */
    method Reserve(min: nat)
      requires Valid()
      modifies this`buffer, this`capacity, this`peak, this`moved
      ensures Valid() && Contents() == old(Contents())
      ensures buffer != null && capacity >= min && peak == Max(old(peak), min)
      ensures buffer == old(buffer) || fresh(buffer)
      ensures buffer != old(buffer) ==> capacity >= 8 && capacity >= 2 * old(capacity)
    {
      if min > capacity || buffer == null {
        var size := Max(8, capacity + Max(min, capacity));
        Reallocate(size);
        moved := moved + length;
        capacity := size;
      }
      peak := Max(peak, min);
    }

    /** ds_put_uninit: `n` more bytes, to be filled in, from the returned index on. */
    method PutUninit(n: nat) returns (at: nat)
      requires Valid()
      modifies this, buffer
      ensures Valid() && buffer != null && (buffer == old(buffer) || fresh(buffer))
      ensures at == old(length) && length == at + n && Contents()[..at] == old(Contents())
      ensures buffer[length] as int == 0
    {
      Reserve(length + n);
      length := length + n;
      buffer[length] := '\0';
      at := length - n;
      assert buffer[..length][..at] == buffer[..at];
    }

    /** ds_put_char: the fast path writes in place, the other one grows the buffer. */
    method PutChar(c: Byte)
      requires Valid()
      modifies this, buffer
      ensures Valid() && buffer != null && (buffer == old(buffer) || fresh(buffer))
      ensures Contents() == old(Contents()) + [c] && buffer[length] as int == 0
    {
      if length < capacity {
        ghost var was := Contents();
        buffer[length] := c;
        length := length + 1;
        buffer[length] := '\0';
        peak := Max(peak, length);
        assert buffer[..length] == was + [c];
      } else {
        var at := PutUninit(1);
        ghost var was := Contents()[..at];
        buffer[at] := c;
        assert buffer[..length] == was + [c];
      }
    }

    /** ds_put_buffer, and ds_put_cstr for a string without terminator. */
    method PutBuffer(s: Bytes)
      requires Valid()
      modifies this, buffer
      ensures Valid() && buffer != null && (buffer == old(buffer) || fresh(buffer))
      ensures Contents() == old(Contents()) + s && buffer[length] as int == 0
    {
      var at := PutUninit(|s|);
      ghost var was := buffer[..at];
      var i := 0;
      while i < |s|
        invariant i <= |s| && buffer[..at + i] == was + s[..i] && buffer[length] as int == 0
        modifies buffer
      {
        buffer[at + i] := s[i];
        assert buffer[..at + i + 1] == buffer[..at + i] + [s[i]];
        i := i + 1;
      }
      assert s[..i] == s;
    }

    /** ds_put_char_multiple. */
    method PutCharMultiple(c: Byte, n: nat)
      requires Valid()
      modifies this, buffer
      ensures Valid() && buffer != null && (buffer == old(buffer) || fresh(buffer))
      ensures Contents() == old(Contents()) + Repeat(c, n) && buffer[length] as int == 0
    {
      PutBuffer(Repeat(c, n));
    }

    /** ds_put_utf8. */
    method PutUtf8(uc: nat)
      requires Valid()
      modifies this, buffer
      ensures Valid() && buffer != null && (buffer == old(buffer) || fresh(buffer))
      ensures Contents() == old(Contents()) + JsonCodec.PutUtf8(uc)
      decreases if uc > 0x10ffff then 1 else 0
    {
      hide Or;
      hide And;
      hide Shr;
      hide JsonCodec.ByteOf;
      hide JsonCodec.LeadOctet;
      hide JsonCodec.Continuation;
      ghost var was := Contents();
      if uc <= 0x7f {
        PutChar(JsonCodec.ByteOf(uc));
      } else if uc <= 0x7ff {
        PutChar(JsonCodec.LeadOctet(0xc0, Shr(uc, 6)));
        PutChar(JsonCodec.Continuation(uc));
        OctetsInARow(was, JsonCodec.LeadOctet(0xc0, Shr(uc, 6)), JsonCodec.Continuation(uc), [], []);
      } else if uc <= 0xffff {
        PutChar(JsonCodec.LeadOctet(0xe0, Shr(uc, 12)));
        PutChar(JsonCodec.Continuation(Shr(uc, 6)));
        PutChar(JsonCodec.Continuation(uc));
        OctetsInARow(was, JsonCodec.LeadOctet(0xe0, Shr(uc, 12)), JsonCodec.Continuation(Shr(uc, 6)),
                     [JsonCodec.Continuation(uc)], []);
      } else if uc <= 0x10ffff {
        PutChar(JsonCodec.LeadOctet(0xf0, Shr(uc, 18)));
        PutChar(JsonCodec.Continuation(Shr(uc, 12)));
        PutChar(JsonCodec.Continuation(Shr(uc, 6)));
        PutChar(JsonCodec.Continuation(uc));
        OctetsInARow(was, JsonCodec.LeadOctet(0xf0, Shr(uc, 18)), JsonCodec.Continuation(Shr(uc, 12)),
                     [JsonCodec.Continuation(Shr(uc, 6))], [JsonCodec.Continuation(uc)]);
      } else {
        PutUtf8(0xfffd);
        JsonCodec.Shifts(0xfffd);
      }
    }

    /** ds_truncate. */
    method Truncate(newLength: nat)
      requires Valid()
      modifies this`length, buffer
      ensures Valid() && Contents() == old(Contents())[..if newLength < old(length) then newLength else old(length)]
    {
      if length > newLength {
        length := newLength;
        buffer[newLength] := '\0';
      }
      assert buffer != null ==> buffer[..length] == old(Contents())[..length];
    }

    /** ds_cstr: the contents with a terminator behind them. */
    method Cstr()
      requires Valid()
      modifies this, buffer
      ensures Valid() && Contents() == old(Contents()) && (buffer == old(buffer) || fresh(buffer))
      ensures buffer != null && buffer[length] as int == 0
    {
      if buffer == null {
        Reserve(0);
      }
      ghost var was := Contents();
      buffer[length] := '\0';
      assert buffer[..length] == was;
    }

    /** ds_chomp. */
    method Chomp(c: Byte) returns (cut: bool)
      requires Valid()
      modifies this`length, buffer
      ensures Valid() && cut == (old(length) > 0 && old(Contents())[old(length) - 1] == c)
      ensures old(Contents()) == Contents() + if cut then [c] else []
    {
      ghost var was := Contents();
      if length > 0 && buffer[length - 1] == c {
        length := length - 1;
        buffer[length] := '\0';
        cut := true;
        assert was == buffer[..length] + [c];
      } else {
        cut := false;
      }
    }
  }
}
