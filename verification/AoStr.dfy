/**
 The growable byte string (aostr.c). `data` is the allocated block; `capacity` is the size the
 string believes it has, which can be smaller than the block because aoStrAlloc adds ten bytes
 that aoStrDupRaw then forgets.
 */
module AoString {
  import opened Bytes

  class AoStr {
    var data: array<byte>
    var offset: nat
    var len: nat
    var capacity: nat

    ghost predicate Valid()
      reads this
    {
      len <= capacity <= data.Length && len < data.Length
    }

    ghost function Contents(): (s: seq<byte>)
      reads this, data
      requires Valid()
    {
      data[..len]
    }

    /** The byte after the contents is NUL, so C-string scans stop at or before `len`. */
    ghost predicate Terminated()
      reads this, data
      requires Valid()
    {
      data[len] == NUL
    }

    /** aoStrAlloc */
    constructor (size: nat)
      ensures Valid() && fresh(data)
      ensures len == 0 && offset == 0 && capacity == size + 10 == data.Length
    {
      capacity := size + 10;
      len := 0;
      offset := 0;
      data := new byte[size + 10];
    }

    /** aoStrDupRaw: copy s, then record exactly the requested capacity. */
    constructor DupRaw(s: seq<byte>, size: nat)
      requires |s| <= size
      ensures Valid() && Terminated() && fresh(data)
      ensures Contents() == s && capacity == size && offset == 0
    {
      var block := new byte[size + 10];
      forall i | 0 <= i < |s| {
        block[i] := s[i];
      }
      block[|s|] := NUL;
      data := block;
      offset := 0;
      len := |s|;
      capacity := size;
    }

    /** aoStrSetLen */
    method SetLen(n: nat)
      requires n < data.Length && n <= capacity <= data.Length
      modifies this`len, data
      ensures Valid() && Terminated() && Contents() == old(data[..n])
    {
      len := n;
      data[n] := NUL;
    }

    /** aoStrSlice: the bytes move first; the terminator is at `size`, wherever they went. */
    method Slice(from: nat, to: nat, size: nat)
      requires Valid() && from + size <= data.Length && to + size <= data.Length && size < data.Length && size <= capacity
      modifies this`len, data
      ensures Valid() && Terminated() && len == size
      ensures to == 0 ==> Contents() == old(data[from..from + size])
      ensures forall i :: 0 <= i < data.Length ==>
                data[i] == if i == size then NUL else if to <= i < to + size then old(data[from + i - to]) else old(data[i])
    {
      forall i | to <= i < to + size {
        data[i] := data[from + i - to];
      }
      data[size] := NUL;
      len := size;
    }

    /** aoStrExtendBuffer: a reallocation keeps every byte that fits the new block. */
    method ExtendBuffer(additional: uint32) returns (status: int)
      requires Valid()
      modifies this`data, this`capacity
      ensures Valid() && Contents() == old(Contents())
      ensures old(Terminated()) ==> Terminated()
      ensures capacity == old(capacity) + additional
      ensures if additional == 0 then status == -1 && data == old(data)
              else status == 1 && fresh(data) && data.Length == capacity
    {
      var newCapacity := capacity + additional;
      if newCapacity <= capacity {
        return -1;
      }
      var block := new byte[newCapacity];
      var kept := if data.Length < newCapacity then data.Length else newCapacity;
      forall i | 0 <= i < kept {
        block[i] := data[i];
      }
      data := block;
      capacity := newCapacity;
      status := 1;
    }

    /** aoStrExtendBufferIfNeeded: the growth is cut to 32 bits on its way into aoStrExtendBuffer. */
    method ExtendBufferIfNeeded(additional: nat) returns (status: int)
      requires Valid()
      modifies this`data, this`capacity
      ensures Valid() && Contents() == old(Contents())
      ensures old(Terminated()) ==> Terminated()
      ensures capacity == if old(len + 1 + additional < capacity) then old(capacity) else old(capacity) + Growth(additional)
      ensures data == old(data) || (fresh(data) && data.Length == capacity)
    {
      if len + 1 + additional >= capacity {
        status := ExtendBuffer(Growth(additional));
      } else {
        status := 0;
      }
    }

    /** aoStrPutChar */
    method PutChar(ch: byte)
      requires Valid()
      modifies this`data, this`capacity, this`len, data
      ensures Valid() && Terminated() && len < capacity
      ensures Contents() == old(Contents()) + [ch]
      ensures data == old(data) || fresh(data)
    {
      var _ := ExtendBufferIfNeeded(100);
      data[len] := ch;
      data[len + 1] := NUL;
      len := len + 1;
    }

    /** aoStrCatLen; CatRoom says why the second condition is what memory safety needs. */
    method CatLen(d: seq<byte>)
      requires Valid()
      requires |d| < 0x1_0000_0000 && (len < capacity || |d| < 256)
      modifies this`data, this`capacity, this`len, data
      ensures Valid() && Terminated() && len < capacity
      ensures Contents() == old(Contents()) + d
      ensures data == old(data) || fresh(data)
    {
      CatRoom(len, capacity, |d|);
      var _ := ExtendBufferIfNeeded(|d|);
      forall i | 0 <= i < |d| {
        data[len + i] := d[i];
      }
      len := len + |d|;
      data[len] := NUL;
      assert Contents() == old(Contents()) + d;
    }
  }

  /** What aoStrExtendBufferIfNeeded asks for, after the conversion to unsigned int. */
  function Growth(additional: nat): uint32 {
    (if additional > 256 then additional else 256) % 0x1_0000_0000
  }

  /** The recorded capacity after making room for `additional` more bytes. */
  function Grown(len: nat, capacity: nat, additional: nat): nat {
    if len + 1 + additional < capacity then capacity else capacity + Growth(additional)
  }

  /**
   A string whose recorded capacity is only its length (an aoStrDup result) has no spare byte for the
   NUL, so growth leaves room for n bytes and a NUL exactly when n is short or there was spare room.
   */
  lemma CatRoom(len: nat, capacity: nat, n: uint32)
    requires len <= capacity
    ensures len < capacity || n < 256 <==> len + n < Grown(len, capacity, n)
  {
  }
}
