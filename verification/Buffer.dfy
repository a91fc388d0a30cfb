/** The gap buffer of a connection: readable bytes between two indices, with room in front of them and behind them. */
module Buffer {
  import opened Base

  const CHEAP_PREPEND: nat := 8
  const INITIAL_SIZE: nat := 1024
  const EXTRA: nat := 65536

  /** Copy bytes into an array. */
  method CopyIn(a: array<byte>, at: nat, data: bytes)
    requires at + |data| <= a.Length
    modifies a
    ensures a[..] == old(a[..at]) + data + old(a[at + |data|..])
  {
    var k := 0;
    while k < |data|
      invariant 0 <= k <= |data|
      invariant forall m | 0 <= m < a.Length && !(at <= m < at + k) :: a[m] == old(a[m])
      invariant forall m | 0 <= m < k :: a[at + m] == data[m]
    {
      a[at + k] := data[k];
      k := k + 1;
    }
  }

  lemma PrefixKept(all: bytes, was: bytes, from: nat, end: nat)
    requires from <= end <= |was| && was <= all
    ensures all[from..end] == was[from..end]
  {
  }

  lemma AppendedIn(was: bytes, from: nat, at: nat, data: bytes, now: bytes)
    requires from <= at && at + |data| <= |was| && now == was[..at] + data + was[at + |data|..]
    ensures now[from..at + |data|] == was[from..at] + data
  {
  }

  lemma PutInFront(was: bytes, at: nat, end: nat, data: bytes, now: bytes)
    requires at + |data| <= end <= |was| && now == was[..at] + data + was[at + |data|..]
    ensures now[at..end] == data + was[at + |data|..end]
  {
  }

  /** Move bytes to the front, lowest first; the stretches may overlap. */
  method MoveDown(a: array<byte>, from: nat, end: nat, to: nat)
    requires to <= from <= end <= a.Length
    modifies a
    ensures a[to..to + (end - from)] == old(a[from..end])
  {
    ghost var data := a[from..end];
    var k := 0;
    while k < end - from
      invariant 0 <= k <= end - from
      invariant forall m | 0 <= m < k :: a[to + m] == data[m]
      invariant forall m | k <= m < end - from :: a[from + m] == data[m]
    {
      a[to + k] := a[from + k];
      k := k + 1;
    }
  }

  class Buffer {
    var buffer: array<byte>
    var readerIndex: nat
    var writerIndex: nat

    ghost predicate Valid()
      reads this
    {
      readerIndex <= writerIndex <= buffer.Length && CHEAP_PREPEND <= buffer.Length
    }

    /** The plain byte sequence the buffer stands for. */
    ghost function Contents(): bytes
      requires Valid()
      reads this, buffer
    {
      buffer[readerIndex..writerIndex]
    }

    constructor ()
      ensures Valid() && fresh(buffer) && Contents() == []
      ensures readerIndex == CHEAP_PREPEND && Writable() == INITIAL_SIZE
    {
      buffer := new byte[CHEAP_PREPEND + INITIAL_SIZE];
      readerIndex, writerIndex := CHEAP_PREPEND, CHEAP_PREPEND;
    }

    function Readable(): (n: nat)
      requires Valid()
      reads this, buffer
      ensures n == |Contents()|
    {
      writerIndex - readerIndex
    }

    function Writable(): nat
      requires Valid()
      reads this
    {
      buffer.Length - writerIndex
    }

    /** The first bytes, without taking them. */
    method Peek(len: nat) returns (data: bytes)
      requires Valid() && len <= |Contents()|
      ensures data == Contents()[..len]
    {
      data := buffer[readerIndex..readerIndex + len];
    }

    method Retrieve(len: nat)
      requires Valid() && len <= |Contents()|
      modifies this
      ensures Valid() && buffer == old(buffer) && Contents() == old(Contents())[len..]
      ensures readerIndex == if len < |old(Contents())| then old(readerIndex) + len else CHEAP_PREPEND
    {
      if len < writerIndex - readerIndex {
        readerIndex := readerIndex + len;
      } else {
        RetrieveAll();
      }
    }

    method RetrieveAll()
      requires Valid()
      modifies this
      ensures Valid() && buffer == old(buffer) && Contents() == [] && readerIndex == CHEAP_PREPEND
    {
      readerIndex, writerIndex := CHEAP_PREPEND, CHEAP_PREPEND;
    }

    /** Grow, or move the readable bytes to the front. Only called when there is not enough room behind them. */
    method MakeSpace(len: nat)
      requires Valid() && Writable() < len
      modifies this, buffer
      ensures Valid() && Contents() == old(Contents()) && Writable() >= len
      ensures fresh(buffer) || buffer == old(buffer)
      ensures readerIndex == old(readerIndex) || old(readerIndex) > readerIndex == CHEAP_PREPEND
    {
      if Writable() + readerIndex < len + CHEAP_PREPEND {
        var bigger := new byte[writerIndex + len];
        CopyIn(bigger, 0, buffer[..]);
        PrefixKept(bigger[..], buffer[..], readerIndex, writerIndex);
        buffer := bigger;
      } else {
        assert CHEAP_PREPEND < readerIndex;
        var readable := writerIndex - readerIndex;
        MoveDown(buffer, readerIndex, writerIndex, CHEAP_PREPEND);
        readerIndex := CHEAP_PREPEND;
        writerIndex := readerIndex + readable;
      }
    }

    method EnsureWritableBytes(len: nat)
      requires Valid()
      modifies this, buffer
      ensures Valid() && Contents() == old(Contents()) && Writable() >= len
      ensures fresh(buffer) || buffer == old(buffer)
      ensures readerIndex == old(readerIndex) || old(readerIndex) > readerIndex == CHEAP_PREPEND
    {
      if Writable() < len {
        MakeSpace(len);
      }
    }

    method Append(data: bytes)
      requires Valid()
      modifies this, buffer
      ensures Valid() && Contents() == old(Contents()) + data
      ensures fresh(buffer) || buffer == old(buffer)
      ensures readerIndex == old(readerIndex) || old(readerIndex) > readerIndex == CHEAP_PREPEND
    {
      EnsureWritableBytes(|data|);
      Fill(data);
    }

    /** Write into the room behind the readable bytes. */
    method Fill(data: bytes)
      requires Valid() && |data| <= Writable()
      modifies this, buffer
      ensures Valid() && buffer == old(buffer) && readerIndex == old(readerIndex)
      ensures Contents() == old(Contents()) + data
    {
      ghost var was := buffer[..];
      CopyIn(buffer, writerIndex, data);
      AppendedIn(was, readerIndex, writerIndex, data, buffer[..]);
      writerIndex := writerIndex + |data|;
    }

    /** Put a header into the room in front of the readable bytes. */
    method Prepend(data: bytes)
      requires Valid() && |data| <= readerIndex
      modifies this, buffer
      ensures Valid() && buffer == old(buffer) && readerIndex == old(readerIndex) - |data|
      ensures Contents() == data + old(Contents())
    {
      ghost var was := buffer[..];
      CopyIn(buffer, readerIndex - |data|, data);
      PutInFront(was, readerIndex - |data|, writerIndex, data, buffer[..]);
      readerIndex := readerIndex - |data|;
    }

    /** Replace the storage by one with just the room asked for. */
    method Shrink(reserve: nat)
      requires Valid()
      modifies this
      ensures Valid() && Contents() == old(Contents()) && Writable() >= reserve
      ensures fresh(buffer) && readerIndex == CHEAP_PREPEND
    {
      var other := new Buffer();
      other.EnsureWritableBytes(writerIndex - readerIndex + reserve);
      var data := buffer[readerIndex..writerIndex];
      other.Fill(data);
      buffer, readerIndex, writerIndex := other.buffer, other.readerIndex, other.writerIndex;
    }

    /** What one readv can bring: the room behind the readable bytes, and the overflow area if that room is small. */
    function ReadLimit(): nat
      requires Valid()
      reads this
    {
      Writable() + if Writable() < EXTRA then EXTRA else 0
    }

    /** A read that failed, or one that brought `incoming`, scattered over the buffer and the overflow area. */
    method ReadFd(incoming: Option<bytes>) returns (n: int)
      requires Valid() && (incoming.Some? ==> |incoming.value| <= ReadLimit())
      modifies this, buffer
      ensures Valid() && (fresh(buffer) || buffer == old(buffer))
      ensures readerIndex == old(readerIndex) || old(readerIndex) > readerIndex == CHEAP_PREPEND
      ensures incoming.None? ==> n < 0 && Contents() == old(Contents())
      ensures incoming.Some? ==> n == |incoming.value| && Contents() == old(Contents()) + incoming.value
    {
      if incoming.None? {
        return -1;
      }
      var data := incoming.value;
      n := |data|;
      var writable := Writable();
      if n <= writable {
        Fill(data);
      } else {
        Fill(data[..writable]);
        Append(data[writable..]);
        assert data[..writable] + data[writable..] == data;
      }
    }
  }
}
