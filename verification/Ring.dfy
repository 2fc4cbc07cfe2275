/** The 4096-byte ring that the async channels, the stdin tty and the kprintf
    driver each keep: a buffer, a read and a write position, and a count. */
module Ring {
  import opened Bytes

  const RING_SIZE := 4096

  /** The cell i places after `start`, around the end of the buffer. */
  function Slot(start: nat, i: nat): (k: nat)
    ensures k < RING_SIZE
  {
    (start + i) % RING_SIZE
  }

  lemma DropSlots(readPos: nat, size: nat, n: nat)
    requires n <= size
    ensures (Slot(readPos, n) + (size - n)) % RING_SIZE == (readPos + size) % RING_SIZE
    ensures forall i :: 0 <= i < size - n ==> Slot(Slot(readPos, n), i) == Slot(readPos, n + i)
  {
  }

  datatype Ring = Ring(buffer: seq<byte>, readPos: nat, writePos: nat, size: nat)
  {
    ghost predicate Valid() {
      && |buffer| == RING_SIZE
      && readPos < RING_SIZE
      && size <= RING_SIZE
      && writePos == (readPos + size) % RING_SIZE
    }

    /** The queued bytes, oldest first. */
    function Contents(): (s: seq<byte>)
      requires |buffer| == RING_SIZE
      ensures |s| == size
    {
      seq(size, i requires 0 <= i < size => buffer[Slot(readPos, i)])
    }

    function Put(b: byte): Ring
      requires |buffer| == RING_SIZE && writePos < RING_SIZE
    {
      Ring(buffer[writePos := b], readPos, (writePos + 1) % RING_SIZE, size + 1)
    }

    /** The loop of fill_async and ttyAddInputData: as much of `data` as there is room for. */
    function PutMany(data: seq<byte>): (r: Ring)
      requires Valid()
      ensures r.Valid() && r.Contents() == Contents() + data[..Accepts(|data|)]
      decreases |data|
    {
      if data == [] || size == RING_SIZE then assert data[..0] == []; this
      else
        PutAppends(this, data[0]);
        assert data[..Accepts(|data|)] == [data[0]] + data[1..][..Accepts(|data|) - 1];
        Put(data[0]).PutMany(data[1..])
    }

    function Accepts(n: nat): nat
      requires size <= RING_SIZE
    {
      Min(n, RING_SIZE - size)
    }

    /** Advance past the n oldest bytes. */
    function Drop(n: nat): (r: Ring)
      requires Valid() && n <= size
      ensures r.Valid() && r.Contents() == Contents()[n..]
    {
      var r := Ring(buffer, Slot(readPos, n), writePos, size - n);
      DropSlots(readPos, size, n);
      r
    }
  }

  /** A free slot is never one of the queued ones. */
  lemma PutAppends(r: Ring, b: byte)
    requires r.Valid() && r.size < RING_SIZE
    ensures r.Put(b).Valid() && r.Put(b).Contents() == r.Contents() + [b]
  {
    var s := r.Put(b);
    forall i | 0 <= i < r.size ensures s.buffer[Slot(r.readPos, i)] == r.buffer[Slot(r.readPos, i)] {
      assert Slot(r.readPos, i) != Slot(r.readPos, r.size);
    }
  }

  /** A producer that respects the count never touches a queued cell, so a consumer may
      read the n oldest cells without a lock until it advances past them. */
  lemma PutKeepsQueuedCells(r: Ring, b: byte, i: nat)
    requires r.Valid() && r.size < RING_SIZE && i < r.size
    ensures r.Put(b).buffer[Slot(r.readPos, i)] == r.Contents()[i]
  {
    PutAppends(r, b);
    assert r.Put(b).Contents()[i] == r.Contents()[i];
  }

  lemma DropOneMore(r: Ring, n: nat)
    requires r.Valid() && n < r.size
    ensures r.Drop(n).Drop(1) == r.Drop(n + 1)
    ensures r.Contents()[..n + 1] == r.Contents()[..n] + [r.Drop(n).Contents()[0]]
  {
    assert Slot(Slot(r.readPos, n), 1) == Slot(r.readPos, n + 1);
  }

  /** Two steps that each conserve a byte stream conserve it together. */
  lemma ConservationChains(held: seq<byte>, in1: seq<byte>, out1: seq<byte>, mid: seq<byte>,
                           in2: seq<byte>, out2: seq<byte>, left: seq<byte>)
    requires held + in1 == out1 + mid && mid + in2 == out2 + left
    ensures held + (in1 + in2) == (out1 + out2) + left
  {
    assert held + (in1 + in2) == (held + in1) + in2;
    assert (out1 + mid) + in2 == out1 + (mid + in2);
    assert out1 + (out2 + left) == (out1 + out2) + left;
  }

  // ---- on an array ----

  class ByteRing {
    const buffer: array<byte>
    var readPos: nat
    var writePos: nat
    var size: nat

    ghost predicate Valid()
      reads this, buffer
    {
      buffer.Length == RING_SIZE && Now().Valid()
    }

    ghost function Now(): Ring
      reads this, buffer
    {
      Ring(buffer[..], readPos, writePos, size)
    }

    constructor ()
      ensures Valid() && fresh(buffer) && readPos == writePos == size == 0
    {
      buffer := new byte[RING_SIZE](_ => 0);
      readPos, writePos, size := 0, 0, 0;
    }

    /** One store and advance; the caller has checked the count. */
    method Put(b: byte)
      requires Valid() && size < RING_SIZE
      modifies this`writePos, this`size, buffer
      ensures Valid() && Now() == old(Now()).Put(b)
    {
      PutAppends(Now(), b);
      buffer[writePos] := b;
      writePos := (writePos + 1) % RING_SIZE;
      size := size + 1;
    }

    method PutMany(data: seq<byte>)
      requires Valid()
      modifies this`writePos, this`size, buffer
      ensures Valid() && Now() == old(Now()).PutMany(data)
    {
      var sizeleft := if |data| < RING_SIZE - size then |data| else RING_SIZE - size;
      var k := 0;
      assert data[0..] == data;
      while sizeleft > 0
        invariant Valid()
        invariant 0 <= k <= |data| && sizeleft == Min(|data| - k, RING_SIZE - size)
        invariant old(Now()).PutMany(data) == Now().PutMany(data[k..])
      {
        assert data[k..][1..] == data[k + 1..];
        Put(data[k]);
        k := k + 1;
        sizeleft := sizeleft - 1;
      }
    }

    /** The loop of usbAsyncRead and inputHandler: the n oldest bytes, one by one. */
    method Take(n: nat) returns (data: seq<byte>)
      requires Valid() && n <= size
      modifies this`readPos, this`size
      ensures Valid() && Now() == old(Now()).Drop(n)
      ensures data == old(Now().Contents())[..n]
    {
      data := [];
      ghost var was := Now();
      var i := 0;
      while i < n
        invariant 0 <= i <= n
        invariant Valid() && Now() == was.Drop(i)
        invariant data == was.Contents()[..i]
      {
        DropOneMore(was, i);
        data := data + [buffer[readPos]];
        readPos := (readPos + 1) % RING_SIZE;
        size := size - 1;
        i := i + 1;
      }
    }

    /** The commit of the kprintf thread: give n cells back at once. */
    method Advance(n: nat)
      requires Valid() && n <= size
      modifies this`readPos, this`size
      ensures Valid() && Now() == old(Now()).Drop(n)
    {
      size := size - n;
      readPos := (readPos + n) % RING_SIZE;
    }

    method Clear()
      requires Valid()
      modifies this`readPos, this`writePos, this`size
      ensures Valid() && Now().Contents() == [] && readPos == writePos == 0
    {
      size, readPos, writePos := 0, 0, 0;
    }
  }
}
