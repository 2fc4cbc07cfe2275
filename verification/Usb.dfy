/** Bulk transfers on a healthy USB pipe, as the PSP driver and the PC server use them.

    A transfer travels as packets of the endpoint's size, the last one shorter unless
    the length divides evenly (no empty packet follows).  A read of n bytes collects
    packets until it has n bytes or meets a short one. */
module Usb {
  import opened Bytes
  import opened HostFs

  const HIGH_SPEED := 512
  const FULL_SPEED := 64

  type Transfer = seq<byte>

  function Packets(t: Transfer, mps: nat): seq<seq<byte>>
    requires mps > 0
  {
    if |t| <= mps then [t] else [t[..mps]] + Packets(t[mps..], mps)
  }

  datatype Receipt = Waiting | Overrun | Got(data: seq<byte>, rest: seq<seq<byte>>)
  {
    function Behind(prefix: seq<byte>): Receipt {
      if Got? then Got(prefix + data, rest) else this
    }
  }

  function Receive(pipe: seq<seq<byte>>, size: nat, mps: nat): Receipt
    requires mps > 0
    decreases |pipe|
  {
    if pipe == [] then Waiting
    else
      var p := pipe[0];
      if |p| > size then Overrun
      else if |p| == size || |p| < mps then Got(p, pipe[1..])
      else Receive(pipe[1..], size - |p|, mps).Behind(p)
  }

  /** A read of `size` bytes ends exactly where transfer t ends. */
  predicate Fits(length: nat, size: nat, mps: nat)
    requires mps > 0
  {
    length <= size && (length == size || length % mps != 0)
  }

  lemma {:induction false} ReceivesThrough(t: Transfer, rest: seq<seq<byte>>, size: nat, mps: nat)
    requires mps > 0 && 0 < |t| <= size
    ensures Receive(Packets(t, mps) + rest, size, mps)
         == if Fits(|t|, size, mps) then Got(t, rest) else Receive(rest, size - |t|, mps).Behind(t)
    decreases |t|
  {
    var pipe := Packets(t, mps) + rest;
    if |t| <= mps {
      FitsOnePacket(|t|, size, mps);
      assert pipe[1..] == rest;
    } else {
      var t' := t[mps..];
      assert pipe[1..] == Packets(t', mps) + rest;
      ReceivesThrough(t', rest, size - mps, mps);
      FitsShift(|t|, size, mps);
      assert t[..mps] + t' == t;
      BehindBehind(Receive(rest, size - |t|, mps), t[..mps], t');
    }
  }

  lemma FitsOnePacket(n: nat, size: nat, mps: nat)
    requires 0 < n <= mps && n <= size
    ensures Fits(n, size, mps) <==> n == size || n < mps
  {
    if n == mps { DivUnique(n, mps, 1, 0); } else { DivUnique(n, mps, 0, n); }
  }

  lemma FitsShift(n: nat, size: nat, mps: nat)
    requires 0 < mps < n <= size
    ensures Fits(n, size, mps) <==> Fits(n - mps, size - mps, mps)
  {
    SameRemainder(n, mps);
  }

  lemma SameRemainder(n: nat, m: nat)
    requires 0 < m <= n
    ensures n % m == (n - m) % m
  {
    var q, r := (n - m) / m, (n - m) % m;
    assert n == (q + 1) * m + r;
    DivUnique(n, m, q + 1, r);
  }

  lemma DivUnique(n: nat, m: nat, q: nat, r: nat)
    requires m > 0 && n == q * m + r && r < m
    ensures n % m == r
  {
    var d := n / m - q;
    assert d * m == r - n % m;
    assert d > 0 ==> d * m == (d - 1) * m + m;
    assert d < 0 ==> d * m == (d + 1) * m - m;
  }

  lemma BehindBehind(r: Receipt, a: seq<byte>, b: seq<byte>)
    ensures r.Behind(b).Behind(a) == r.Behind(a + b)
  {
    if r.Got? {
      assert a + (b + r.data) == (a + b) + r.data;
    }
  }

  /** Whatever follows in the pipe, a read returns exactly one transfer if and only if
      the transfer fits; otherwise it runs on into the next one. */
  lemma ReadsOneTransferExactly(t: Transfer, size: nat, mps: nat)
    requires mps > 0 && 0 < |t| <= size
    ensures Fits(|t|, size, mps) <==>
            forall rest :: Receive(Packets(t, mps) + rest, size, mps) == Got(t, rest)
  {
    if Fits(|t|, size, mps) {
      forall rest ensures Receive(Packets(t, mps) + rest, size, mps) == Got(t, rest) {
        ReceivesThrough(t, rest, size, mps);
      }
    } else {
      ReceivesThrough(t, [], size, mps);
      assert Receive(Packets(t, mps) + [], size, mps) == Waiting;
    }
  }

  // ---- write_data, read_data and do_bulk cut at 64 KiB ----

  /** The transfers write_data makes of `data`. */
  function Chunks(data: seq<byte>): seq<Transfer> {
    if data == [] then []
    else if |data| <= BLOCK then [data]
    else [data[..BLOCK]] + Chunks(data[BLOCK..])
  }

  /** The read sizes of do_bulk (and of read_data) for `len` bytes. */
  function ReadSizes(len: nat): seq<nat> {
    if len == 0 then []
    else if len <= BLOCK then [len]
    else [BLOCK] + ReadSizes(len - BLOCK)
  }

  function Join(ts: seq<Transfer>): seq<byte> {
    if ts == [] then [] else ts[0] + Join(ts[1..])
  }

  /** One read per transfer, each of exactly its size, and together they are the data. */
  lemma {:induction false} ChunksMatchReads(data: seq<byte>)
    ensures |Chunks(data)| == |ReadSizes(|data|)|
    ensures forall i :: 0 <= i < |Chunks(data)| ==> |Chunks(data)[i]| == ReadSizes(|data|)[i]
    ensures Join(Chunks(data)) == data
    decreases |data|
  {
    if data != [] {
      if |data| <= BLOCK {
        assert Join([data]) == data + Join([]);
      } else {
        ChunksMatchReads(data[BLOCK..]);
      }
    }
  }

  lemma ChunksFirst(data: seq<byte>)
    requires data != []
    ensures var n := Min(BLOCK, |data|); Chunks(data) == [data[..n]] + Chunks(data[n..])
  {
    var n := Min(BLOCK, |data|);
    if |data| <= BLOCK {
      assert data[..n] == data && data[n..] == [];
    }
  }

  /** do_bulk's reads against the transfers in the pipe: each must be met by one whole
      transfer of its size; the first that is not has still used its transfer up. */
  function TakeBlocks(q: seq<Transfer>, len: nat): (r: (bool, seq<byte>, seq<Transfer>))
    decreases len
  {
    if len == 0 then (true, [], q)
    else
      var n := Min(BLOCK, len);
      if q == [] then (false, [], q)
      else if |q[0]| != n then (false, [], q[1..])
      else
        var (ok, data, rest) := TakeBlocks(q[1..], len - n);
        (ok, q[0] + data, rest)
  }

  /** Reads by size meet writes by size one for one, so the data comes out whole and the
      next frame stays in the pipe. */
  lemma {:induction false} TakesWhatWasWritten(data: seq<byte>, rest: seq<Transfer>)
    ensures TakeBlocks(Chunks(data) + rest, |data|) == (true, data, rest)
    decreases |data|
  {
    if data == [] {
      assert Chunks(data) + rest == rest;
    } else {
      ChunksFirst(data);
      var n := Min(BLOCK, |data|);
      var q := Chunks(data) + rest;
      assert q[1..] == Chunks(data[n..]) + rest;
      TakesWhatWasWritten(data[n..], rest);
      assert data[..n] + data[n..] == data;
    }
  }

  /** One direction of the link: the transfers not yet read. */
  class Pipe {
    var queue: seq<Transfer>

    /** write_data: one request per block until all is written. */
    method WriteData(data: seq<byte>)
      modifies this
      ensures queue == old(queue) + Chunks(data)
    {
      var writelen := 0;
      assert data[0..] == data;
      while writelen < |data|
        invariant 0 <= writelen <= |data|
        invariant queue + Chunks(data[writelen..]) == old(queue) + Chunks(data)
      {
        var nextsize := if |data| - writelen > BLOCK then BLOCK else |data| - writelen;
        ghost var left := data[writelen..];
        ChunksFirst(left);
        assert left[..nextsize] == data[writelen..writelen + nextsize];
        assert left[nextsize..] == data[writelen + nextsize..];
        queue := queue + [data[writelen..writelen + nextsize]];
        writelen := writelen + nextsize;
      }
      assert data[writelen..] == [] && queue + Chunks([]) == queue;
    }

    /** The read loop of do_bulk. */
    method ReadBlocks(len: nat) returns (ok: bool, data: seq<byte>)
      modifies this
      ensures ok == TakeBlocks(old(queue), len).0
      ensures data == TakeBlocks(old(queue), len).1 && queue == TakeBlocks(old(queue), len).2
    {
      data := [];
      ghost var goal := TakeBlocks(queue, len);
      while |data| < len
        invariant |data| <= len
        invariant goal.0 == TakeBlocks(queue, len - |data|).0 && goal.2 == TakeBlocks(queue, len - |data|).2
        invariant goal.1 == data + TakeBlocks(queue, len - |data|).1
      {
        var readsize := if len - |data| > BLOCK then BLOCK else len - |data|;
        if queue == [] {
          return false, data;
        }
        if |queue[0]| != readsize {
          queue := queue[1..];
          return false, data;
        }
        data := data + queue[0];
        queue := queue[1..];
      }
      ok := true;
    }
  }
}
