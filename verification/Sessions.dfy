/** What every run of the HostFS link guarantees. */
module Sessions {
  import opened Sequences
  import opened Bytes
  import opened HostFs
  import opened Usb
  import opened Wire
  import opened Protocol

  ghost predicate Initial(s: State) {
    && (forall t :: 0 <= t < |s.threads| ==> s.threads[t].Idle?)
    && s.sema == 1 && s.holder == -1
    && s.out == [] && s.inn == [] && s.pc == AtHead && s.started == [] && s.log == [] && s.answers == []
  }

  ghost predicate ValidRun(s: State, es: seq<Event>)
    decreases |es|
  {
    es == [] || (Enabled(s, es[0]) && ValidRun(Apply(s, es[0]), es[1..]))
  }

  ghost function Run(s: State, es: seq<Event>): State
    requires ValidRun(s, es)
    decreases |es|
  {
    if es == [] then s else Run(Apply(s, es[0]), es[1..])
  }

  lemma {:induction false} RunKeeps(s: State, es: seq<Event>)
    requires Inv(s) && ValidRun(s, es)
    ensures Inv(Run(s, es))
    decreases |es|
  {
    if es != [] {
      StepKeeps(s, es[0]);
      RunKeeps(Apply(s, es[0]), es[1..]);
    }
  }

  lemma Reachable(s: State, es: seq<Event>) returns (r: State)
    requires Initial(s) && ValidRun(s, es)
    ensures r == Run(s, es) && Inv(r)
  {
    r := Run(s, es);
    assert Effects([]) == [] && Frames([]) == [];
    RunKeeps(s, es);
  }

  /** For every interleaving, the PC has made of the operations exactly what they say, in
      the order they got the semaphore: no payload is taken for a header, no frame is
      lost, split or repeated, and no exchange fails. */
  lemma PcServesOperationsInOrder(s: State, es: seq<Event>)
    requires Initial(s) && ValidRun(s, es)
    ensures var r := Run(s, es);
            && |r.log| <= |r.started| && r.log == Effects(r.started[..|r.log|])
            && !r.pc.Confused?
            && forall t :: 0 <= t < |r.threads| ==> r.threads[t].Releasing? ==> r.threads[t].ok
  {
    var r := Reachable(s, es);
    assert forall t :: 0 <= t < |r.threads| && r.threads[t].Releasing? ==> t == r.holder;
  }

  /** Between frames the pipe to the PC, with what its one writer has still to add, is a
      concatenation of whole frames. */
  lemma PipeHoldsWholeFrames(s: State, es: seq<Event>)
    requires Initial(s) && ValidRun(s, es) && Run(s, es).pc.AtHead?
    ensures var r := Run(s, es);
            |r.log| <= |r.started| && AllValid(r.started[|r.log|..]) && r.out + Left(r) == Frames(r.started[|r.log|..])
  {
    var r := Reachable(s, es);
    var frames := Frames(r.started[|r.log|..]);
    assert [] + frames == frames;
  }

  /** The 512-byte read of the PC's loop returns exactly the next operation's header,
      whatever packets are queued behind it. */
  lemma LoopReadsOneHeader(s: State, es: seq<Event>, behind: seq<seq<byte>>)
    requires Initial(s) && ValidRun(s, es) && Run(s, es).pc.AtHead? && Run(s, es).out != []
    ensures var r := Run(s, es);
            && |r.log| < |r.started| && r.started[|r.log|].Valid()
            && Receive(Packets(r.out[0], HIGH_SPEED) + behind, HEAD_READ, HIGH_SPEED)
               == Got(r.started[|r.log|].Head(), behind)
  {
    var r := Reachable(s, es);
    NextIsHead(r);
    HeadFits(r.started[|r.log|]);
    ReceivesThrough(r.out[0], behind, HEAD_READ, HIGH_SPEED);
  }

  /** Quiescence: when a command's exchange is over both pipes are empty and the PC has
      served everything sent so far. */
  lemma ExchangeLeavesPipesEmpty(s: State, es: seq<Event>)
    requires Initial(s) && ValidRun(s, es)
    requires var r := Run(s, es);
             0 <= r.holder < |r.threads| && r.threads[r.holder].Releasing?
             && r.started != [] && r.started[|r.started| - 1].Command?
    ensures var r := Run(s, es);
            r.out == [] && r.inn == [] && r.pc == AtHead && r.log == Effects(r.started)
  {
    var r := Reachable(s, es);
    assert |r.log| == |r.started| && r.started[..|r.log|] == r.started;
    NothingLeft(r);
  }

  /** A thread that returns from a command holds the answer to that command: the result
      and the extra data its own handler gave for the arguments it sent. */
  lemma ReceivesOwnAnswer(s: State, es: seq<Event>, t: nat)
    requires Initial(s) && ValidRun(s, es)
    requires t < |Run(s, es).threads| && Run(s, es).threads[t].Releasing? && Run(s, es).threads[t].op.Command?
    ensures var r := Run(s, es);
            var th := r.threads[t];
            && r.log != [] && r.log[|r.log| - 1] == Ran(th.op.code, th.op.fields, th.op.extra)
            && r.answers != [] && Last(r).to == |r.log| - 1
            && |Last(r).extra| <= BLOCK && th.header == Response(th.op.code, Last(r).result, |Last(r).extra|)
            && th.data == Last(r).extra
  {
    var r := Reachable(s, es);
    HoldsAnswer(r, t);
  }

  lemma HoldsAnswer(r: State, t: nat)
    requires Inv(r) && t < |r.threads| && r.threads[t].Releasing? && r.threads[t].op.Command?
    ensures var th := r.threads[t];
            && r.log != [] && r.log[|r.log| - 1] == Ran(th.op.code, th.op.fields, th.op.extra)
            && r.answers != [] && Last(r).to == |r.log| - 1
            && |Last(r).extra| <= BLOCK && th.header == Response(th.op.code, Last(r).result, |Last(r).extra|)
            && th.data == Last(r).extra
  {
    assert r.threads[t].Critical();
    var k := |r.started| - 1;
    LastServed(r, t);
    assert Effects(r.started[..|r.log|])[k] == Effect(r.started[k]);
    TakenWhole(r.threads[t], Last(r));
  }

  lemma LastServed(r: State, t: nat)
    requires Control(r) && t < |r.threads| && t == r.holder && r.threads[t].Releasing? && r.threads[t].op.Command?
    ensures |r.log| == |r.started| > 0 && r.started[|r.started| - 1] == r.threads[t].op
    ensures Answering(r) && OnItsWay(r) == Taken(r.threads[t])
  {
    assert !Exchanging(r);
    var taken := Taken(r.threads[t]);
    assert taken + [] + [] == taken;
  }

  lemma TakenWhole(th: Thread, a: Answer)
    requires th.Releasing? && th.op.Command? && |a.extra| <= BLOCK && Taken(th) == Reply(th.op, a)
    ensures th.header == Response(th.op.code, a.result, |a.extra|) && th.data == a.extra
  {
    assert Taken(th)[0] == Reply(th.op, a)[0];
    assert Taken(th)[1..] == Data(th.data) && Reply(th.op, a)[1..] == Data(a.extra);
  }

  /** While a command waits for extra data, the data announced fits the caller's buffer
      and arrives as one transfer of that length. */
  lemma ExtraDataFits(s: State, es: seq<Event>, t: nat)
    requires Initial(s) && ValidRun(s, es)
    requires t < |Run(s, es).threads| && Run(s, es).threads[t].AwaitExtra?
    ensures var r := Run(s, es);
            r.threads[t].op.Command? && 0 < r.threads[t].n <= r.threads[t].op.inlen && (r.inn != [] ==> |r.inn| == 1 && |r.inn[0]| == r.threads[t].n)
  {
    var r := Reachable(s, es);
    assert r.threads[t].Critical();
  }

  /** No deadlock: whenever some thread is inside an operation, a step other than the
      start of another operation is enabled. */
  lemma SomeoneCanMove(s: State, es: seq<Event>, t: nat)
    requires Initial(s) && ValidRun(s, es) && t < |Run(s, es).threads| && !Run(s, es).threads[t].Idle?
    ensures exists e: Event :: !e.Begin? && Enabled(Run(s, es), e)
  {
    var r := Reachable(s, es);
    var h := r.holder;
    if h < 0 {
      assert Enabled(r, Acquire(t));
    } else {
      HolderCanMove(r);
    }
  }

  lemma HolderCanMove(r: State)
    requires Inv(r) && r.holder >= 0
    ensures exists e: Event :: !e.Begin? && Enabled(r, e)
  {
    var h := r.holder;
    assert r.threads[h].Critical();
    match r.threads[h]
    case Sending(_, _) => assert Enabled(r, Send(h));
    case Releasing(_, _, _, _) => assert Enabled(r, Release(h));
    case AwaitExtra(_, _, _) =>
      if r.inn != [] { assert Enabled(r, ReceiveExtra(h)); } else { assert Enabled(r, PcRespondExtra); }
    case AwaitHeader(op) =>
      if r.inn != [] {
        assert Enabled(r, ReceiveHeader(h));
      } else if r.pc.Respond? {
        var result: seq<byte> := seq(ResponseSize(r.pc.code) - 12, _ => 0);
        assert Enabled(r, PcRespond(result, []));
      } else {
        PcHasInput(r);
        assert Enabled(r, PcRead);
      }
  }

  /** An unserved operation nobody is still writing is in the pipe. */
  lemma PcHasInput(r: State)
    requires WholeFrames(r) && Left(r) == [] && |r.log| < |r.started|
    ensures r.out != []
  {
    assert r.out + [] == r.out;
    if r.pc.InBulk? {
      ChunksFirst(r.started[|r.log|].data[|r.pc.got|..]);
    } else if Busy(r.pc) == 0 {
      assert |r.started[|r.log|..][0].Frame()| > 0;
    }
  }

  // ---- async writes, end to end ----

  const FRAGMENT := 504

  /** usbAsyncWrite's packets for `data`. */
  function Fragments(chan: int, data: seq<byte>): seq<Op> {
    if data == [] then []
    else if |data| <= FRAGMENT then [Async(chan, data)]
    else [Async(chan, data[..FRAGMENT])] + Fragments(chan, data[FRAGMENT..])
  }

  /** The operations of a run that are packets for channel c, in order. */
  function ForChannel(ops: seq<Op>, c: int): seq<Op> {
    if ops == [] then []
    else if ops[0].Async? && ops[0].chan == c then [ops[0]] + ForChannel(ops[1..], c)
    else ForChannel(ops[1..], c)
  }

  /** What do_async writes to the client socket of channel c, all sockets being open. */
  function ToSocket(log: seq<Served>, c: int): seq<byte> {
    if log == [] then []
    else if log[0].Delivered? && log[0].chan == c && c < MAX_ASYNC_CHANNELS then log[0].payload + ToSocket(log[1..], c)
    else ToSocket(log[1..], c)
  }

  lemma {:induction false} SocketSeesChannel(ops: seq<Op>, c: int)
    ensures ToSocket(Effects(ops), c) == ToSocket(Effects(ForChannel(ops, c)), c)
  {
    if ops != [] {
      var es := Effects(ops);
      assert es[1..] == Effects(ops[1..]);
      SocketSeesChannel(ops[1..], c);
      if ops[0].Async? && ops[0].chan == c {
        assert Effects(ForChannel(ops, c))[1..] == Effects(ForChannel(ops[1..], c));
      }
    }
  }

  lemma {:induction false} FragmentsJoin(c: int, data: seq<byte>)
    requires 0 <= c < MAX_ASYNC_CHANNELS
    ensures ToSocket(Effects(Fragments(c, data)), c) == data
    ensures forall i :: 0 <= i < |Fragments(c, data)| ==> Fragments(c, data)[i].Valid()
    decreases |data|
  {
    var es := Effects(Fragments(c, data));
    if data != [] {
      var n := Min(FRAGMENT, |data|);
      assert es[1..] == Effects(Fragments(c, data[n..]));
      FragmentsJoin(c, data[n..]);
      assert data[..n] + data[n..] == data;
    }
  }

  /** The packets of one write after the other, and their data. */
  function AllFragments(chan: int, writes: seq<seq<byte>>): seq<Op> {
    if writes == [] then [] else Fragments(chan, writes[0]) + AllFragments(chan, writes[1..])
  }

  function Joined(writes: seq<seq<byte>>): seq<byte> {
    if writes == [] then [] else writes[0] + Joined(writes[1..])
  }

  lemma {:induction false} SocketOfBoth(ops: seq<Op>, more: seq<Op>, c: int)
    ensures ToSocket(Effects(ops + more), c) == ToSocket(Effects(ops), c) + ToSocket(Effects(more), c)
    decreases |ops|
  {
    if ops == [] {
      assert ops + more == more;
    } else {
      var rest := ops[1..] + more;
      assert (ops + more)[1..] == rest;
      assert Effects(ops + more)[1..] == Effects(rest) && Effects(ops)[1..] == Effects(ops[1..]);
      SocketOfBoth(ops[1..], more, c);
      if Effect(ops[0]).Delivered? {
        Assoc(Effect(ops[0]).payload, ToSocket(Effects(ops[1..]), c), ToSocket(Effects(more), c));
      }
    }
  }

  lemma {:induction false} AllFragmentsJoin(c: int, writes: seq<seq<byte>>)
    requires 0 <= c < MAX_ASYNC_CHANNELS
    ensures ToSocket(Effects(AllFragments(c, writes)), c) == Joined(writes)
    decreases |writes|
  {
    if writes != [] {
      FragmentsJoin(c, writes[0]);
      AllFragmentsJoin(c, writes[1..]);
      SocketOfBoth(Fragments(c, writes[0]), AllFragments(c, writes[1..]), c);
    }
  }

  /** However the channels' packets interleave with each other and with everything else:
      at every moment a channel whose packets so far are a beginning of those of `writes`
      has received a beginning of their data, and once the PC has caught up with all of
      them, exactly their data. */
  lemma AsyncWriteArrives(s: State, es: seq<Event>, c: int, writes: seq<seq<byte>>)
    requires Initial(s) && ValidRun(s, es) && 0 <= c < MAX_ASYNC_CHANNELS
    requires ForChannel(Run(s, es).started, c) <= AllFragments(c, writes)
    ensures ToSocket(Run(s, es).log, c) <= Joined(writes)
    ensures |Run(s, es).log| == |Run(s, es).started| && ForChannel(Run(s, es).started, c) == AllFragments(c, writes) ==>
              ToSocket(Run(s, es).log, c) == Joined(writes)
  {
    var r := Reachable(s, es);
    var packets, all, n := ForChannel(r.started, c), AllFragments(c, writes), |r.log|;
    AllFragmentsJoin(c, writes);
    SocketSeesChannel(r.started, c);
    assert all == packets + all[|packets|..];
    SocketOfBoth(packets, all[|packets|..], c);
    assert r.started == r.started[..n] + r.started[n..];
    SocketOfBoth(r.started[..n], r.started[n..], c);
    PrefixOfPrefix(ToSocket(r.log, c), ToSocket(Effects(r.started), c), Joined(writes));
    assert n == |r.started| ==> r.started[..n] == r.started;
    assert packets == all ==> all[|packets|..] == [];
  }

  lemma PrefixOfPrefix(a: seq<byte>, b: seq<byte>, c: seq<byte>)
    requires a <= b <= c
    ensures a <= c
  {
  }

  /** usbAsyncWrite: the packets it hands to send_async one after the other. */
  method UsbAsyncWrite(chan: int, data: seq<byte>) returns (packets: seq<Op>, written: nat)
    ensures packets == Fragments(chan, data) && written == |data|
  {
    packets, written := [], 0;
    assert data[0..] == data;
    while written < |data|
      invariant 0 <= written <= |data|
      invariant Fragments(chan, data) == packets + Fragments(chan, data[written..])
    {
      var size := if |data| - written > FRAGMENT then FRAGMENT else |data| - written;
      ghost var left := data[written..];
      assert left[..size] == data[written..written + size] && left[size..] == data[written + size..];
      assert Fragments(chan, left) == [Async(chan, left[..size])] + Fragments(chan, left[size..]) by {
        if |left| == size { assert left[..size] == left && left[size..] == []; }
      }
      packets := packets + [Async(chan, data[written..written + size])];
      written := written + size;
    }
  }
}
