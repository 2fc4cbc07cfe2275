/** usb_read_data and usb_write_data of usbhostfs/host_driver.c over the wire: every block
    is a command exchange on the shared link, in any interleaving with other threads, and
    the PC's handlers serve it from the file.  Together they refine one plain read or
    write of a local file. */
module RemoteCalls {
  import opened Bytes
  import opened HostFs
  import opened Usb
  import opened Wire
  import opened Protocol
  import opened Sessions
  import opened Progress
  import opened RemoteFile

  // ---- one exchange inside the link ----

  /** The PC has answered the holder's command. */
  predicate Served(s: State) {
    |s.log| == |s.started| && !s.pc.Respond?
  }

  /** Where thread t stands in the exchange of `op`, and what it was answered, if it was. */
  ghost predicate Exchange(s: State, t: nat, op: Op, served: bool, result: seq<byte>, reply: seq<byte>) {
    && t < |s.threads|
    && var th := s.threads[t];
    && !th.Idle? && th.op == op
    && (th.Waiting? ==> !served)
    && (!th.Waiting? ==> served == Served(s))
    && (served ==> s.answers != [] && Last(s) == Answer(|s.log| - 1, result, reply))
  }

  lemma BeginExchange(s: State, t: nat, op: Op)
    requires Inv(s) && Enabled(s, Begin(t, op))
    ensures Inv(Apply(s, Begin(t, op))) && Exchange(Apply(s, Begin(t, op)), t, op, false, [], [])
  {
    StepKeeps(s, Begin(t, op));
  }

  /** A thread with something left to write has not been served. */
  lemma WriterUnserved(s: State)
    requires Inv(s) && 0 <= s.holder < |s.threads| && s.threads[s.holder].Sending?
    ensures |s.log| < |s.started|
  {
    if |s.log| == |s.started| {
      NothingLeft(s);
    }
  }

  lemma ReadMeansUnserved(s: State)
    requires Inv(s) && Enabled(s, PcRead)
    ensures |s.log| < |s.started|
  {
    if |s.log| == |s.started| {
      NothingLeft(s);
    }
  }

  /** A read of the PC serves nobody before a handler answers. */
  lemma ReadExchange(s: State, t: nat)
    requires Inv(s) && Enabled(s, PcRead) && t == s.holder < |s.threads|
    requires s.threads[t].op.Command? && !s.threads[t].Releasing?
    ensures !Served(s) && !Served(Apply(s, PcRead))
  {
    ReadMeansUnserved(s);
    StepKeeps(s, PcRead);
    if s.threads[t].Sending? {
      WriterUnserved(Apply(s, PcRead));
    }
  }

  /** Before it has the semaphore, a thread is answered nothing. */
  lemma WaitingStep(s: State, e: Event, t: nat, op: Op)
    requires Enabled(s, e) && Exchange(s, t, op, false, [], []) && s.threads[t].Waiting? && |s.log| <= |s.started|
    ensures Exchange(Apply(s, e), t, op, false, [], [])
  {
  }

  /** With the semaphore, no step but a read of the PC or its own handler's answer changes
      what the exchange was answered. */
  lemma HolderStep(s: State, e: Event, t: nat, op: Op, served: bool, result: seq<byte>, reply: seq<byte>)
    requires Mutex(s) && Enabled(s, e) && Exchange(s, t, op, served, result, reply) && op.Command?
    requires !s.threads[t].Waiting? && !s.threads[t].Releasing? && !e.PcRead? && !e.PcRespond?
    ensures Exchange(Apply(s, e), t, op, served, result, reply)
  {
    assert s.threads[t].Critical();
  }

  /** The handler runs on what the thread sent. */
  lemma HandlerSeesRequest(s: State, t: nat)
    requires Inv(s) && t < |s.threads| && s.holder == t && s.pc.Respond?
    ensures s.threads[t].AwaitHeader? && s.threads[t].op.Command?
    ensures var op := s.threads[t].op;
            s.log != [] && s.log[|s.log| - 1] == Ran(op.code, op.fields, op.extra) && s.pc == Respond(op.code, op.fields)
  {
    RespondingToHolder(s);
    LastEffect(s);
  }

  lemma LastEffect(s: State)
    requires WholeFrames(s) && |s.log| == |s.started| > 0
    ensures s.log[|s.log| - 1] == Effect(s.started[|s.started| - 1])
  {
    var k := |s.started| - 1;
    assert Effects(s.started[..|s.log|])[k] == Effect(s.started[k]);
  }

  lemma AnswerExchange(s: State, t: nat, op: Op, result: seq<byte>, reply: seq<byte>)
    requires Inv(s) && s.holder == t && Exchange(s, t, op, false, [], []) && Enabled(s, PcRespond(result, reply))
    ensures var s' := Apply(s, PcRespond(result, reply));
            Inv(s') && Exchange(s', t, op, true, result, reply)
  {
    HandlerSeesRequest(s, t);
    PcRespondKeeps(s, result, reply);
  }

  // ---- command_xchg ----

  /** The link as thread t sees it: the state of everybody, the steps to come in the order
      they happen (of every thread and of the PC, in any interleaving; a step that is not
      possible does not happen), and the file open_files has under the descriptor. */
  class Connection {
    var s: State
    var schedule: seq<Event>
    const t: nat
    const f: File
    const isOpen: bool

    ghost predicate Valid()
      reads this
    {
      Inv(s) && t < |s.threads| && s.threads[t].Idle?
    }

    constructor (s: State, schedule: seq<Event>, t: nat, f: File, isOpen: bool)
      requires Initial(s) && t < |s.threads|
      ensures Valid() && this.s == s && this.schedule == schedule && this.t == t && this.f == f && this.isOpen == isOpen
    {
      this.s, this.schedule, this.t, this.f, this.isOpen := s, schedule, t, f, isOpen;
      var _ := Reachable(s, []);
    }

    /** command_xchg of a READ or WRITE, from taking the semaphore to giving it back.  When
        it returns, the header and data received are the answer of the handler that ran
        on the file; `done` is false only if the schedule ends while a step is still possible. */
    method CommandXchg(op: Op) returns (done: bool, header: Transfer, data: seq<byte>, ghost res: int, ghost piece: seq<byte>)
      requires Valid() && op.Command? && op.Valid() && Request(op.code, op.fields, op.extra) && Ready(f, op.code)
      modifies this`s, this`schedule, f`contents, f`pos, f`whims, f`moved, f`gaveUp
      ensures Ready(f, op.code) && f.Goes(old(f.Now())) && f.moved == old(f.moved) + piece
      ensures done ==> Valid() && -0x8000_0000 <= res < 0x8000_0000 && |data| <= BLOCK
      ensures done ==> header == Response(op.code, Le32(Unsigned(res)), |data|)
      ensures done ==> Outcome(op.code, op.fields, op.extra, isOpen, old(Healthy(f.whims)), res, data, piece, f.AtEnd(), f.gaveUp)
      ensures op.code.Write? ==> piece <= op.extra
      ensures done || CanMove(s)
    {
      ghost var was, served, reply := f.Now(), false, [];
      Enter(op);
      served, res, reply, piece := Play(op, was);
      header, data := [], [];
      done := s.threads[t].Releasing?;
      if done {
        header, data := Return(op, served, res, reply, piece, was);
      } else {
        BusyCanMove(s, t);
      }
    }

    method Enter(op: Op)
      requires Valid() && op.Command? && op.Valid() && Ready(f, op.code)
      modifies this`s
      ensures Underway(op, false, 0, [], [], f.Now())
    {
      BeginExchange(s, t, op);
      s := Apply(s, Begin(t, op));
      assert f.moved + [] == f.moved;
    }

    /** The steps of the schedule, up to the end of the exchange. */
    method Play(op: Op, ghost was: Before)
      returns (ghost served: bool, ghost res: int, ghost reply: seq<byte>, ghost piece: seq<byte>)
      requires Underway(op, false, 0, [], [], was) && Request(op.code, op.fields, op.extra)
      modifies this`s, this`schedule, f`contents, f`pos, f`whims, f`moved, f`gaveUp
      ensures Underway(op, served, res, reply, piece, was)
    {
      served, res, reply, piece := false, 0, [], [];
      while schedule != [] && !s.threads[t].Releasing?
        invariant Underway(op, served, res, reply, piece, was)
        decreases |schedule|
      {
        served, res, reply, piece := OneStep(op, served, res, reply, piece, was);
      }
    }

    /** The first step of the schedule, if it is possible. */
    method OneStep(op: Op, ghost served: bool, ghost res: int, ghost reply: seq<byte>, ghost piece: seq<byte>,
                   ghost was: Before)
      returns (ghost served': bool, ghost res': int, ghost reply': seq<byte>, ghost piece': seq<byte>)
      requires Underway(op, served, res, reply, piece, was) && !s.threads[t].Releasing?
      requires Request(op.code, op.fields, op.extra) && schedule != []
      modifies this`s, this`schedule, f`contents, f`pos, f`whims, f`moved, f`gaveUp
      ensures Underway(op, served', res', reply', piece', was) && schedule == old(schedule)[1..]
    {
      served', res', reply', piece' := served, res, reply, piece;
      var e := schedule[0];
      schedule := schedule[1..];
      if e.PcRespond? && s.holder == t {
        if s.pc.Respond? {
          AnsweredOnce(s, t, op, served);
          res', reply', piece' := Answer(op, was);
          served' := true;
        }
      } else if Enabled(s, e) {
        OtherStep(e, op, served, res, reply, piece, was);
      }
    }

    /** Between begin and return: what was answered, once it was, is the handler's outcome
        on the file, which nothing else has touched. */
    ghost predicate Underway(op: Op, served: bool, res: int, reply: seq<byte>, piece: seq<byte>, was: Before)
      reads this`s, f
    {
      && Inv(s) && op.Command? && -0x8000_0000 <= res < 0x8000_0000 && |reply| <= BLOCK
      && Exchange(s, t, op, served, if served then Le32(Unsigned(res)) else [], reply)
      && Ready(f, op.code) && f.Goes(was) && f.moved == was.moved + piece
      && (if served then Outcome(op.code, op.fields, op.extra, isOpen, was.healthy, res, reply, piece, f.AtEnd(), f.gaveUp)
          else res == 0 && reply == [] && piece == [] && f.Now() == was)
    }

    /** The handler's turn. */
    method Answer(op: Op, ghost was: Before)
      returns (ghost res: int, ghost reply: seq<byte>, ghost piece: seq<byte>)
      requires Underway(op, false, 0, [], [], was)
      requires Request(op.code, op.fields, op.extra) && s.holder == t && s.pc.Respond?
      modifies this`s, f`contents, f`pos, f`whims, f`moved, f`gaveUp
      ensures Underway(op, true, res, reply, piece, was) && !s.threads[t].Releasing?
    {
      HandlerSeesRequest(s, t);
      assert was.moved + [] == was.moved;
      var got := s.log[|s.log| - 1];
      var r, extra;
      r, extra, piece := Handle(f, isOpen, got.code, got.fields, got.extra);
      res, reply := r, extra;
      Respond(op, r, extra);
    }

    method Respond(op: Op, r: int, extra: seq<byte>)
      requires Inv(s) && s.holder == t && Exchange(s, t, op, false, [], []) && op.Command? && s.pc.Respond?
      requires op.code.Read? || op.code.Write?
      requires -0x8000_0000 <= r < 0x8000_0000 && |extra| <= BLOCK && MayAnswer(op.code, op.fields, extra)
      modifies this`s
      ensures Inv(s) && Exchange(s, t, op, true, Le32(Unsigned(r)), extra) && !s.threads[t].Releasing?
    {
      HandlerSeesRequest(s, t);
      AnswerExchange(s, t, op, Le32(Unsigned(r)), extra);
      s := Apply(s, PcRespond(Le32(Unsigned(r)), extra));
    }

    method OtherStep(e: Event, op: Op, ghost served: bool, ghost res: int, ghost reply: seq<byte>, ghost piece: seq<byte>, ghost was: Before)
      requires Underway(op, served, res, reply, piece, was)
      requires Enabled(s, e) && !s.threads[t].Releasing? && !(e.PcRespond? && s.holder == t)
      modifies this`s
      ensures Underway(op, served, res, reply, piece, was)
    {
      StepKeeps(s, e);
      if s.threads[t].Waiting? {
        WaitingStep(s, e, t, op);
      } else if e.PcRead? {
        assert s.threads[t].Critical();
        ReadExchange(s, t);
      } else {
        assert s.threads[t].Critical();
        HolderStep(s, e, t, op, served, if served then Le32(Unsigned(res)) else [], reply);
      }
      s := Apply(s, e);
    }

    /** The end of command_xchg: what it leaves in its caller's buffers. */
    method Return(op: Op, ghost served: bool, ghost res: int, ghost reply: seq<byte>, ghost piece: seq<byte>, ghost was: Before)
      returns (header: Transfer, data: seq<byte>)
      requires Underway(op, served, res, reply, piece, was) && s.threads[t].Releasing?
      modifies this`s
      ensures Valid() && served && data == reply && header == Response(op.code, Le32(Unsigned(res)), |data|)
    {
      HoldsAnswer(s, t);
      ReturnServed(s, t);
      header, data := s.threads[t].header, s.threads[t].data;
      StepKeeps(s, Release(t));
      s := Apply(s, Release(t));
    }
  }

  /** A handler that is about to answer has not answered before. */
  lemma AnsweredOnce(s: State, t: nat, op: Op, served: bool)
    requires Inv(s) && s.holder == t && s.pc.Respond?
    requires t < |s.threads| && (!s.threads[t].Waiting? ==> served == Served(s))
    ensures !served
  {
    HandlerSeesRequest(s, t);
  }

  lemma ReturnServed(s: State, t: nat)
    requires Inv(s) && t < |s.threads| && s.threads[t].Releasing? && s.threads[t].op.Command?
    ensures Served(s) && s.threads[t].ok
  {
    assert s.threads[t].Critical();
    LastServed(s, t);
  }

  // ---- the block loops ----

  predicate Int32(n: int) {
    -0x8000_0000 <= n < 0x8000_0000
  }

  function ReadOp(fid: int, len: nat): (op: Op)
    requires Int32(fid) && 0 < len <= BLOCK
    ensures op.Command? && op.Valid() && Request(Read, op.fields, op.extra) && op.code.Read? && Asked(op.fields) == len
  {
    var id := Le32(Unsigned(fid));
    LoadStored(id, len, []);
    assert id + Le32(len) + [] == id + Le32(len);
    Command(Read, 0, id + Le32(len), [], len)
  }

  function WriteOp(fid: int, block: seq<byte>): (op: Op)
    requires Int32(fid) && 0 < |block| <= BLOCK
    ensures op.Command? && op.Valid() && Request(Write, op.fields, op.extra) && op.code.Write? && op.extra == block
  {
    Command(Write, |block|, Le32(Unsigned(fid)), block, 0)
  }

  /** resp.res, as the caller finds it in the bytes it received. */
  function ResultOf(header: Transfer): int {
    Signed(Word(header, 12))
  }

  lemma ResultArrives(code: Code, res: int, n: nat)
    requires Int32(res) && n <= BLOCK
    ensures ResultOf(Response(code, Le32(Unsigned(res)), n)) == res
  {
    var front := Le32(HOSTFS_MAGIC) + Le32(Number(AnswerCode(code))) + Le32(n);
    LoadStored(front, Unsigned(res), []);
    assert front + Le32(Unsigned(res)) + [] == front + Le32(Unsigned(res));
  }

  /** One block of usb_read_data. */
  method ReadBlock(c: Connection, fid: int, len: nat) returns (done: bool, res: int, part: seq<byte>, ghost piece: seq<byte>)
    requires c.Valid() && Int32(fid) && 0 < len <= BLOCK && Ready(c.f, Read)
    modifies c`s, c`schedule, c.f`contents, c.f`pos, c.f`whims, c.f`moved, c.f`gaveUp
    ensures Ready(c.f, Read) && c.f.Goes(old(c.f.Now())) && c.f.moved == old(c.f.moved) + piece
    ensures done ==> c.Valid() && |part| == (if res > 0 then res else 0) <= len && (res >= 0 ==> part == piece)
    ensures done && c.isOpen && 0 <= res < len ==> c.f.AtEnd()
    ensures done && c.isOpen && old(Healthy(c.f.whims)) ==> res >= 0
    ensures done && !c.isOpen ==> res == -1 && piece == []
    ensures done || CanMove(c.s)
  {
    var header;
    ghost var r;
    done, header, part, r, piece := c.CommandXchg(ReadOp(fid, len));
    if done {
      ResultArrives(Read, r, |part|);
    }
    res := ResultOf(header);
  }

  /** One block of usb_write_data. */
  method WriteBlock(c: Connection, fid: int, block: seq<byte>) returns (done: bool, res: int, ghost k: nat)
    requires c.Valid() && Int32(fid) && 0 < |block| <= BLOCK && Ready(c.f, Write)
    modifies c`s, c`schedule, c.f`contents, c.f`pos, c.f`whims, c.f`moved, c.f`gaveUp
    ensures Ready(c.f, Write) && c.f.Goes(old(c.f.Now()))
    ensures k <= |block| && c.f.moved == old(c.f.moved) + block[..k]
    ensures done ==> c.Valid() && (res == k || res < 0)
    ensures done && c.isOpen && old(Healthy(c.f.whims)) ==> res == k
    ensures done && c.isOpen && res < |block| ==> c.f.gaveUp
    ensures done && !c.isOpen ==> res == -1 && k == 0
    ensures done || CanMove(c.s)
  {
    var header, data;
    ghost var r, piece;
    done, header, data, r, piece := c.CommandXchg(WriteOp(fid, block));
    k := |piece|;
    if done {
      ResultArrives(Write, r, |data|);
    }
    res := ResultOf(header);
  }

  /** The block loops of usb_read_data.  `lost` is what a failing read had moved. */
  method ReadBlocks(c: Connection, fid: int, len: nat) returns (done: bool, ret: int, data: seq<byte>, ghost lost: seq<byte>)
    requires c.Valid() && Int32(fid) && Ready(c.f, Read) && c.f.moved == []
    modifies c`s, c`schedule, c.f`contents, c.f`pos, c.f`whims, c.f`moved, c.f`gaveUp
    ensures Ready(c.f, Read) && c.f.moved == data + lost
    ensures done ==> c.Valid() && |data| <= len && (ret == |data| || (data == [] && ret < 0))
    ensures done && c.isOpen && old(Healthy(c.f.whims)) ==> ret == |data| && lost == [] && (ret < len ==> c.f.AtEnd())
    ensures done && !c.isOpen && len > 0 ==> ret == -1 && data == [] && lost == []
    ensures done || CanMove(c.s)
  {
    done, ret, data, lost := true, 0, [], [];
    var blocks, residual := len / BLOCK, len % BLOCK;
    ghost var left := len;
    while blocks > 0
      invariant 0 <= blocks && left == blocks * BLOCK + residual && ret == |data| <= len - left
      invariant |data| == len - left || c.f.AtEnd()
      invariant done && c.Valid() && lost == []
      invariant Ready(c.f, Read) && c.f.Goes(old(c.f.Now())) && c.f.moved == data
      invariant !c.isOpen ==> data == [] && left == len
    {
      var more;
      done, ret, data, lost, more := AddBlock(c, fid, BLOCK, ret, data);
      if !more {
        return;
      }
      blocks, left := blocks - 1, left - BLOCK;
    }
    if residual > 0 {
      var more;
      done, ret, data, lost, more := AddBlock(c, fid, residual, ret, data);
    }
  }

  /** One turn: `more` says whether there is another one. */
  method AddBlock(c: Connection, fid: int, len: nat, ret: int, data: seq<byte>)
    returns (done: bool, ret': int, data': seq<byte>, ghost lost: seq<byte>, more: bool)
    requires c.Valid() && Int32(fid) && 0 < len <= BLOCK && Ready(c.f, Read) && c.f.moved == data && ret == |data|
    requires !c.isOpen ==> data == []
    modifies c`s, c`schedule, c.f`contents, c.f`pos, c.f`whims, c.f`moved, c.f`gaveUp
    ensures Ready(c.f, Read) && c.f.Goes(old(c.f.Now())) && c.f.moved == data' + lost
    ensures done ==> c.Valid() && |data| <= |data'| <= |data| + len
    ensures more ==> done && c.isOpen && lost == [] && ret' == |data'| && (|data'| == |data| + len || c.f.AtEnd())
    ensures done && !more ==> data' == data && (ret' == |data| || (data == [] && ret' < 0))
    ensures done && c.isOpen && old(Healthy(c.f.whims)) ==> lost == [] && ret' == |data'| && (more || c.f.AtEnd())
    ensures done && !c.isOpen ==> ret' == -1 && data' == [] && lost == []
    ensures done || CanMove(c.s)
  {
    var res, part;
    ghost var piece;
    done, res, part, piece := ReadBlock(c, fid, len);
    ret', data', lost, more := ret, data, piece, false;
    if done && res > 0 {
      ret', data', lost, more := ret + res, data + part, [], true;
      assert data' + [] == data';
    } else if done && res < 0 && ret == 0 {
      ret' := res;
    }
  }

  /** usb_read_data over the wire, in any interleaving, on a file nobody else changes:
      the data is what a plain read from the old position returns, and the position moves
      past it; a healthy file gives min(len, size - pos) bytes, and a failing read loses
      `lost`.  `len` is the C int; a negative one is refused, and a descriptor that is not
      open answers -1.  `done` is false while the exchange has not returned. */
  method UsbReadData(c: Connection, fid: int, len: int) returns (done: bool, ret: int, data: seq<byte>, ghost lost: seq<byte>)
    requires c.Valid() && Int32(fid) && Sane(c.f.whims)
    modifies c`s, c`schedule, c.f
    ensures len < 0 ==> done && ret == -1 && data == lost == []
    ensures c.f.contents == old(c.f.contents) && c.f.pos == old(c.f.pos) + |data + lost|
    ensures data + lost == ReadAt(c.f.contents, old(c.f.pos), |data + lost|)
    ensures done ==> c.Valid() && (ret == |data| || (data == [] && ret < 0))
    ensures done && len >= 0 && c.isOpen && old(Healthy(c.f.whims)) ==>
              lost == [] && ret == |data| && data == ReadAt(c.f.contents, old(c.f.pos), len)
    ensures done && len > 0 && !c.isOpen ==> ret == -1 && data == lost == []
    ensures done || CanMove(c.s)
  {
    c.f.Mark();
    if len < 0 {
      return true, -1, [], [];
    }
    done, ret, data, lost := ReadBlocks(c, fid, len);
    if done && c.isOpen && lost == [] && ret == |data| && (ret < len ==> c.f.AtEnd()) {
      assert data + [] == data;
      ReadToTheEnd(c.f.contents, old(c.f.pos), data, len);
    }
  }

  lemma ReadToTheEnd(contents: seq<byte>, pos: nat, data: seq<byte>, len: nat)
    requires data == ReadAt(contents, pos, |data|) && |data| <= len
    requires |data| < len ==> pos + |data| >= |contents|
    ensures data == ReadAt(contents, pos, len)
  {
  }

  /** The block loops of usb_write_data. */
  method WriteBlocks(c: Connection, fid: int, data: seq<byte>) returns (done: bool, ret: int, ghost stored: nat)
    requires c.Valid() && Int32(fid) && Ready(c.f, Write) && c.f.moved == []
    modifies c`s, c`schedule, c.f`contents, c.f`pos, c.f`whims, c.f`moved, c.f`gaveUp
    ensures Ready(c.f, Write) && stored <= |data| && c.f.moved == data[..stored]
    ensures done ==> c.Valid() && ret <= stored
    ensures done && c.isOpen && old(Healthy(c.f.whims)) ==> ret == stored
    ensures done && c.isOpen ==> ret == stored == |data| || c.f.gaveUp
    ensures old(Willing(c.f.whims)) ==> c.f.gaveUp == old(c.f.gaveUp)
    ensures done && !c.isOpen && data != [] ==> ret == -1 && stored == 0
    ensures done || CanMove(c.s)
  {
    done, ret, stored := true, 0, 0;
    var blocks, residual := |data| / BLOCK, |data| % BLOCK;
    ghost var left := |data|;
    while blocks > 0
      invariant 0 <= blocks && left == blocks * BLOCK + residual && stored <= |data| - left
      invariant done && c.Valid() && ret == stored
      invariant Ready(c.f, Write) && c.f.Goes(old(c.f.Now())) && c.f.moved == data[..stored]
      invariant c.isOpen ==> stored == |data| - left || c.f.gaveUp
      invariant !c.isOpen ==> stored == 0 && left == |data|
    {
      var more;
      done, ret, stored, more := StoreBlock(c, fid, data, BLOCK, ret);
      if !more {
        return;
      }
      blocks, left := blocks - 1, left - BLOCK;
    }
    if residual > 0 {
      var more;
      done, ret, stored, more := StoreBlock(c, fid, data, residual, ret);
    }
  }

  /** One turn: the next `size` bytes behind the `ret` stored ones. */
  method StoreBlock(c: Connection, fid: int, data: seq<byte>, size: nat, ret: nat)
    returns (done: bool, ret': int, ghost stored: nat, more: bool)
    requires c.Valid() && Int32(fid) && 0 < size <= BLOCK && ret + size <= |data|
    requires Ready(c.f, Write) && c.f.moved == data[..ret] && (!c.isOpen ==> ret == 0)
    modifies c`s, c`schedule, c.f`contents, c.f`pos, c.f`whims, c.f`moved, c.f`gaveUp
    ensures Ready(c.f, Write) && c.f.Goes(old(c.f.Now()))
    ensures ret <= stored <= ret + size && c.f.moved == data[..stored]
    ensures done ==> c.Valid() && ret' <= stored
    ensures more ==> done && c.isOpen && ret' == stored
    ensures done && c.isOpen && old(Healthy(c.f.whims)) ==> ret' == stored
    ensures done && c.isOpen ==> (more && stored == ret + size) || c.f.gaveUp
    ensures done && !c.isOpen ==> ret' == -1 && stored == 0
    ensures done || CanMove(c.s)
  {
    var res;
    ghost var k;
    done, res, k := WriteBlock(c, fid, data[ret..ret + size]);
    PrefixGrows(data, ret, size, k);
    ret', stored, more := ret, ret + k, false;
    if done && res > 0 {
      ret', more := ret + res, true;
    } else if done && res < 0 && ret == 0 {
      ret' := res;
    }
  }

  lemma PrefixGrows(data: seq<byte>, n: nat, size: nat, k: nat)
    requires k <= size && n + size <= |data|
    ensures data[..n] + data[n..n + size][..k] == data[..n + k]
  {
  }

  /** usb_write_data over the wire, in any interleaving: `stored` bytes of data, always a
      prefix, lie contiguously in the file from the old position on, also when calls take
      less than they are given; the result is exactly their number unless the file failed.
      Some of the data is left over only if a call failed or took nothing, so a file of
      which none does takes it all. */
  method UsbWriteData(c: Connection, fid: int, data: seq<byte>) returns (done: bool, ret: int, ghost stored: nat)
    requires c.Valid() && Int32(fid) && Sane(c.f.whims)
    modifies c`s, c`schedule, c.f
    ensures stored <= |data|
    ensures c.f.contents == WriteAt(old(c.f.contents), old(c.f.pos), data[..stored]) && c.f.pos == old(c.f.pos) + stored
    ensures done ==> c.Valid() && ret <= stored
    ensures done && c.isOpen && old(Healthy(c.f.whims)) ==> ret == stored
    ensures done && c.isOpen ==> ret == stored == |data| || c.f.gaveUp
    ensures done && c.isOpen && old(Willing(c.f.whims)) ==> ret == stored == |data| && !c.f.gaveUp
    ensures done && !c.isOpen && data != [] ==> ret == -1 && stored == 0
    ensures done || CanMove(c.s)
  {
    c.f.Mark();
    done, ret, stored := WriteBlocks(c, fid, data);
  }
}
