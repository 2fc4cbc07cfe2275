/** The HostFS link as a step system: any number of PSP threads, the semaphore, the two
    pipes and the PC's loop, in one connection without USB errors at high speed. */
module Protocol {
  import opened Options
  import opened Sequences
  import opened Bytes
  import opened HostFs
  import opened Usb
  import opened Wire

  /** A thread in command_xchg, send_async or usbWriteBulkData. */
  datatype Thread =
    | Idle
    | Waiting(op: Op)                           // before sceKernelWaitSema returns
    | Sending(op: Op, left: seq<Transfer>)      // between its writes
    | AwaitHeader(op: Op)
    | AwaitExtra(op: Op, header: Transfer, n: nat)
    | Releasing(ok: bool, op: Op, header: Transfer, data: seq<byte>)  // before sceKernelSignalSema, with resp and indata
  {
    predicate Critical() { !Idle? && !Waiting? }
  }

  /** What the PC makes of a frame. */
  datatype Served =
    | Ran(code: Code, fields: seq<byte>, extra: seq<byte>)  // a handler with its arguments
    | Delivered(chan: int, payload: seq<byte>)              // do_async
    | Stored(data: seq<byte>)                               // do_bulk

  /** start_hostfs and the handlers. */
  datatype Pc =
    | AtHead                                                    // the 512-byte read of the loop
    | NeedExtra(code: Code, fields: seq<byte>, n: nat)          // a handler's read of extralen bytes
    | Respond(code: Code, fields: seq<byte>)                    // before it writes the response
    | RespondExtra(data: seq<byte>)                             // before it writes the response's extra data
    | InBulk(len: nat, got: seq<byte>)                          // the read loop of do_bulk
    | Confused                                                  // an unknown word, a refused command, a short read

  /** What a handler answered to the operation `to` of the log. */
  datatype Answer = Answer(to: int, result: seq<byte>, extra: seq<byte>)

  /** `started`, `log`, `answers` and `holder` are histories: the operations in the order
      they got the semaphore, what the PC has made of them, what its handlers answered,
      and who holds the semaphore (-1 for nobody). */
  datatype State = State(threads: seq<Thread>, sema: nat, out: seq<Transfer>, inn: seq<Transfer>, pc: Pc,
                         started: seq<Op>, log: seq<Served>, answers: seq<Answer>, holder: int)

  datatype Event =
    | Begin(t: nat, op: Op)
    | Acquire(t: nat)
    | Send(t: nat)
    | ReceiveHeader(t: nat)
    | ReceiveExtra(t: nat)
    | Release(t: nat)
    | PcRead
    | PcRespond(result: seq<byte>, extra: seq<byte>)
    | PcRespondExtra

  // ---- the PC's side of one transfer ----

  /** The loop's dispatch on the first word, and the start of a handler. */
  function Dispatch(t: Transfer): (Pc, seq<Served>) {
    var magic := Word(t, 0);
    if |t| < 4 then (Confused, [])
    else if magic == HOSTFS_MAGIC then
      if |t| < 12 then (Confused, [])
      else
        match Decode(Word(t, 4))
        case None => (Confused, [])
        case Some(code) =>
          if !code.Hello? && |t| != CommandSize(code) then (Confused, [])
          else
            var n := Word(t, 8);
            if NeedsExtra(code) then (if n == 0 then (Confused, []) else (NeedExtra(code, t[12..], n), []))
            else if MayHaveExtra(code) && Signed(n) > 0 then (NeedExtra(code, t[12..], n), [])
            else (Respond(code, t[12..]), [Ran(code, t[12..], [])])
    else if magic == ASYNC_MAGIC then
      if |t| < 8 then (Confused, [])
      else if |t| == 8 then (AtHead, [])
      else (AtHead, [Delivered(Word(t, 4), t[8..])])
    else if magic == BULK_MAGIC then
      if |t| < 8 then (Confused, [])
      else if Signed(Word(t, 4)) <= 0 then (AtHead, [Stored([])])
      else (InBulk(Word(t, 4), []), [])
    else (Confused, [])
  }

  /** One read by the PC, of the size its position calls for. */
  function Consume(pc: Pc, t: Transfer): (Pc, seq<Served>) {
    match pc
    case AtHead => if Fits(|t|, HEAD_READ, HIGH_SPEED) then Dispatch(t) else (Confused, [])
    case NeedExtra(code, fields, n) =>
      if |t| != n then (Confused, []) else (Respond(code, fields), [Ran(code, fields, t)])
    case InBulk(len, got) =>
      if |got| > len || |t| != Min(BLOCK, len - |got|) then (Confused, [])
      else if |got + t| == len then (AtHead, [Stored(got + t)])
      else (InBulk(len, got + t), [])
    case _ => (Confused, [])
  }

  /** The extra data a handler may answer with: file bytes up to the length asked for,
      one directory entry, one stat block, the drive information, or nothing. */
  predicate MayAnswer(code: Code, fields: seq<byte>, extra: seq<byte>) {
    match code
    case Read => |extra| == 0 || |extra| <= Signed(Word(fields, 4))
    case Dread => |extra| in {0, DIRENT_SIZE}
    case Getstat => |extra| in {0, STAT_SIZE}
    case Devctl => |extra| == 0 || (Word(fields, 0) == GET_INFO && |extra| == INFO_SIZE)
    case _ => |extra| == 0
  }

  /** handle_dread answers with the code of READ. */
  function AnswerCode(code: Code): Code {
    if code.Dread? then Read else code
  }

  function Response(code: Code, result: seq<byte>, n: nat): Transfer
    requires n < 0x1_0000_0000
  {
    Le32(HOSTFS_MAGIC) + Le32(Number(AnswerCode(code))) + Le32(n) + result
  }

  // ---- steps ----

  function Set(s: State, t: nat, th: Thread): State
    requires t < |s.threads|
  {
    s.(threads := s.threads[t := th])
  }

  predicate Enabled(s: State, e: Event) {
    match e
    case Begin(t, op) => t < |s.threads| && s.threads[t].Idle? && op.Valid()
    case Acquire(t) => t < |s.threads| && s.threads[t].Waiting? && s.threads[t].op.Valid() && s.sema > 0
    case Send(t) => t < |s.threads| && s.threads[t].Sending? && s.threads[t].left != []
    case ReceiveHeader(t) => t < |s.threads| && s.threads[t].AwaitHeader? && s.threads[t].op.Command? && s.inn != []
    case ReceiveExtra(t) => t < |s.threads| && s.threads[t].AwaitExtra? && s.inn != []
    case Release(t) => t < |s.threads| && s.threads[t].Releasing?
    case PcRead => (s.pc.AtHead? || s.pc.NeedExtra? || s.pc.InBulk?) && s.out != []
    case PcRespond(result, extra) =>
      && s.pc.Respond? && |result| == ResponseSize(s.pc.code) - 12
      && |extra| <= BLOCK && MayAnswer(s.pc.code, s.pc.fields, extra)
    case PcRespondExtra => s.pc.RespondExtra?
  }

  /** The thread after a response header: command_xchg's test is magic OR command. */
  function AfterHeader(op: Op, h: Transfer): Thread
    requires op.Command?
  {
    if |h| != ResponseSize(op.code) then Releasing(false, op, h, [])
    else if Word(h, 0) != HOSTFS_MAGIC && Word(h, 4) != Number(op.code) then Releasing(false, op, h, [])
    else if Word(h, 8) > 0 && op.inlen > 0 then AwaitExtra(op, h, Word(h, 8))
    else Releasing(true, op, h, [])
  }

  function AfterSend(op: Op, left: seq<Transfer>): Thread {
    if left != [] then Sending(op, left) else if op.Command? then AwaitHeader(op) else Releasing(true, op, [], [])
  }

  function Apply(s: State, e: Event): State
    requires Enabled(s, e)
  {
    match e
    case Begin(t, op) => Set(s, t, Thread.Waiting(op))
    case Acquire(t) =>
      var op := s.threads[t].op;
      Set(s, t, Sending(op, op.Frame())).(sema := s.sema - 1, started := s.started + [op], holder := t)
    case Send(t) =>
      var th := s.threads[t];
      Set(s, t, AfterSend(th.op, th.left[1..])).(out := s.out + [th.left[0]])
    case ReceiveHeader(t) => Set(s, t, AfterHeader(s.threads[t].op, s.inn[0])).(inn := s.inn[1..])
    case ReceiveExtra(t) =>
      var th := s.threads[t];
      Set(s, t, Releasing(|s.inn[0]| == th.n, th.op, th.header, s.inn[0])).(inn := s.inn[1..])
    case Release(t) => Set(s, t, Idle).(sema := s.sema + 1, holder := -1)
    case PcRead =>
      var (pc, served) := Consume(s.pc, s.out[0]);
      s.(out := s.out[1..], pc := pc, log := s.log + served)
    case PcRespond(result, extra) =>
      s.(inn := s.inn + [Response(s.pc.code, result, |extra|)], pc := if extra == [] then AtHead else RespondExtra(extra),
         answers := s.answers + [Answer(|s.log| - 1, result, extra)])
    case PcRespondExtra => s.(inn := s.inn + [s.pc.data], pc := AtHead)
  }

  // ---- what the PC should make of an operation ----

  function Effect(op: Op): Served {
    match op
    case Command(code, _, fields, extra, _) => Ran(code, fields, extra)
    case Async(chan, payload) => Delivered(chan, payload)
    case Bulk(data) => Stored(data)
  }

  function Effects(ops: seq<Op>): (es: seq<Served>)
    ensures |es| == |ops| && forall i :: 0 <= i < |ops| ==> es[i] == Effect(ops[i])
  {
    seq(|ops|, i requires 0 <= i < |ops| => Effect(ops[i]))
  }

  ghost predicate AllValid(ops: seq<Op>) {
    forall i :: 0 <= i < |ops| ==> ops[i].Valid()
  }

  ghost function Frames(ops: seq<Op>): seq<Transfer>
    requires AllValid(ops)
  {
    if ops == [] then [] else ops[0].Frame() + Frames(ops[1..])
  }

  lemma {:induction false} FramesAppend(ops: seq<Op>, op: Op)
    requires AllValid(ops) && op.Valid()
    ensures AllValid(ops + [op]) && Frames(ops + [op]) == Frames(ops) + op.Frame()
  {
    if ops == [] {
      assert Frames([op]) == op.Frame() + Frames([]);
    } else {
      var frame, frames := ops[0].Frame(), Frames(ops[1..]);
      assert (ops + [op])[1..] == ops[1..] + [op];
      FramesAppend(ops[1..], op);
      Assoc(frame, frames, op.Frame());
    }
  }

  // ---- the invariant ----

  function Busy(pc: Pc): nat {
    if pc.NeedExtra? || pc.InBulk? then 1 else 0
  }

  /** The PC's position inside the frame it has begun, the first n operations being served. */
  ghost predicate InFrame(pc: Pc, started: seq<Op>, n: nat)
  {
    && n + Busy(pc) <= |started|
    && (match pc
        case NeedExtra(code, fields, len) =>
          var op := started[n];
          op.Command? && op.code == code && op.fields == fields && len == |op.extra| && 0 < len <= BLOCK
        case InBulk(len, got) =>
          var op := started[n];
          op.Bulk? && len == |op.data| && got <= op.data && |got| < len
        case Confused => false
        case _ => true)
  }

  /** The transfers of that frame still to be read. */
  ghost function CurrentRest(pc: Pc, started: seq<Op>, n: nat): seq<Transfer>
    requires InFrame(pc, started, n)
  {
    match pc
    case NeedExtra(_, _, _) => [started[n].extra]
    case InBulk(_, got) => Chunks(started[n].data[|got|..])
    case _ => []
  }

  /** What the PC has still to read: the rest of the frame it is in, then whole frames. */
  ghost function Due(pc: Pc, started: seq<Op>, n: nat): seq<Transfer>
    requires InFrame(pc, started, n) && AllValid(started)
  {
    CurrentRest(pc, started, n) + Frames(started[n + Busy(pc)..])
  }

  /** What the semaphore's holder has still to write of its frame. */
  function Left(s: State): seq<Transfer> {
    if 0 <= s.holder < |s.threads| && s.threads[s.holder].Sending? then s.threads[s.holder].left else []
  }

  /** Whole frames only: the pipe, and what its writer will add, is the rest of the frame
      being read followed by the frames of the operations that come after it. */
  ghost predicate WholeFrames(s: State) {
    && AllValid(s.started)
    && InFrame(s.pc, s.started, |s.log|)
    && s.log == Effects(s.started[..|s.log|])
    && s.out + Left(s) == Due(s.pc, s.started, |s.log|)
  }

  ghost predicate Mutex(s: State) {
    && s.sema == (if s.holder < 0 then 1 else 0)
    && s.holder < |s.threads|
    && (forall t :: 0 <= t < |s.threads| ==> (s.threads[t].Critical() <==> t == s.holder))
  }

  /** The operation whose command exchange is under way, if any. */
  predicate Exchanging(s: State) {
    0 <= s.holder < |s.threads| &&
    match s.threads[s.holder]
    case Sending(op, _) => op.Command?
    case AwaitHeader(_) => true
    case AwaitExtra(_, _, _) => true
    case _ => false
  }

  /** Only the operation being exchanged can be a command the PC has not served. */
  ghost predicate CommandsServed(s: State) {
    forall i :: |s.log| <= i < |s.started| - (if Exchanging(s) then 1 else 0) ==> !s.started[i].Command?
  }

  predicate Reading(pc: Pc) { pc.AtHead? || pc.NeedExtra? || pc.InBulk? }

  /** A response header that promises n bytes, all of which its reader will read. */
  predicate GoodHeader(op: Op, h: Transfer, n: nat) {
    && op.Command?
    && |h| == ResponseSize(op.code) && Word(h, 0) == HOSTFS_MAGIC && Word(h, 8) == n
    && n <= BLOCK && (n > 0 ==> n <= op.inlen)
  }

  /** The response pipe and the two positions that depend on it. */
  ghost predicate Lockstep(s: State) {
    if s.holder < 0 || s.holder >= |s.threads| then s.inn == [] && Reading(s.pc)
    else
      match s.threads[s.holder]
      case Sending(op, left) => s.inn == [] && Reading(s.pc) && left != [] && s.started != [] && s.started[|s.started| - 1] == op
      case AwaitHeader(op) =>
        && op.Command? && op.Valid() && s.started != [] && s.started[|s.started| - 1] == op
        && (if |s.log| < |s.started| then s.inn == [] && Reading(s.pc)
            else
              match s.pc
              case Respond(code, fields) => s.inn == [] && code == op.code && fields == op.fields
              case RespondExtra(data) => |s.inn| == 1 && data != [] && GoodHeader(op, s.inn[0], |data|)
              case AtHead =>
                if |s.inn| == 1 then GoodHeader(op, s.inn[0], 0)
                else |s.inn| == 2 && s.inn[1] != [] && GoodHeader(op, s.inn[0], |s.inn[1]|)
              case _ => false)
      case AwaitExtra(op, _, n) =>
        && op.Command? && |s.log| == |s.started| && 0 < n <= op.inlen
        && s.started != [] && s.started[|s.started| - 1] == op
        && (match s.pc
            case RespondExtra(data) => s.inn == [] && |data| == n
            case AtHead => |s.inn| == 1 && |s.inn[0]| == n
            case _ => false)
      case Releasing(ok, op, _, _) => ok && s.inn == [] && Reading(s.pc) && s.started != [] && s.started[|s.started| - 1] == op
      case _ => true
  }

  /** Everything but the contents of the pipe to the PC. */
  ghost predicate Control(s: State) {
    && Mutex(s)
    && |s.log| + Busy(s.pc) <= |s.started|
    && CommandsServed(s)
    && Lockstep(s)
    && (forall t :: 0 <= t < |s.threads| && s.threads[t].Waiting? ==> s.threads[t].op.Valid())
  }

  // ---- whose answer it is ----

  function Data(extra: seq<byte>): seq<Transfer> {
    if extra == [] then [] else [extra]
  }

  /** The transfers of an answer to a command. */
  function Reply(op: Op, a: Answer): seq<Transfer>
    requires op.Command? && |a.extra| <= BLOCK
  {
    [Response(op.code, a.result, |a.extra|)] + Data(a.extra)
  }

  /** The part of an answer a thread has taken, and the part the PC has still to write. */
  function Taken(th: Thread): seq<Transfer> {
    match th
    case AwaitExtra(_, header, _) => [header]
    case Releasing(_, _, header, data) => [header] + Data(data)
    case _ => []
  }

  function Unwritten(pc: Pc): seq<Transfer> {
    if pc.RespondExtra? then Data(pc.data) else []
  }

  /** The holder's command has been answered. */
  predicate Answering(s: State) {
    && 0 <= s.holder < |s.threads|
    && (var th := s.threads[s.holder]; (th.AwaitHeader? || th.AwaitExtra? || th.Releasing?) && th.op.Command?)
    && |s.log| == |s.started| && !s.pc.Respond?
  }

  /** What the holder has taken, what is in the pipe and what is still to be written are
      the answer to its own command, nothing else. */
  ghost predicate Answered(s: State) {
    Answering(s) ==>
      && s.answers != []
      && Last(s).to == |s.log| - 1 && |Last(s).extra| <= BLOCK
      && OnItsWay(s) == Reply(s.threads[s.holder].op, Last(s))
  }

  function Last(s: State): Answer
    requires s.answers != []
  {
    s.answers[|s.answers| - 1]
  }

  function OnItsWay(s: State): seq<Transfer>
    requires 0 <= s.holder < |s.threads|
  {
    Taken(s.threads[s.holder]) + s.inn + Unwritten(s.pc)
  }

  /** A step that only moves parts of the answer along. */
  lemma SameAnswer(s: State, s': State)
    requires Answered(s) && (Answering(s') ==> Answering(s))
    requires s'.answers == s.answers && s'.log == s.log && s'.holder == s.holder && |s'.threads| == |s.threads|
    requires Answering(s') ==> OnItsWay(s') == OnItsWay(s) && s'.threads[s.holder].op == s.threads[s.holder].op
    ensures Answered(s')
  {
  }

  lemma MovesAlong(taken: seq<Transfer>, t: Transfer, inn: seq<Transfer>, left: seq<Transfer>)
    ensures taken + ([t] + inn) + left == (taken + [t]) + inn + left
    ensures taken + inn + [t] == taken + (inn + [t]) + []
  {
  }

  ghost predicate Inv(s: State) {
    WholeFrames(s) && Control(s) && Answered(s)
  }

  // ---- every step keeps it ----

  /** Steps that leave the PC-bound pipe, its writer and its reader alone. */
  lemma SameWire(s: State, s': State)
    requires WholeFrames(s)
    requires s'.out == s.out && s'.started == s.started && s'.log == s.log && Left(s') == Left(s)
    requires s'.pc == s.pc || (Busy(s.pc) == 0 && Busy(s'.pc) == 0 && !s'.pc.Confused?)
    ensures WholeFrames(s')
  {
  }

  lemma BeginKeeps(s: State, t: nat, op: Op)
    requires Inv(s) && Enabled(s, Begin(t, op))
    ensures Inv(Apply(s, Begin(t, op)))
  {
    SameWire(s, Apply(s, Begin(t, op)));
    BeginControl(s, Apply(s, Begin(t, op)), t, op);
    assert t != s.holder;
  }

  /** A thread that starts to wait changes nobody else's position. */
  lemma BeginControl(s: State, s': State, t: nat, op: Op)
    requires Control(s) && Enabled(s, Begin(t, op)) && s' == Set(s, t, Thread.Waiting(op))
    ensures Control(s')
  {
    assert t != s.holder;
  }

  /** The frame being read does not depend on the operations begun later. */
  lemma SameFrame(pc: Pc, started: seq<Op>, n: nat, op: Op)
    requires InFrame(pc, started, n)
    ensures InFrame(pc, started + [op], n) && CurrentRest(pc, started + [op], n) == CurrentRest(pc, started, n)
  {
    assert n < |started| ==> (started + [op])[n] == started[n];
  }

  lemma DueGrows(pc: Pc, started: seq<Op>, n: nat, op: Op)
    requires InFrame(pc, started, n) && AllValid(started) && op.Valid()
    ensures AllValid(started + [op]) && InFrame(pc, started + [op], n)
    ensures Due(pc, started + [op], n) == Due(pc, started, n) + op.Frame()
  {
    var k, rest := n + Busy(pc), CurrentRest(pc, started, n);
    SameFrame(pc, started, n, op);
    FramesAppend(started[k..], op);
    assert (started + [op])[k..] == started[k..] + [op];
    Assoc(rest, Frames(started[k..]), op.Frame());
  }

  lemma AcquireFrames(s: State, t: nat)
    requires WholeFrames(s) && Mutex(s) && Enabled(s, Acquire(t))
    ensures var s' := Apply(s, Acquire(t));
            WholeFrames(s') && s'.out + Left(s') == Due(s.pc, s.started, |s.log|) + s.threads[t].op.Frame()
  {
    var op := s.threads[t].op;
    DueGrows(s.pc, s.started, |s.log|, op);
    assert (s.started + [op])[..|s.log|] == s.started[..|s.log|];
    assert s.out + [] == s.out;
  }

  lemma AcquireKeeps(s: State, t: nat)
    requires Inv(s) && Enabled(s, Acquire(t))
    ensures var s' := Apply(s, Acquire(t));
            Inv(s') && s'.out + Left(s') == Due(s.pc, s.started, |s.log|) + s.threads[t].op.Frame()
  {
    AcquireFrames(s, t);
    AcquireControl(s, Apply(s, Acquire(t)), t);
  }

  lemma AcquireControl(s: State, s': State, t: nat)
    requires Control(s) && Enabled(s, Acquire(t)) && s' == Apply(s, Acquire(t))
    ensures Control(s')
  {
  }

  lemma SendFrames(s: State, t: nat)
    requires Inv(s) && Enabled(s, Send(t))
    ensures WholeFrames(Apply(s, Send(t))) && |s.log| < |s.started|
  {
    var s' := Apply(s, Send(t));
    var left := s.threads[t].left;
    MoveFirst(s.out, left);
    assert Left(s) == left && Left(s') == left[1..];
    SameDue(s, s');
    assert |s.out + left| > 0;
  }

  lemma MoveFirst(out: seq<Transfer>, left: seq<Transfer>)
    requires left != []
    ensures out + left == out + [left[0]] + left[1..]
  {
  }

  /** A transfer that moves from the writer into the pipe. */
  lemma SameDue(s: State, s': State)
    requires WholeFrames(s)
    requires s'.pc == s.pc && s'.started == s.started && s'.log == s.log && s'.out + Left(s') == s.out + Left(s)
    ensures WholeFrames(s')
  {
  }

  /** The sender's own position after a write, the rest of the state being unchanged. */
  lemma SendControl(s: State, s': State, t: nat)
    requires Control(s) && Enabled(s, Send(t)) && AllValid(s.started)
    requires s' == Set(s, t, AfterSend(s.threads[t].op, s.threads[t].left[1..])).(out := s'.out)
    requires |s.log| < |s.started|
    ensures Control(s')
  {
    assert t == s.holder;
  }

  lemma SendKeeps(s: State, t: nat)
    requires Inv(s) && Enabled(s, Send(t))
    ensures var s' := Apply(s, Send(t));
            Inv(s') && t == s.holder && s'.out == s.out + [Left(s)[0]] && Left(s') == Left(s)[1..]
  {
    SendFrames(s, t);
    SendControl(s, Apply(s, Send(t)), t);
  }

  lemma ReleaseKeeps(s: State, t: nat)
    requires Inv(s) && Enabled(s, Release(t))
    ensures Inv(Apply(s, Release(t)))
  {
    SameWire(s, Apply(s, Release(t)));
  }

  lemma ReceiveHeaderKeeps(s: State, t: nat)
    requires Inv(s) && Enabled(s, ReceiveHeader(t))
    ensures Inv(Apply(s, ReceiveHeader(t)))
  {
    var s' := Apply(s, ReceiveHeader(t));
    SameWire(s, s');
    ReceiveHeaderControl(s, s', t);
    assert s.inn == [s.inn[0]] + s.inn[1..];
    MovesAlong([], s.inn[0], s.inn[1..], Unwritten(s.pc));
    assert [] + [s.inn[0]] == [s.inn[0]];
    SameAnswer(s, s');
  }

  lemma ReceiveHeaderControl(s: State, s': State, t: nat)
    requires Control(s) && Enabled(s, ReceiveHeader(t)) && s' == Apply(s, ReceiveHeader(t))
    ensures Control(s') && t == s.holder
  {
    assert s.threads[t].Critical();
  }

  lemma ReceiveExtraKeeps(s: State, t: nat)
    requires Inv(s) && Enabled(s, ReceiveExtra(t))
    ensures Inv(Apply(s, ReceiveExtra(t)))
  {
    var s' := Apply(s, ReceiveExtra(t));
    SameWire(s, s');
    ReceiveExtraControl(s, s', t);
    assert s.inn == [s.inn[0]] + s.inn[1..];
    MovesAlong([s.threads[t].header], s.inn[0], s.inn[1..], Unwritten(s.pc));
    SameAnswer(s, s');
  }

  lemma ReceiveExtraControl(s: State, s': State, t: nat)
    requires Control(s) && Enabled(s, ReceiveExtra(t)) && s' == Apply(s, ReceiveExtra(t))
    ensures Control(s') && t == s.holder && s.inn[0] != []
  {
    assert s.threads[t].Critical();
  }

  lemma ResponseIsGood(op: Op, result: seq<byte>, extra: seq<byte>)
    requires op.Valid() && op.Command? && |result| == ResponseSize(op.code) - 12
    requires |extra| <= BLOCK && MayAnswer(op.code, op.fields, extra)
    ensures GoodHeader(op, Response(op.code, result, |extra|), |extra|)
  {
    var m, c, n := Le32(HOSTFS_MAGIC), Le32(Number(AnswerCode(op.code))), Le32(|extra|);
    LoadStored([], HOSTFS_MAGIC, c + n + result);
    assert [] + m + (c + n + result) == m + c + n + result;
    LoadStored(m + c, |extra|, result);
  }

  lemma PcRespondKeeps(s: State, result: seq<byte>, extra: seq<byte>)
    requires Inv(s) && Enabled(s, PcRespond(result, extra))
    ensures var s' := Apply(s, PcRespond(result, extra));
            && Inv(s') && Answering(s')
            && OnItsWay(s') == Reply(s.threads[s.holder].op, Answer(|s.log| - 1, result, extra))
  {
    var s' := Apply(s, PcRespond(result, extra));
    SameWire(s, s');
    RespondControl(s, s', result, extra);
    RespondAnswers(s, s', result, extra);
  }

  lemma RespondAnswers(s: State, s': State, result: seq<byte>, extra: seq<byte>)
    requires Enabled(s, PcRespond(result, extra)) && s' == Apply(s, PcRespond(result, extra))
    requires 0 <= s.holder < |s.threads| && s.threads[s.holder].AwaitHeader? && s.inn == []
    requires s.threads[s.holder].op.Command? && s.pc.code == s.threads[s.holder].op.code
    ensures Answered(s') && OnItsWay(s') == Reply(s.threads[s.holder].op, Answer(|s.log| - 1, result, extra))
  {
    var t := Response(s.pc.code, result, |extra|);
    assert [] + ([] + [t]) + Data(extra) == [t] + Data(extra);
    assert s'.answers[|s'.answers| - 1] == Answer(|s.log| - 1, result, extra);
  }

  /** The response, its extra data if any, and the thread that waits for them. */
  lemma RespondControl(s: State, s': State, result: seq<byte>, extra: seq<byte>)
    requires Control(s) && Enabled(s, PcRespond(result, extra))
    requires s' == s.(inn := s.inn + [Response(s.pc.code, result, |extra|)],
                      pc := if extra == [] then AtHead else RespondExtra(extra), answers := s'.answers)
    ensures Control(s') && 0 <= s.holder < |s.threads| && s.threads[s.holder].AwaitHeader? && s.inn == []
    ensures s.threads[s.holder].op.Command? && s.pc.code == s.threads[s.holder].op.code && |s.log| == |s.started|
  {
    ResponseIsGood(s.threads[s.holder].op, result, extra);
    assert s.inn == [] && s'.inn == [Response(s.pc.code, result, |extra|)];
  }

  lemma PcRespondExtraKeeps(s: State)
    requires Inv(s) && Enabled(s, PcRespondExtra)
    ensures Inv(Apply(s, PcRespondExtra))
  {
    var s' := Apply(s, PcRespondExtra);
    SameWire(s, s');
    RespondExtraControl(s, s');
    MovesAlong(Taken(s.threads[s.holder]), s.pc.data, s.inn, []);
    SameAnswer(s, s');
  }

  lemma RespondExtraControl(s: State, s': State)
    requires Control(s) && Enabled(s, PcRespondExtra) && s' == Apply(s, PcRespondExtra)
    ensures Control(s') && 0 <= s.holder < |s.threads| && s.pc.data != []
  {
  }

  lemma EffectsGrow(ops: seq<Op>, k: nat)
    requires k < |ops|
    ensures Effects(ops[..k + 1]) == Effects(ops[..k]) + [Effect(ops[k])]
  {
  }

  lemma TakeFirst(out: seq<Transfer>, left: seq<Transfer>, head: Transfer, tail: seq<Transfer>)
    requires out != [] && out + left == [head] + tail
    ensures out[0] == head && out[1..] + left == tail
  {
    assert (out + left)[0] == out[0] && (out + left)[1..] == out[1..] + left;
  }

  /** When the PC is about to read a header, a header is what comes next. */
  lemma NextIsHead(s: State)
    requires WholeFrames(s) && s.pc.AtHead? && s.out != []
    ensures |s.log| < |s.started|
    ensures var op := s.started[|s.log|];
            && s.out[0] == op.Head()
            && s.out[1..] + Left(s) == Chunks(op.Body()) + Frames(s.started[|s.log| + 1..])
  {
    assert |s.out + Left(s)| > 0;
    DueAtHead(s.started, |s.log|);
    var op := s.started[|s.log|];
    TakeFirst(s.out, Left(s), op.Head(), Chunks(op.Body()) + Frames(s.started[|s.log| + 1..]));
  }

  lemma DueAtHead(started: seq<Op>, n: nat)
    requires AllValid(started) && n < |started|
    ensures Due(AtHead, started, n)
         == [started[n].Head()] + (Chunks(started[n].Body()) + Frames(started[n + 1..]))
  {
    assert started[n..][1..] == started[n + 1..];
  }

  /** Inside a frame, what comes next is the transfer its reader asks for. */
  lemma NextIsRest(s: State, head: Transfer, tail: seq<Transfer>)
    requires WholeFrames(s) && s.out != []
    requires CurrentRest(s.pc, s.started, |s.log|) == [head] + tail
    ensures s.out[0] == head && s.out[1..] + Left(s) == tail + Frames(s.started[|s.log| + Busy(s.pc)..])
  {
    var frames := Frames(s.started[|s.log| + Busy(s.pc)..]);
    assert ([head] + tail) + frames == [head] + (tail + frames);
    TakeFirst(s.out, Left(s), head, tail + frames);
  }

  /** Where the PC is after the header of an operation, and what it has served by then. */
  function Opened(op: Op): (Pc, seq<Served>) {
    match op
    case Command(code, _, fields, extra, _) =>
      if extra == [] then (Respond(code, fields), [Ran(code, fields, [])]) else (NeedExtra(code, fields, |extra|), [])
    case Async(chan, payload) => (AtHead, [Delivered(chan, payload)])
    case Bulk(data) => (InBulk(|data|, []), [])
  }

  /** The PC's dispatch on a genuine header. */
  lemma DispatchHead(op: Op)
    requires op.Valid()
    ensures Consume(AtHead, op.Head()) == Opened(op)
  {
    HeadWords(op);
    HeadFits(op);
    if op.Command? {
      DecodeNumber(op.code);
    }
  }

  /** The PC's step, except for the pipe to it: serving an operation that is not a
      command, or beginning or finishing the one being exchanged. */
  lemma PcReadControl(s: State, s': State)
    requires Control(s) && Reading(s.pc)
    requires s' == s.(out := s'.out, pc := s'.pc, log := s'.log)
    requires |s.log| <= |s'.log| <= |s.log| + 1 && |s.log| < |s.started| && |s'.log| + Busy(s'.pc) <= |s.started|
    requires |s'.log| == |s.log| ==> Reading(s'.pc)
    requires |s'.log| > |s.log| ==> var op := s.started[|s.log|];
               if op.Command? then s'.pc == Respond(op.code, op.fields) else s'.pc == AtHead
    requires |s'.log| == |s.started| ==> Left(s) == []
    ensures Control(s')
  {
  }

  /** A handler at work serves the command of the waiting holder. */
  lemma RespondingToHolder(s: State)
    requires Control(s) && s.pc.Respond?
    ensures 0 <= s.holder < |s.threads| && s.threads[s.holder].AwaitHeader? && s.inn == []
    ensures var op := s.threads[s.holder].op;
            && op.Command? && |s.log| == |s.started| > 0 && s.started[|s.started| - 1] == op
            && s.pc == Respond(op.code, op.fields)
  {
  }

  /** Once everything sent is served, nobody has anything left to write. */
  lemma NothingLeft(s: State)
    requires WholeFrames(s) && |s.log| == |s.started|
    ensures s.out == [] && Left(s) == []
  {
    assert |Due(s.pc, s.started, |s.log|)| == 0;
    assert |s.out + Left(s)| == 0;
  }

  lemma PcReadDone(s: State)
    requires Inv(s) && Enabled(s, PcRead) && |s.log| < |s.started| && WholeFrames(Apply(s, PcRead))
    requires var s' := Apply(s, PcRead);
             && |s'.log| <= |s.log| + 1
             && (|s'.log| == |s.log| ==> Reading(s'.pc))
             && (|s'.log| > |s.log| ==> var op := s.started[|s.log|];
                   if op.Command? then s'.pc == Respond(op.code, op.fields) else s'.pc == AtHead)
    ensures Inv(Apply(s, PcRead))
  {
    var s' := Apply(s, PcRead);
    if |s'.log| == |s.started| {
      NothingLeft(s');
    }
    PcReadControl(s, s');
  }

  lemma ChunksOfBlock(data: seq<byte>)
    requires |data| <= BLOCK
    ensures Chunks(data) == if data == [] then [] else [data]
  {
  }

  /** A read is right when what it leaves is what the new position calls for. */
  lemma ReadFrames(s: State, pc: Pc, served: seq<Served>)
    requires WholeFrames(s) && Enabled(s, PcRead) && Consume(s.pc, s.out[0]) == (pc, served)
    requires InFrame(pc, s.started, |s.log + served|) && s.log + served == Effects(s.started[..|s.log + served|])
    requires s.out[1..] + Left(s) == Due(pc, s.started, |s.log + served|)
    ensures WholeFrames(Apply(s, PcRead))
  {
  }

  lemma LogGrows(started: seq<Op>, k: nat, served: seq<Served>)
    requires k < |started| && (served == [] || served == [Effect(started[k])])
    ensures Effects(started[..k]) + served == Effects(started[..k + |served|])
  {
    EffectsGrow(started, k);
    assert Effects(started[..k]) + [] == Effects(started[..k]);
  }

  lemma PcReadHeadFrames(s: State)
    requires WholeFrames(s) && Enabled(s, PcRead) && s.pc.AtHead?
    ensures WholeFrames(Apply(s, PcRead))
  {
    var k := |s.log|;
    NextIsHead(s);
    DispatchHead(s.started[k]);
    DueAfterHead(s.started, k);
    var (pc, served) := Opened(s.started[k]);
    LogGrows(s.started, k, served);
    ReadFrames(s, pc, served);
  }

  /** What is due after the header of the next operation: its body and the frames behind. */
  lemma DueAfterHead(started: seq<Op>, k: nat)
    requires AllValid(started) && k < |started|
    ensures var op := started[k];
            var (pc, served) := Opened(op);
            && (served == [] || served == [Effect(op)])
            && InFrame(pc, started, k + |served|)
            && Due(pc, started, k + |served|) == Chunks(op.Body()) + Frames(started[k + 1..])
  {
    var op := started[k];
    match op
    case Command(_, _, _, extra, _) => ChunksOfBlock(extra);
    case Async(_, _) => ChunksOfBlock([]);
    case Bulk(data) => assert data[0..] == data;
  }

  lemma PcReadHeadKeeps(s: State)
    requires Inv(s) && Enabled(s, PcRead) && s.pc.AtHead?
    ensures Inv(Apply(s, PcRead))
  {
    PcReadHeadFrames(s);
    NextIsHead(s);
    DispatchHead(s.started[|s.log|]);
    PcReadDone(s);
  }

  lemma PcReadExtraKeeps(s: State)
    requires Inv(s) && Enabled(s, PcRead) && s.pc.NeedExtra?
    ensures Inv(Apply(s, PcRead))
  {
    var s', k := Apply(s, PcRead), |s.log|;
    NextIsRest(s, s.started[k].extra, []);
    EffectsGrow(s.started, k);
    assert Left(s') == Left(s);
    PcReadDone(s);
  }

  /** One block of a bulk write. */
  lemma BulkBlock(s: State)
    requires WholeFrames(s) && s.pc.InBulk? && s.out != []
    ensures var data, got, t := s.started[|s.log|].data, s.pc.got, s.out[0];
            && |t| == Min(BLOCK, |data| - |got|) > 0
            && got + t <= data
            && s.out[1..] + Left(s) == Chunks(data[|got + t|..]) + Frames(s.started[|s.log| + 1..])
  {
    var data, got := s.started[|s.log|].data, s.pc.got;
    var n := Min(BLOCK, |data| - |got|);
    NextBlock(data, got, n);
    NextIsRest(s, data[|got|..|got| + n], Chunks(data[|got| + n..]));
  }

  lemma NextBlock(data: seq<byte>, got: seq<byte>, n: nat)
    requires got <= data && |got| < |data| && n == Min(BLOCK, |data| - |got|)
    ensures Chunks(data[|got|..]) == [data[|got|..|got| + n]] + Chunks(data[|got| + n..])
    ensures got + data[|got|..|got| + n] == data[..|got| + n]
  {
    var left := data[|got|..];
    ChunksFirst(left);
    assert left[..n] == data[|got|..|got| + n] && left[n..] == data[|got| + n..];
  }

  lemma PcReadBulkFrames(s: State)
    requires WholeFrames(s) && Enabled(s, PcRead) && s.pc.InBulk?
    ensures var s' := Apply(s, PcRead);
            && WholeFrames(s') && |s.log| < |s.started| && s.started[|s.log|].Bulk?
            && ((s'.log == s.log && s'.pc.InBulk?) || (|s'.log| == |s.log| + 1 && s'.pc == AtHead))
  {
    var k := |s.log|;
    BulkBlock(s);
    DueAfterBlock(s.started, k, s.pc.got, s.out[0]);
    var data := s.started[k].data;
    assert s.pc == InBulk(|data|, s.pc.got);
    var (pc, served) := Consume(InBulk(|data|, s.pc.got), s.out[0]);
    LogGrows(s.started, k, served);
    ReadFrames(s, pc, served);
  }

  lemma DueAfterBlock(started: seq<Op>, k: nat, got: seq<byte>, t: Transfer)
    requires AllValid(started) && k < |started| && started[k].Bulk?
    requires var data := started[k].data; |t| == Min(BLOCK, |data| - |got|) > 0 && got + t <= data
    ensures var data := started[k].data;
            var (pc, served) := Consume(InBulk(|data|, got), t);
            && ((served == [] && pc.InBulk?) || (served == [Effect(started[k])] && pc == AtHead))
            && InFrame(pc, started, k + |served|)
            && Due(pc, started, k + |served|) == Chunks(data[|got + t|..]) + Frames(started[k + 1..])
  {
    var data := started[k].data;
    if |got + t| == |data| {
      assert got + t == data && data[|got + t|..] == [];
      assert Chunks([]) + Frames(started[k + 1..]) == Frames(started[k + 1..]);
    }
  }

  lemma PcReadBulkKeeps(s: State)
    requires Inv(s) && Enabled(s, PcRead) && s.pc.InBulk?
    ensures Inv(Apply(s, PcRead))
  {
    PcReadBulkFrames(s);
    PcReadDone(s);
  }

  lemma StepKeeps(s: State, e: Event)
    requires Inv(s) && Enabled(s, e)
    ensures Inv(Apply(s, e))
  {
    match e
    case Begin(t, op) => BeginKeeps(s, t, op);
    case Acquire(t) => AcquireKeeps(s, t);
    case Send(t) => SendKeeps(s, t);
    case ReceiveHeader(t) => ReceiveHeaderKeeps(s, t);
    case ReceiveExtra(t) => ReceiveExtraKeeps(s, t);
    case Release(t) => ReleaseKeeps(s, t);
    case PcRead =>
      if s.pc.AtHead? { PcReadHeadKeeps(s); }
      else if s.pc.NeedExtra? { PcReadExtraKeeps(s); }
      else { PcReadBulkKeeps(s); }
    case PcRespond(result, extra) => PcRespondKeeps(s, result, extra);
    case PcRespondExtra => PcRespondExtraKeeps(s);
  }
}
