/** Every exchange on the HostFS link comes to its end: each step but the start of a new
    operation brings it nearer, and while it is not over some step is possible. */
module Progress {
  import opened Sequences
  import opened Bytes
  import opened Usb
  import opened Wire
  import opened Protocol
  import opened Sessions

  // ---- how much is left to do ----

  function FrameLength(op: Op): nat {
    1 + |Chunks(op.Body())|
  }

  /** A transfer still to be written counts 4: it is written, read, and its answer written
      in two parts. */
  function Weight(th: Thread): nat {
    match th
    case Idle => 0
    case Waiting(op) => 4 * FrameLength(op) + 4
    case Sending(_, left) => 4 * |left| + 3
    case AwaitHeader(_) => 3
    case AwaitExtra(_, _, _) => 2
    case Releasing(_, _, _, _) => 1
  }

  function Sum(threads: seq<Thread>): nat {
    if threads == [] then 0 else Weight(threads[0]) + Sum(threads[1..])
  }

  function PcWeight(pc: Pc): nat {
    if pc.Respond? then 2 else if pc.RespondExtra? then 1 else 0
  }

  function Measure(s: State): nat {
    Sum(s.threads) + 3 * |s.out| + PcWeight(s.pc)
  }

  lemma {:induction false} SumUpdate(threads: seq<Thread>, t: nat, th: Thread)
    requires t < |threads|
    ensures Sum(threads[t := th]) == Sum(threads) - Weight(threads[t]) + Weight(th)
    decreases |threads|
  {
    if t == 0 {
      assert threads[0 := th][1..] == threads[1..];
    } else {
      assert threads[t := th][1..] == threads[1..][t - 1 := th];
      SumUpdate(threads[1..], t - 1, th);
    }
  }

  /** Every step other than the start of an operation leaves less to do. */
  lemma StepsDecrease(s: State, e: Event)
    requires Enabled(s, e) && !e.Begin?
    ensures Measure(Apply(s, e)) < Measure(s)
  {
    match e
    case Acquire(t) => SumUpdate(s.threads, t, Sending(s.threads[t].op, s.threads[t].op.Frame()));
    case Send(t) => SumUpdate(s.threads, t, AfterSend(s.threads[t].op, s.threads[t].left[1..]));
    case ReceiveHeader(t) => SumUpdate(s.threads, t, AfterHeader(s.threads[t].op, s.inn[0]));
    case ReceiveExtra(t) => SumUpdate(s.threads, t, Apply(s, e).threads[t]);
    case Release(t) => SumUpdate(s.threads, t, Idle);
    case PcRead =>
    case PcRespond(_, _) =>
    case PcRespondExtra =>
  }

  predicate NoBegin(es: seq<Event>) {
    forall i :: 0 <= i < |es| ==> !es[i].Begin?
  }

  /** So without new operations a run has no more steps than there is to do. */
  lemma {:induction false} RunsEnd(s: State, es: seq<Event>)
    requires ValidRun(s, es) && NoBegin(es)
    ensures |es| <= Measure(s) - Measure(Run(s, es))
    decreases |es|
  {
    if es != [] {
      StepsDecrease(s, es[0]);
      assert forall i :: 0 <= i < |es[1..]| ==> es[1..][i] == es[i + 1];
      RunsEnd(Apply(s, es[0]), es[1..]);
    }
  }

  /** Some step other than the start of an operation is possible. */
  ghost predicate CanMove(s: State) {
    exists e: Event :: !e.Begin? && Enabled(s, e)
  }

  lemma BusyCanMove(s: State, t: nat)
    requires Inv(s) && t < |s.threads| && !s.threads[t].Idle?
    ensures CanMove(s)
  {
    if s.holder < 0 {
      assert !s.threads[t].Critical();
      assert Enabled(s, Acquire(t));
    } else {
      HolderCanMove(s);
    }
  }

  /** Carried as far as it goes, a run without new operations returns from every one that
      was begun, and does so within Measure steps. */
  lemma EveryExchangeReturns(s: State, es: seq<Event>)
    requires Inv(s) && ValidRun(s, es) && NoBegin(es) && !CanMove(Run(s, es))
    ensures |es| <= Measure(s)
    ensures forall t :: 0 <= t < |Run(s, es).threads| ==> Run(s, es).threads[t].Idle?
  {
    RunsEnd(s, es);
    RunKeeps(s, es);
    var r := Run(s, es);
    forall t | 0 <= t < |r.threads| ensures r.threads[t].Idle? {
      if !r.threads[t].Idle? {
        BusyCanMove(r, t);
      }
    }
  }
}
