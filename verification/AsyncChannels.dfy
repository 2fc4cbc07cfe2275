/** The async channels of usbhostfs/main.c: eight rings filled at interrupt level,
    each with a bit in an event flag that wakes its readers.  Every section run with
    interrupts off, and every wait, is one step. */
module AsyncChannels {
  import opened Options
  import opened Bytes
  import opened HostFs
  import opened Ring

  const ASYNC_USER := 4
  const ASYNC_ALLOC_CHAN := 0xFFFF_FFFF
  const ASYNC_HEADER := 8


  /** `woken[c]` counts readers of channel c that have cleared its bit and not yet
      entered their critical section. */
  datatype State = State(chans: seq<Option<Ring>>, bits: seq<bool>, woken: seq<nat>)
  {
    ghost predicate Shape() {
      && |chans| == |bits| == |woken| == MAX_ASYNC_CHANNELS
      && (forall c :: 0 <= c < MAX_ASYNC_CHANNELS && chans[c].Some? ==> chans[c].value.Valid())
    }

    predicate Open(c: int)
      requires |chans| == MAX_ASYNC_CHANNELS
    {
      0 <= c < MAX_ASYNC_CHANNELS && chans[c].Some?
    }
  }

  datatype Event =
    | Fill(packet: seq<byte>)                          // fill_async
    | Register(chan: nat, endpoint: Option<seq<byte>>) // usbAsyncRegister; the endpoint's buffer
    | Unregister(chan: nat)
    | Wait(chan: nat)                                  // the flag wait in usbAsyncRead returns
    | Read(chan: nat, len: int)                        // its critical section
    | Flush(chan: nat)

  /** A reader whose channel is unregistered behind its wait goes through a null pointer:
      there its Read never happens. */
  predicate Enabled(s: State, e: Event)
    requires |s.chans| == |s.bits| == |s.woken| == MAX_ASYNC_CHANNELS
  {
    match e
    case Fill(_) => true
    case Register(_, endpoint) => endpoint.Some? ==> |endpoint.value| == RING_SIZE
    case Unregister(_) => true
    case Wait(c) => s.Open(c) && s.bits[c]
    case Read(c, _) => s.Open(c) && s.woken[c] > 0
    case Flush(_) => true
  }

  /** The channel a packet is for, if it passes fill_async's checks. */
  function Target(s: State, packet: seq<byte>): (c: int)
    requires |s.chans| == MAX_ASYNC_CHANNELS
    ensures c >= 0 ==> s.Open(c) && |packet| > ASYNC_HEADER
  {
    if |packet| > ASYNC_HEADER && LoadLe32(packet, 0) == ASYNC_MAGIC && s.Open(LoadLe32(packet, 4))
    then LoadLe32(packet, 4) else -1
  }

  /** The first free channel from c on, or the number of channels. */
  function FirstFree(chans: seq<Option<Ring>>, c: nat): (k: nat)
    requires |chans| == MAX_ASYNC_CHANNELS && c <= MAX_ASYNC_CHANNELS
    ensures c <= k <= MAX_ASYNC_CHANNELS
    ensures forall i :: c <= i < k ==> chans[i].Some?
    ensures k < MAX_ASYNC_CHANNELS ==> chans[k].None?
    decreases MAX_ASYNC_CHANNELS - c
  {
    if c == MAX_ASYNC_CHANNELS || chans[c].None? then c else FirstFree(chans, c + 1)
  }

  /** usbAsyncRegister's result. */
  function Registers(s: State, chan: nat, endpoint: Option<seq<byte>>): (ret: int)
    requires |s.chans| == MAX_ASYNC_CHANNELS
    ensures ret >= 0 ==> ret < MAX_ASYNC_CHANNELS && s.chans[ret].None? && endpoint.Some?
  {
    var c := if chan == ASYNC_ALLOC_CHAN then FirstFree(s.chans, ASYNC_USER) else chan;
    if endpoint.Some? && c < MAX_ASYNC_CHANNELS && s.chans[c].None? then c else -1
  }

  function Apply(s: State, e: Event): (s': State)
    requires s.Shape() && Enabled(s, e)
    ensures s'.Shape()
  {
    match e
    case Fill(packet) =>
      var c := Target(s, packet);
      if c < 0 then s
      else s.(chans := s.chans[c := Some(s.chans[c].value.PutMany(packet[ASYNC_HEADER..]))], bits := s.bits[c := true])
    case Register(chan, endpoint) =>
      var c := Registers(s, chan, endpoint);
      if c < 0 then s
      else s.(chans := s.chans[c := Some(Ring(endpoint.value, 0, 0, 0))], bits := s.bits[c := false])
    case Unregister(c) => if s.Open(c) then s.(chans := s.chans[c := None]) else s
    case Wait(c) => s.(bits := s.bits[c := false], woken := s.woken[c := s.woken[c] + 1])
    case Read(c, len) =>
      var r := s.chans[c].value;
      var r' := r.Drop(Taking(r, len));
      State(s.chans[c := Some(r')], s.bits[c := s.bits[c] || r'.size != 0], s.woken[c := s.woken[c] - 1])
    case Flush(c) =>
      if s.Open(c) then s.(chans := s.chans[c := Some(s.chans[c].value.(readPos := 0, writePos := 0, size := 0))], bits := s.bits[c := false])
      else s
  }

  /** How many bytes a read of `len` copies; a negative length copies none. */
  function Taking(r: Ring, len: int): (n: nat)
    ensures n <= r.size
  {
    if len < 0 then 0 else Min(len, r.size)
  }

  // ---- no lost wakeup ----

  /** A registered channel with bytes in it has its bit set, unless a reader is between
      its wait and its re-arm. */
  ghost predicate NoLostWakeup(s: State) {
    s.Shape() && forall c :: 0 <= c < MAX_ASYNC_CHANNELS && s.chans[c].Some? && s.chans[c].value.size > 0 ==>
                   s.bits[c] || s.woken[c] > 0
  }

  ghost predicate ValidRun(s: State, es: seq<Event>)
    requires s.Shape()
    decreases |es|
  {
    es == [] || (Enabled(s, es[0]) && ValidRun(Apply(s, es[0]), es[1..]))
  }

  ghost function Run(s: State, es: seq<Event>): (s': State)
    requires s.Shape() && ValidRun(s, es)
    ensures s'.Shape()
    decreases |es|
  {
    if es == [] then s else Run(Apply(s, es[0]), es[1..])
  }

  lemma {:induction false} NoWakeupIsLost(s: State, es: seq<Event>)
    requires NoLostWakeup(s) && ValidRun(s, es)
    ensures NoLostWakeup(Run(s, es))
    decreases |es|
  {
    if es != [] {
      NoWakeupIsLost(Apply(s, es[0]), es[1..]);
    }
  }

  // ---- readers of a channel that goes away ----

  /** The globals before anything is registered. */
  function Start(): State {
    State(seq(MAX_ASYNC_CHANNELS, _ => None), seq(MAX_ASYNC_CHANNELS, _ => false), seq(MAX_ASYNC_CHANNELS, _ => 0))
  }

  /** A reader past its wait finds a null pointer when the channel is unregistered there:
      here channel 0, after one byte has woken its reader. */
  lemma UnregisteredBehindWait()
    ensures var packet := Le32(ASYNC_MAGIC) + Le32(0) + [65];
            var es := [Register(0, Some(seq(RING_SIZE, _ => 0))), Fill(packet), Wait(0), Unregister(0)];
            && ValidRun(Start(), es)
            && Run(Start(), es).woken[0] > 0 && !Run(Start(), es).Open(0)
  {
    var packet := Le32(ASYNC_MAGIC) + Le32(0) + [65];
    var e0, e1 := Register(0, Some(seq(RING_SIZE, _ => 0))), Fill(packet);
    var s0 := Start();
    var s1 := Apply(s0, e0);
    LoadStored([], ASYNC_MAGIC, Le32(0) + [65]);
    assert [] + Le32(ASYNC_MAGIC) + (Le32(0) + [65]) == packet;
    LoadStored(Le32(ASYNC_MAGIC), 0, [65]);
    assert Target(s1, packet) == 0;
    var s2 := Apply(s1, e1);
    WaitThenUnregister(s2, 0);
    assert [e0, e1, Wait(0), Unregister(0)][1..] == [e1, Wait(0), Unregister(0)];
    assert [e1, Wait(0), Unregister(0)][1..] == [Wait(0), Unregister(0)];
  }

  lemma WaitThenUnregister(s: State, c: nat)
    requires s.Shape() && c < MAX_ASYNC_CHANNELS && s.Open(c) && s.bits[c]
    ensures var es := [Wait(c), Unregister(c)];
            ValidRun(s, es) && Run(s, es).woken[c] > 0 && !Run(s, es).Open(c)
  {
    var s1 := Apply(s, Wait(c));
    assert [Wait(c), Unregister(c)][1..] == [Unregister(c)] && [Unregister(c)][1..] == [];
    assert Run(s1, [Unregister(c)]) == Apply(s1, Unregister(c));
  }

  /** Without that, over any run, a woken reader finds its channel open. */
  lemma {:induction false} WokenFindsOpen(s: State, es: seq<Event>, c: nat)
    requires s.Shape() && ValidRun(s, es) && c < MAX_ASYNC_CHANNELS && (s.woken[c] > 0 ==> s.Open(c))
    requires Unregister(c) !in es
    ensures Run(s, es).woken[c] > 0 ==> Run(s, es).Open(c)
    decreases |es|
  {
    if es != [] {
      assert es[0] in es;
      WokenFindsOpen(Apply(s, es[0]), es[1..], c);
    }
  }

  // ---- each channel is a bounded FIFO ----

  ghost function Held(s: State, c: nat): seq<byte>
    requires s.Shape() && c < MAX_ASYNC_CHANNELS
  {
    if s.chans[c].Some? then s.chans[c].value.Contents() else []
  }

  /** The prefix of a packet for c that finds room. */
  ghost function Taken(s: State, e: Event, c: nat): seq<byte>
    requires s.Shape() && c < MAX_ASYNC_CHANNELS
  {
    if e.Fill? && Target(s, e.packet) == c then
      var data := e.packet[ASYNC_HEADER..];
      data[..s.chans[c].value.Accepts(|data|)]
    else []
  }

  /** The bytes usbAsyncRead copies out of c. */
  ghost function Delivered(s: State, e: Event, c: nat): seq<byte>
    requires s.Shape() && Enabled(s, e) && c < MAX_ASYNC_CHANNELS
  {
    if e.Read? && e.chan == c then Held(s, c)[..Taking(s.chans[c].value, e.len)] else []
  }

  ghost function AllTaken(s: State, es: seq<Event>, c: nat): seq<byte>
    requires s.Shape() && ValidRun(s, es) && c < MAX_ASYNC_CHANNELS
    decreases |es|
  {
    if es == [] then [] else Taken(s, es[0], c) + AllTaken(Apply(s, es[0]), es[1..], c)
  }

  ghost function AllDelivered(s: State, es: seq<Event>, c: nat): seq<byte>
    requires s.Shape() && ValidRun(s, es) && c < MAX_ASYNC_CHANNELS
    decreases |es|
  {
    if es == [] then [] else Delivered(s, es[0], c) + AllDelivered(Apply(s, es[0]), es[1..], c)
  }

  /** Events that empty or detach channel c. */
  predicate Resets(s: State, e: Event, c: nat)
    requires |s.chans| == MAX_ASYNC_CHANNELS
  {
    match e
    case Flush(d) => d == c
    case Unregister(d) => d == c
    case Register(chan, endpoint) => Registers(s, chan, endpoint) == c
    case _ => false
  }

  ghost predicate NeverResets(s: State, es: seq<Event>, c: nat)
    requires s.Shape() && ValidRun(s, es)
    decreases |es|
  {
    es == [] || (!Resets(s, es[0], c) && NeverResets(Apply(s, es[0]), es[1..], c))
  }

  /** Between resets, whatever happens on the other channels: the bytes channel c held
      plus the accepted packet prefixes are the bytes read plus those still held, in order. */
  lemma {:induction false} ChannelConserves(s: State, es: seq<Event>, c: nat)
    requires s.Shape() && ValidRun(s, es) && c < MAX_ASYNC_CHANNELS && NeverResets(s, es, c)
    ensures Held(s, c) + AllTaken(s, es, c) == AllDelivered(s, es, c) + Held(Run(s, es), c)
    decreases |es|
  {
    var held := Held(s, c);
    assert held + [] == [] + held;
    if es != [] {
      var s1 := Apply(s, es[0]);
      assert held + Taken(s, es[0], c) == Delivered(s, es[0], c) + Held(s1, c);
      ChannelConserves(s1, es[1..], c);
      ConservationChains(held, Taken(s, es[0], c), Delivered(s, es[0], c), Held(s1, c),
                         AllTaken(s1, es[1..], c), AllDelivered(s1, es[1..], c), Held(Run(s1, es[1..]), c));
    }
  }

  /** A registration gets the channel it asks for if that is free, or the first free one from
      ASYNC_USER on, and opens it empty; it is refused only where there is none. */
  lemma RegistersExactly(s: State, chan: nat, endpoint: seq<byte>)
    requires s.Shape() && |endpoint| == RING_SIZE && chan <= ASYNC_ALLOC_CHAN
    ensures var c, t := Registers(s, chan, Some(endpoint)), Apply(s, Register(chan, Some(endpoint)));
            && (chan != ASYNC_ALLOC_CHAN ==> (c == chan <==> chan < MAX_ASYNC_CHANNELS && s.chans[chan].None?))
            && (chan != ASYNC_ALLOC_CHAN ==> c == chan || c == -1)
            && (chan == ASYNC_ALLOC_CHAN && c >= 0 ==> c >= ASYNC_USER && forall i :: ASYNC_USER <= i < c ==> s.chans[i].Some?)
            && (chan == ASYNC_ALLOC_CHAN && c < 0 ==> forall i :: ASYNC_USER <= i < MAX_ASYNC_CHANNELS ==> s.chans[i].Some?)
            && (c >= 0 ==> t.Open(c) && Held(t, c) == [] && forall d :: 0 <= d < MAX_ASYNC_CHANNELS && d != c ==> t.chans[d] == s.chans[d])
            && (c < 0 ==> t == s)
  {
  }

  /** A packet with the async magic and the number of an open channel reaches that channel,
      as far as it has room, and raises its bit; nothing else changes. */
  lemma PacketReachesItsChannel(s: State, c: nat, data: seq<byte>)
    requires s.Shape() && s.Open(c) && data != []
    ensures var t := Apply(s, Fill(Le32(ASYNC_MAGIC) + Le32(c) + data));
            && Held(t, c) == Held(s, c) + data[..Min(|data|, RING_SIZE - |Held(s, c)|)] && t.bits[c]
            && t.woken == s.woken
            && forall d :: 0 <= d < MAX_ASYNC_CHANNELS && d != c ==> t.chans[d] == s.chans[d] && t.bits[d] == s.bits[d]
  {
    PacketIsFor(s, c, data);
  }

  lemma PacketIsFor(s: State, c: nat, data: seq<byte>)
    requires s.Shape() && s.Open(c) && data != []
    ensures var packet := Le32(ASYNC_MAGIC) + Le32(c) + data;
            Target(s, packet) == c && packet[ASYNC_HEADER..] == data
  {
    var packet := Le32(ASYNC_MAGIC) + Le32(c) + data;
    LoadStored(Le32(ASYNC_MAGIC), c, data);
    LoadStored([], ASYNC_MAGIC, Le32(c) + data);
    assert [] + Le32(ASYNC_MAGIC) + (Le32(c) + data) == packet;
  }

  /** A read takes as many bytes as it asks for, or all there are, and the bit is up
      afterwards if bytes remain. */
  lemma ReadTakesWhatIsThere(s: State, c: nat, len: int)
    requires s.Shape() && Enabled(s, Read(c, len))
    ensures var out, t := Delivered(s, Read(c, len), c), Apply(s, Read(c, len));
            && out + Held(t, c) == Held(s, c)
            && |out| == (if len < 0 then 0 else Min(len, |Held(s, c)|))
            && t.bits[c] == (s.bits[c] || Held(t, c) != [])
  {
    var held, n := Held(s, c), Taking(s.chans[c].value, len);
    assert Held(Apply(s, Read(c, len)), c) == held[n..];
    assert held[..n] + held[n..] == held;
  }

  /** A reset leaves channel c empty and, if it is open then, without its bit; so from
      there the conservation starts from nothing. */
  lemma ResetEmpties(s: State, e: Event, c: nat)
    requires s.Shape() && Enabled(s, e) && c < MAX_ASYNC_CHANNELS && Resets(s, e, c)
    ensures Held(Apply(s, e), c) == []
    ensures Apply(s, e).Open(c) ==> !Apply(s, e).bits[c]
  {
  }

  // ---- the globals ----

  class Channels {
    const chan: array<ByteRing?>
    const bits: array<bool>
    ghost var woken: seq<nat>

    /** Each open channel has an endpoint of its own. */
    ghost predicate Valid()
      reads this, chan, set c | 0 <= c < chan.Length && chan[c] != null :: chan[c]
      reads set c | 0 <= c < chan.Length && chan[c] != null :: chan[c].buffer
    {
      && chan.Length == bits.Length == |woken| == MAX_ASYNC_CHANNELS
      && (forall c :: 0 <= c < MAX_ASYNC_CHANNELS && chan[c] != null ==> chan[c].Valid())
      && (forall c, d :: 0 <= c < d < MAX_ASYNC_CHANNELS && chan[c] != null && chan[d] != null ==>
            chan[c] != chan[d] && chan[c].buffer != chan[d].buffer)
    }

    ghost function Now(): (s: State)
      requires Valid()
      reads this, chan, bits, set c | 0 <= c < chan.Length && chan[c] != null :: chan[c]
      reads set c | 0 <= c < chan.Length && chan[c] != null :: chan[c].buffer
      ensures s.Shape()
    {
      State(seq(MAX_ASYNC_CHANNELS, c requires 0 <= c < MAX_ASYNC_CHANNELS && Valid()
                                      reads this, chan, set c | 0 <= c < chan.Length && chan[c] != null :: chan[c]
                                      reads set c | 0 <= c < chan.Length && chan[c] != null :: chan[c].buffer
                  => if chan[c] == null then None else Some(chan[c].Now())),
            bits[..], woken)
    }

    method FillAsync(packet: seq<byte>)
      requires Valid()
      modifies bits, set c | 0 <= c < chan.Length && chan[c] != null :: chan[c]
      modifies set c | 0 <= c < chan.Length && chan[c] != null :: chan[c].buffer
      ensures Valid() && Now() == Apply(old(Now()), Fill(packet))
    {
      if |packet| > ASYNC_HEADER {
        var magic, channel := LoadLe32(packet, 0), LoadLe32(packet, 4);
        if magic == ASYNC_MAGIC && 0 <= channel < MAX_ASYNC_CHANNELS && chan[channel] != null {
          Deliver(channel, packet[ASYNC_HEADER..]);
        }
      }
    }

    /** Into an open channel, as much as there is room for, and its bit is set. */
    method Deliver(c: nat, data: seq<byte>)
      requires Valid() && c < MAX_ASYNC_CHANNELS && chan[c] != null
      modifies bits, chan[c], chan[c].buffer
      ensures Valid() && Now() == old(Now()).(
                chans := old(Now()).chans[c := Some(old(Now()).chans[c].value.PutMany(data))], bits := old(Now()).bits[c := true])
    {
      chan[c].PutMany(data);
      bits[c] := true;
    }

    method FindFreeChannel() returns (slot: nat)
      requires Valid()
      ensures slot == FirstFree(Now().chans, ASYNC_USER)
    {
      slot := ASYNC_USER;
      while slot < MAX_ASYNC_CHANNELS && chan[slot] != null
        invariant ASYNC_USER <= slot <= MAX_ASYNC_CHANNELS
        invariant FirstFree(Now().chans, ASYNC_USER) == FirstFree(Now().chans, slot)
      {
        slot := slot + 1;
      }
    }

    /** Store the pointer, then flush the channel. */
    method Attach(slot: nat, endpoint: ByteRing)
      requires Valid() && endpoint.Valid() && slot < MAX_ASYNC_CHANNELS && chan[slot] == null
      requires Separate(endpoint)
      modifies chan, bits, endpoint
      ensures Valid()
      ensures Now().chans == old(Now()).chans[slot := Some(Ring(old(endpoint.Now().buffer), 0, 0, 0))]
      ensures bits[..] == old(bits[..])[slot := false] && woken == old(woken)
    {
      chan[slot] := endpoint;
      endpoint.Clear();
      bits[slot] := false;
    }

    /** The endpoint shares nothing with the open channels. */
    ghost predicate Separate(endpoint: ByteRing)
      requires chan.Length == MAX_ASYNC_CHANNELS
      reads this, chan, set c | 0 <= c < chan.Length && chan[c] != null :: chan[c]
    {
      forall i :: 0 <= i < MAX_ASYNC_CHANNELS && chan[i] != null ==>
        chan[i] != endpoint && chan[i].buffer != endpoint.buffer
    }

    method UsbAsyncRegister(c: nat, endpoint: ByteRing?) returns (ret: int)
      requires Valid()
      requires endpoint != null ==> endpoint.Valid() && Separate(endpoint)
      modifies chan, bits, endpoint
      ensures Valid()
      ensures var e := if endpoint == null then None else Some(old(endpoint.Now().buffer));
              ret == Registers(old(Now()), c, e) && Now() == Apply(old(Now()), Register(c, e))
    {
      ret := -1;
      if endpoint == null {
        return;
      }
      var slot := c;
      if c == ASYNC_ALLOC_CHAN {
        slot := FindFreeChannel();
      }
      if slot < MAX_ASYNC_CHANNELS && chan[slot] == null {
        Attach(slot, endpoint);
        ret := slot;
      }
    }

    method UsbAsyncUnregister(c: nat) returns (ret: int)
      requires Valid()
      modifies chan
      ensures Valid() && Now() == Apply(old(Now()), Unregister(c))
      ensures ret == (if old(Now()).Open(c) then 0 else -1)
    {
      if c >= MAX_ASYNC_CHANNELS || chan[c] == null {
        return -1;
      }
      chan[c] := null;
      return 0;
    }

    method WaitReturns(c: nat)
      requires Valid() && Enabled(Now(), Wait(c))
      modifies this, bits
      ensures Valid() && Now() == Apply(old(Now()), Wait(c))
    {
      bits[c] := false;
      woken := woken[c := woken[c] + 1];
    }

    method ReadCritical(c: nat, len: int) returns (data: seq<byte>)
      requires Valid() && Enabled(Now(), Read(c, len))
      modifies this, bits, chan[c]
      ensures Valid() && Now() == Apply(old(Now()), Read(c, len))
      ensures data == old(Delivered(Now(), Read(c, len), c))
    {
      var n := if len < chan[c].size then len else chan[c].size;
      data := chan[c].Take(if n < 0 then 0 else n);
      if chan[c].size != 0 {
        bits[c] := true;
      }
      woken := woken[c := woken[c] - 1];
    }

    method UsbAsyncFlush(c: nat)
      requires Valid()
      modifies bits, set d | d == c && d < chan.Length && chan[d] != null :: chan[d]
      ensures Valid() && Now() == Apply(old(Now()), Flush(c))
    {
      if c >= MAX_ASYNC_CHANNELS || chan[c] == null {
        return;
      }
      chan[c].Clear();
      bits[c] := false;
    }
  }
}
