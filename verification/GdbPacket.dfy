/** Packet framing of gdbcommon/gdb-stub.c: getpacket and putpacket over a character
    link, as the "Overview" of the GDB Remote Serial Protocol describes them
    ($payload#checksum, answered by + or -). */
module GdbPacket {
  import opened Bytes
  import Chars

  const MAX_BUF := 2048
  const OUT_BUF := 4096

  const HASH: byte := 0x23
  const DOLLAR: byte := 0x24
  const PLUS: byte := 0x2b
  const MINUS: byte := 0x2d
  const COLON: byte := 0x3a

  // ---- hex digits and checksums ----

  function Hex(ch: byte): int {
    if 0x61 <= ch <= 0x66 then ch - 0x61 + 10
    else if 0x30 <= ch <= 0x39 then ch - 0x30
    else if 0x41 <= ch <= 0x46 then ch - 0x41 + 10
    else -1
  }

  /** hexchars[n]. */
  function HexChar(n: int): (ch: byte)
    requires 0 <= n < 16
    ensures Hex(ch) == n && ch < 0x80
  {
    if n < 10 then 0x30 + n else 0x61 + n - 10
  }

  /** A hexadecimal digit of either case has its value, and no other byte has one. */
  lemma HexIsDigitValue(ch: byte)
    ensures Hex(ch) == if Chars.IsHex(ch as char) then Chars.DigitValue(ch as char) else -1
  {
  }

  function Sum(p: seq<byte>): byte {
    if p == [] then 0 else AddByte(p[0], Sum(p[1..]))
  }

  function AddByte(a: byte, b: byte): byte {
    var x: int, y: int := a, b;
    (x + y) % 0x100
  }

  function Total(p: seq<byte>): nat {
    if p == [] then 0 else p[0] + Total(p[1..])
  }

  /** The checksum is the sum of the bytes modulo 256. */
  lemma {:induction false} SumIsTotal(p: seq<byte>)
    ensures Sum(p) == Total(p) % 0x100
  {
    if p != [] {
      SumIsTotal(p[1..]);
    }
  }

  /** The received checksum: two digits or-ed into an unsigned char, where a non-digit is -1. */
  function Xmit(c1: byte, c2: byte): (x: byte)
    ensures Hex(c1 % 0x80) >= 0 && Hex(c2 % 0x80) >= 0 ==> x == Hex(c1 % 0x80) * 16 + Hex(c2 % 0x80)
  {
    var h1, h2 := Hex(c1 % 0x80), Hex(c2 % 0x80);
    if h2 < 0 then 0xff else if h1 < 0 then 0xf0 + h2 else h1 * 16 + h2
  }

  // ---- getpacket ----

  datatype Outcome = Outcome(ok: bool, buffer: seq<byte>, sent: seq<byte>, rest: seq<byte>)
  {
    function After(sentBefore: seq<byte>): Outcome {
      this.(sent := sentBefore + sent)
    }
  }

  datatype Body =
    | Eof(buffer: seq<byte>)
    | Full(buffer: seq<byte>, sum: byte, rest: seq<byte>)
    | Hashed(buffer: seq<byte>, count: nat, sum: byte, rest: seq<byte>)

  /** What follows the next start character; the parity bit is ignored. */
  function SkipToStart(s: seq<byte>): (r: seq<byte>)
    ensures |s| > 0 ==> |r| < |s|
    ensures |r| <= |s|
  {
    if s == [] then [] else if s[0] % 0x80 == DOLLAR then s[1..] else SkipToStart(s[1..])
  }

  predicate HasStart(s: seq<byte>) {
    exists i :: 0 <= i < |s| && s[i] % 0x80 == DOLLAR
  }

  /** The inner loop: store and add up to a '#', the end of the buffer or of the link. */
  function ReadBody(s: seq<byte>, buffer: seq<byte>, count: nat, sum: byte): (r: Body)
    requires |buffer| == MAX_BUF && count <= MAX_BUF
    ensures |r.buffer| == MAX_BUF
    ensures !r.Eof? ==> |r.rest| <= |s|
    ensures r.Hashed? ==> r.count < MAX_BUF
    decreases |s|
  {
    if count == MAX_BUF then Full(buffer, sum, s)
    else if s == [] then Eof(buffer)
    else if s[0] == HASH then Hashed(buffer, count, sum, s[1..])
    else ReadBody(s[1..], buffer[count := s[0]], count + 1, AddByte(sum, s[0]))
  }

  function StrLen(b: seq<byte>): (n: nat)
    ensures n <= |b|
    ensures 0 !in b[..n] && (n < |b| ==> b[n] == 0)
  {
    if b == [] || b[0] == 0 then 0
    else
      assert b == [b[0]] + b[1..];
      1 + StrLen(b[1..])
  }

  /** Remove a sequence id: the NUL-terminated text moves down by three. */
  function Strip(b: seq<byte>): (r: seq<byte>)
    ensures |r| == |b|
  {
    var n := StrLen(b);
    if n < 3 || n == |b| then b else b[3..n + 1] + b[n - 2..]
  }

  /** A frame with a good checksum: '+', and the id if there seems to be one. */
  function Accept(b: seq<byte>, rest: seq<byte>): Outcome
    requires |b| == MAX_BUF
  {
    if b[2] == COLON then Outcome(true, Strip(b), [PLUS, b[0], b[1]], rest)
    else Outcome(true, b, [PLUS], rest)
  }

  /** getpacket on the bytes still to come, the buffer keeping what earlier packets left. */
  function GetPacket(s: seq<byte>, buffer: seq<byte>): (o: Outcome)
    requires |buffer| == MAX_BUF
    ensures |o.buffer| == MAX_BUF
    decreases |s|
  {
    if !HasStart(s) then Outcome(false, buffer, [], [])
    else
      match ReadBody(SkipToStart(s), buffer, 0, 0)
      case Eof(b) => Outcome(false, b, [], [])
      case Full(b, sum, rest) =>
        // `continue` jumps to the loop test, where xmitcsum is still (unsigned char) -1
        if sum == 0xff then Outcome(true, b, [], rest) else GetPacket(rest, b)
      case Hashed(b, count, sum, rest) =>
        var b' := b[count := 0];
        if |rest| < 2 then Outcome(false, b', [], [])
        else if sum != Xmit(rest[0], rest[1]) then GetPacket(rest[2..], b').After([MINUS])
        else Accept(b', rest[2..])
  }

  // ---- resynchronisation ----

  predicate Junk(j: seq<byte>) {
    forall i :: 0 <= i < |j| ==> j[i] % 0x80 != DOLLAR
  }

  function FrameWith(p: seq<byte>, c1: byte, c2: byte): seq<byte> {
    [DOLLAR] + p + [HASH, c1, c2]
  }

  predicate Frameable(p: seq<byte>) {
    HASH !in p && |p| < MAX_BUF
  }

  /** Junk followed by a frame whose checksum does not match. */
  datatype Noise = Noise(junk: seq<byte>, payload: seq<byte>, c1: byte, c2: byte)
  {
    predicate Valid() {
      Junk(junk) && Frameable(payload) && Xmit(c1, c2) != Sum(payload)
    }
  }

  predicate AllValid(ns: seq<Noise>) {
    ns == [] || (ns[0].Valid() && AllValid(ns[1..]))
  }

  function OnWire(ns: seq<Noise>): seq<byte> {
    if ns == [] then [] else ns[0].junk + FrameWith(ns[0].payload, ns[0].c1, ns[0].c2) + OnWire(ns[1..])
  }

  function Load(buffer: seq<byte>, p: seq<byte>): (r: seq<byte>)
    requires |buffer| == MAX_BUF && |p| < MAX_BUF
    ensures |r| == MAX_BUF
  {
    p + ([0] + buffer[|p| + 1..])
  }

  function LoadAll(buffer: seq<byte>, ns: seq<Noise>): (r: seq<byte>)
    requires |buffer| == MAX_BUF && AllValid(ns)
    ensures |r| == MAX_BUF
    decreases |ns|
  {
    if ns == [] then buffer else LoadAll(Load(buffer, ns[0].payload), ns[1..])
  }

  function Naks(n: nat): seq<byte> {
    seq(n, _ => MINUS)
  }

  lemma {:induction false} SkipJunk(j: seq<byte>, tail: seq<byte>)
    requires Junk(j)
    ensures SkipToStart(j + [DOLLAR] + tail) == tail && HasStart(j + [DOLLAR] + tail)
  {
    var s := j + [DOLLAR] + tail;
    assert s[|j|] == DOLLAR;
    if j == [] {
      assert s[1..] == tail;
    } else {
      assert s[1..] == j[1..] + [DOLLAR] + tail;
      SkipJunk(j[1..], tail);
    }
  }

  lemma AddByteAssoc(a: byte, b: byte, c: byte)
    ensures AddByte(AddByte(a, b), c) == AddByte(a, AddByte(b, c))
  {
  }

  lemma StoreStep(buffer: seq<byte>, count: nat, x: byte, tail: seq<byte>)
    requires count < |buffer|
    ensures buffer[count := x][..count + 1] + tail == buffer[..count] + ([x] + tail)
  {
  }

  lemma {:induction false} ReadFrame(p: seq<byte>, tail: seq<byte>, buffer: seq<byte>, count: nat, sum: byte)
    requires HASH !in p && |buffer| == MAX_BUF && count + |p| < MAX_BUF
    ensures ReadBody(p + [HASH] + tail, buffer, count, sum)
         == Hashed(buffer[..count] + p + buffer[count + |p|..], count + |p|, AddByte(sum, Sum(p)), tail)
    decreases |p|
  {
    var s := p + [HASH] + tail;
    if p == [] {
      assert s[1..] == tail;
      assert buffer[..count] + p + buffer[count..] == buffer;
    } else {
      assert s[1..] == p[1..] + [HASH] + tail;
      var b := buffer[count := p[0]];
      ReadFrame(p[1..], tail, b, count + 1, AddByte(sum, p[0]));
      AddByteAssoc(sum, p[0], Sum(p[1..]));
      StoreStep(buffer, count, p[0], p[1..]);
      assert [p[0]] + p[1..] == p;
      assert b[count + |p|..] == buffer[count + |p|..];
    }
  }

  /** getpacket's outcome once the inner loop has met a '#'. */
  lemma AfterHash(s: seq<byte>, buffer: seq<byte>, r: Body, c1: byte, c2: byte, rest: seq<byte>)
    requires |buffer| == MAX_BUF && HasStart(s)
    requires r == ReadBody(SkipToStart(s), buffer, 0, 0) && r.Hashed? && r.rest == [c1, c2] + rest
    ensures GetPacket(s, buffer)
         == if r.sum == Xmit(c1, c2) then Accept(r.buffer[r.count := 0], rest)
            else GetPacket(rest, r.buffer[r.count := 0]).After([MINUS])
  {
    assert r.rest[2..] == rest;
  }

  lemma BodyOfFrame(p: seq<byte>, tail: seq<byte>, buffer: seq<byte>)
    requires Frameable(p) && |buffer| == MAX_BUF
    ensures var r := ReadBody(p + [HASH] + tail, buffer, 0, 0);
            r.Hashed? && r.sum == Sum(p) && r.rest == tail && r.buffer[r.count := 0] == Load(buffer, p)
  {
    ReadFrame(p, tail, buffer, 0, 0);
    Terminated(p, buffer);
  }

  lemma Terminated(p: seq<byte>, buffer: seq<byte>)
    requires |buffer| == MAX_BUF && |p| < MAX_BUF
    ensures (buffer[..0] + p + buffer[|p|..])[|p| := 0] == Load(buffer, p)
  {
    assert buffer[..0] + p == p;
    assert buffer[|p|..][0 := 0] == [0] + buffer[|p| + 1..];
  }

  lemma FrameSplits(j: seq<byte>, p: seq<byte>, c1: byte, c2: byte, rest: seq<byte>)
    ensures j + FrameWith(p, c1, c2) + rest == j + [DOLLAR] + (p + [HASH] + ([c1, c2] + rest))
  {
  }

  /** One frame, however it ends. */
  lemma OneFrame(j: seq<byte>, p: seq<byte>, c1: byte, c2: byte, rest: seq<byte>, buffer: seq<byte>)
    requires Junk(j) && Frameable(p) && |buffer| == MAX_BUF
    ensures GetPacket(j + FrameWith(p, c1, c2) + rest, buffer)
         == if Sum(p) == Xmit(c1, c2) then Accept(Load(buffer, p), rest)
            else GetPacket(rest, Load(buffer, p)).After([MINUS])
  {
    var body := p + [HASH] + ([c1, c2] + rest);
    var s := j + [DOLLAR] + body;
    FrameSplits(j, p, c1, c2, rest);
    SkipJunk(j, body);
    BodyOfFrame(p, [c1, c2] + rest, buffer);
    AfterHash(s, buffer, ReadBody(body, buffer, 0, 0), c1, c2, rest);
  }

  lemma {:induction false} SkipsNoise(ns: seq<Noise>, s: seq<byte>, buffer: seq<byte>)
    requires |buffer| == MAX_BUF && AllValid(ns)
    ensures GetPacket(OnWire(ns) + s, buffer) == GetPacket(s, LoadAll(buffer, ns)).After(Naks(|ns|))
    decreases |ns|
  {
    if ns == [] {
      assert OnWire(ns) + s == s;
      assert Naks(0) + GetPacket(s, buffer).sent == GetPacket(s, buffer).sent;
    } else {
      var n, rest := ns[0], ns[1..];
      var tail := OnWire(rest) + s;
      OneFrame(n.junk, n.payload, n.c1, n.c2, tail, buffer);
      OnWireSplits(ns, s);
      SkipsNoise(rest, s, Load(buffer, n.payload));
      AfterAfter(GetPacket(s, LoadAll(buffer, ns)), [MINUS], Naks(|rest|));
      assert [MINUS] + Naks(|rest|) == Naks(|ns|);
    }
  }

  lemma OnWireSplits(ns: seq<Noise>, s: seq<byte>)
    requires ns != []
    ensures OnWire(ns) + s == ns[0].junk + FrameWith(ns[0].payload, ns[0].c1, ns[0].c2) + (OnWire(ns[1..]) + s)
  {
  }

  lemma AfterAfter(o: Outcome, a: seq<byte>, b: seq<byte>)
    ensures o.After(b).After(a) == o.After(a + b)
  {
    assert a + (b + o.sent) == (a + b) + o.sent;
  }

  /** Whether index 2 of the buffer looks like a sequence id when payload p is accepted:
      a payload of two bytes puts its NUL there, a shorter one leaves what was there. */
  predicate SequenceMark(p: seq<byte>, before: seq<byte>)
    requires |before| == MAX_BUF
  {
    if |p| >= 3 then p[2] == COLON else |p| < 2 && before[2] == COLON
  }

  /** Resynchronisation: after any junk and any bad frames, the first good frame is
      returned with one '-' per bad frame and one '+', exactly unless a ':' stands at
      index 2, which also sends back two bytes and shifts the payload. */
  lemma Resynchronises(ns: seq<Noise>, j: seq<byte>, p: seq<byte>, c1: byte, c2: byte, rest: seq<byte>, buffer: seq<byte>)
    requires |buffer| == MAX_BUF && AllValid(ns)
    requires Junk(j) && Frameable(p) && Xmit(c1, c2) == Sum(p)
    ensures var o := GetPacket(OnWire(ns) + (j + FrameWith(p, c1, c2) + rest), buffer);
            && o.ok && o.rest == rest
            && Naks(|ns|) + [PLUS] <= o.sent
            && (!SequenceMark(p, LoadAll(buffer, ns)) <==>
                  o.sent == Naks(|ns|) + [PLUS] && o.buffer[..|p| + 1] == p + [0])
  {
    var s := j + FrameWith(p, c1, c2) + rest;
    SkipsNoise(ns, s, buffer);
    OneFrame(j, p, c1, c2, rest, LoadAll(buffer, ns));
    var b := Load(LoadAll(buffer, ns), p);
    assert b[2] == COLON <==> SequenceMark(p, LoadAll(buffer, ns));
    assert b[..|p| + 1] == p + [0];
  }

  /** A frame that fills the buffer is dropped without an answer, except that one whose
      bytes add up to 0xff is returned as a packet, unterminated. */
  lemma OverflowIsAcceptedExactly(j: seq<byte>, body: seq<byte>, rest: seq<byte>, buffer: seq<byte>)
    requires Junk(j) && |body| == MAX_BUF && HASH !in body && |buffer| == MAX_BUF
    ensures GetPacket(j + [DOLLAR] + body + rest, buffer)
         == if Sum(body) == 0xff then Outcome(true, body, [], rest) else GetPacket(rest, body)
  {
    var s := j + [DOLLAR] + (body + rest);
    assert j + [DOLLAR] + body + rest == s;
    SkipJunk(j, body + rest);
    ReadFull(body, rest, buffer, 0, 0);
    assert buffer[..0] + body == body;
    AfterFull(s, buffer, body, Sum(body), rest);
  }

  lemma AfterFull(s: seq<byte>, buffer: seq<byte>, body: seq<byte>, sum: byte, rest: seq<byte>)
    requires |buffer| == |body| == MAX_BUF && HasStart(s)
    requires ReadBody(SkipToStart(s), buffer, 0, 0) == Full(body, sum, rest)
    ensures GetPacket(s, buffer) == if sum == 0xff then Outcome(true, body, [], rest) else GetPacket(rest, body)
  {
  }

  lemma {:induction false} ReadFull(body: seq<byte>, rest: seq<byte>, buffer: seq<byte>, count: nat, sum: byte)
    requires |buffer| == MAX_BUF && count + |body| == MAX_BUF && HASH !in body
    ensures ReadBody(body + rest, buffer, count, sum) == Full(buffer[..count] + body, AddByte(sum, Sum(body)), rest)
    decreases |body|
  {
    if body == [] {
      assert body + rest == rest;
      assert buffer[..count] + body == buffer;
    } else {
      assert (body + rest)[1..] == body[1..] + rest;
      var b := buffer[count := body[0]];
      ReadFull(body[1..], rest, b, count + 1, AddByte(sum, body[0]));
      AddByteAssoc(sum, body[0], Sum(body[1..]));
      StoreStep(buffer, count, body[0], body[1..]);
      assert [body[0]] + body[1..] == body;
    }
  }

  // ---- putpacket ----

  function Frame(p: seq<byte>): seq<byte> {
    FrameWith(p, HexChar(Sum(p) / 16), HexChar(Sum(p) % 16))
  }

  function Copies(p: seq<byte>, k: nat): seq<byte> {
    if k == 0 then [] else Frame(p) + Copies(p, k - 1)
  }

  /** What the link has carried once putpacket is done: the index into its output buffer
      is not reset after a NAK, so the k-th attempt sends k copies of the frame. */
  function PutPacket(sent: seq<byte>, p: seq<byte>, replies: seq<byte>, k: nat): seq<byte>
    decreases |replies|
  {
    var sent' := sent + Copies(p, k);
    if replies == [] || replies[0] % 0x80 == PLUS then sent' else PutPacket(sent', p, replies[1..], k + 1)
  }

  lemma FrameIsGood(p: seq<byte>)
    ensures Xmit(HexChar(Sum(p) / 16), HexChar(Sum(p) % 16)) == Sum(p)
  {
    var c1, c2 := HexChar(Sum(p) / 16), HexChar(Sum(p) % 16);
    assert c1 % 0x80 == c1 && c2 % 0x80 == c2;
  }

  /** A well-formed frame behind any junk arrives as it was sent. */
  lemma GoodFrame(j: seq<byte>, p: seq<byte>, rest: seq<byte>, buffer: seq<byte>)
    requires Junk(j) && Frameable(p) && |buffer| == MAX_BUF && !SequenceMark(p, buffer)
    ensures GetPacket(j + Frame(p) + rest, buffer) == Outcome(true, Load(buffer, p), [PLUS], rest)
  {
    FrameIsGood(p);
    OneFrame(j, p, HexChar(Sum(p) / 16), HexChar(Sum(p) % 16), rest, buffer);
  }

  /** Every transmission of putpacket begins with a frame that getpacket decodes to the
      original payload, leaving the remaining copies. */
  lemma TransmissionDecodes(p: seq<byte>, k: nat, buffer: seq<byte>)
    requires Frameable(p) && k > 0 && |buffer| == MAX_BUF && !SequenceMark(p, buffer)
    ensures var o := GetPacket(Copies(p, k), buffer);
            o.ok && o.sent == [PLUS] && p + [0] <= o.buffer && o.rest == Copies(p, k - 1)
  {
    GoodFrame([], p, Copies(p, k - 1), buffer);
    assert [] + Frame(p) + Copies(p, k - 1) == Copies(p, k);
  }

  // ---- on the link ----

  class Link {
    var incoming: seq<byte>
    var sent: seq<byte>

    /** getDebugChar: false when the link is gone. */
    method GetDebugChar() returns (ok: bool, ch: byte)
      modifies this
      ensures sent == old(sent)
      ensures ok == (old(incoming) != [])
      ensures ok ==> ch == old(incoming)[0] && incoming == old(incoming)[1..]
      ensures !ok ==> incoming == []
    {
      if incoming == [] {
        return false, 0;
      }
      ok, ch := true, incoming[0];
      incoming := incoming[1..];
    }

    method PutDebugChar(ch: byte)
      modifies this
      ensures incoming == old(incoming) && sent == old(sent) + [ch]
    {
      sent := sent + [ch];
    }
  }

  method WaitForStart(link: Link) returns (ok: bool)
    modifies link
    ensures link.sent == old(link.sent)
    ensures ok == HasStart(old(link.incoming))
    ensures link.incoming == if ok then SkipToStart(old(link.incoming)) else []
  {
    var ch: byte := 0;
    ghost var all := link.incoming;
    while ch % 0x80 != DOLLAR
      invariant link.sent == old(link.sent)
      invariant |link.incoming| <= |all|
      invariant ch % 0x80 != DOLLAR ==> HasStart(link.incoming) == HasStart(all)
                                        && SkipToStart(link.incoming) == SkipToStart(all)
      invariant ch % 0x80 == DOLLAR ==> HasStart(all) && link.incoming == SkipToStart(all)
      decreases |link.incoming|, ch % 0x80 != DOLLAR
    {
      ghost var was := link.incoming;
      ok, ch := link.GetDebugChar();
      if !ok {
        return false;
      }
      assert was == [was[0]] + link.incoming;
    }
    ok := true;
  }

  method ReadPayload(link: Link, buffer: array<byte>) returns (ok: bool, count: nat, checksum: byte)
    requires buffer.Length == MAX_BUF
    modifies link, buffer
    ensures link.sent == old(link.sent)
    ensures var r := ReadBody(old(link.incoming), old(buffer[..]), 0, 0);
            && buffer[..] == r.buffer
            && ok == !r.Eof?
            && (r.Eof? ==> link.incoming == [])
            && (r.Full? ==> count == MAX_BUF && checksum == r.sum && link.incoming == r.rest)
            && (r.Hashed? ==> count == r.count < MAX_BUF && checksum == r.sum && link.incoming == r.rest)
  {
    checksum, count := 0, 0;
    ghost var r := ReadBody(link.incoming, buffer[..], 0, 0);
    while count < MAX_BUF
      invariant 0 <= count <= MAX_BUF && link.sent == old(link.sent)
      invariant r == ReadBody(link.incoming, buffer[..], count, checksum)
    {
      var got, ch := link.GetDebugChar();
      if !got {
        return false, count, checksum;
      }
      if ch == HASH {
        return true, count, checksum;
      }
      checksum := AddByte(checksum, ch);
      buffer[count] := ch;
      count := count + 1;
    }
    ok := true;
  }

  method TextLength(buffer: array<byte>) returns (count: nat)
    requires 0 in buffer[..]
    ensures count == StrLen(buffer[..]) < buffer.Length
  {
    count := 0;
    assert buffer[0..] == buffer[..];
    while buffer[count] != 0
      invariant 0 <= count <= StrLen(buffer[..]) < buffer.Length
      invariant StrLen(buffer[..]) == count + StrLen(buffer[count..])
      decreases buffer.Length - count
    {
      assert buffer[count..][1..] == buffer[count + 1..];
      count := count + 1;
    }
  }

  /** Shift the text down over its sequence id. */
  method RemoveSequence(buffer: array<byte>)
    requires buffer.Length == MAX_BUF && 0 in buffer[..]
    modifies buffer
    ensures buffer[..] == Strip(old(buffer[..]))
  {
    ghost var was := buffer[..];
    var count := TextLength(buffer);
    if count < 3 {
      return;
    }
    var i := 3;
    while i <= count
      invariant 3 <= i <= count + 1
      invariant forall k :: 0 <= k < i - 3 ==> buffer[k] == was[k + 3]
      invariant forall k :: i - 3 <= k < MAX_BUF ==> buffer[k] == was[k]
    {
      buffer[i - 3] := buffer[i];
      i := i + 1;
    }
    assert buffer[..] == Strip(was);
  }

  datatype Verdict = Lost | Bad | Good

  /** The checksum test after a '#': read two digits, answer, drop a sequence id. */
  method CheckFrame(link: Link, buffer: array<byte>, count: nat, checksum: byte) returns (v: Verdict)
    requires buffer.Length == MAX_BUF && count < MAX_BUF
    modifies link, buffer
    ensures var rest, b := old(link.incoming), old(buffer[..])[count := 0];
            if |rest| < 2 then v.Lost? && buffer[..] == b && link.incoming == [] && link.sent == old(link.sent)
            else if checksum != Xmit(rest[0], rest[1]) then
              v.Bad? && buffer[..] == b && link.incoming == rest[2..] && link.sent == old(link.sent) + [MINUS]
            else
              v.Good? && Outcome(true, buffer[..], link.sent, link.incoming) == Accept(b, rest[2..]).After(old(link.sent))
  {
    buffer[count] := 0;
    ghost var b := buffer[..];
    assert b[count] == 0;
    var got, c1 := link.GetDebugChar();
    if !got {
      return Lost;
    }
    var c2: byte;
    got, c2 := link.GetDebugChar();
    if !got {
      return Lost;
    }
    if checksum != Xmit(c1, c2) {
      link.PutDebugChar(MINUS);
      return Bad;
    }
    link.PutDebugChar(PLUS);
    if buffer[2] == COLON {
      link.PutDebugChar(buffer[0]);
      link.PutDebugChar(buffer[1]);
      RemoveSequence(buffer);
    }
    v := Good;
  }

  method GetPacketFrom(link: Link, buffer: array<byte>) returns (ok: bool)
    requires buffer.Length == MAX_BUF
    modifies link, buffer
    ensures Outcome(ok, buffer[..], link.sent, link.incoming)
         == GetPacket(old(link.incoming), old(buffer[..])).After(old(link.sent))
  {
    ghost var goal := GetPacket(link.incoming, buffer[..]).After(link.sent);
    while true
      invariant goal == GetPacket(link.incoming, buffer[..]).After(link.sent)
      decreases |link.incoming|
    {
      var started := WaitForStart(link);
      if !started {
        return false;
      }
      var read, count, checksum := ReadPayload(link, buffer);
      if !read {
        return false;
      }
      if count >= MAX_BUF {
        if checksum == 0xff {
          return true;
        }
      } else {
        ghost var sentBefore := link.sent;
        var v := CheckFrame(link, buffer, count, checksum);
        if v.Lost? {
          return false;
        }
        if v.Good? {
          return true;
        }
        AfterAfter(GetPacket(link.incoming, buffer[..]), sentBefore, [MINUS]);
      }
    }
  }

  /** How often putpacket writes: until a '+' or the end of the link. */
  function Attempts(replies: seq<byte>): nat {
    if replies == [] || replies[0] % 0x80 == PLUS then 1 else 1 + Attempts(replies[1..])
  }

  lemma {:induction false} CopiesGrow(p: seq<byte>, k: nat, n: nat)
    requires k <= n
    ensures |Copies(p, k)| + (if k < n then |p| + 4 else 0) <= |Copies(p, n)|
    decreases n - k
  {
    if k < n {
      CopiesAppend(p, n - 1);
      CopiesGrow(p, k, n - 1);
    }
  }

  lemma {:induction false} CopiesAppend(p: seq<byte>, k: nat)
    ensures Copies(p, k) + Frame(p) == Copies(p, k + 1)
  {
    if k == 0 {
      assert Copies(p, 1) == Frame(p) + [] == [] + Frame(p);
    } else {
      CopiesAppend(p, k - 1);
      assert Copies(p, k) + Frame(p) == Frame(p) + (Copies(p, k - 1) + Frame(p));
    }
  }

  lemma {:induction false} CopiesLength(p: seq<byte>, k: nat)
    ensures |Copies(p, k)| == k * (|p| + 4)
  {
    if k > 0 {
      CopiesLength(p, k - 1);
      assert k * (|p| + 4) == (k - 1) * (|p| + 4) + (|p| + 4);
    }
  }

  /** The copies fit exactly as long as attempts times frame length does. */
  lemma CopiesFitExactly(p: seq<byte>, k: nat)
    ensures |Copies(p, k)| <= OUT_BUF <==> k * (|p| + 4) <= OUT_BUF
  {
    CopiesLength(p, k);
  }

  /** putpacket.  `overran` is set, and nothing more is promised, where the copies would
      run over the end of the output buffer, which the code does not check. */
  method PutPacketTo(link: Link, packet: seq<byte>) returns (ok: bool, overran: bool)
    requires 0 !in packet
    modifies link
    ensures overran <==> Attempts(old(link.incoming)) * (|packet| + 4) > OUT_BUF
    ensures !overran ==> link.sent == PutPacket(old(link.sent), packet, old(link.incoming), 1)
    ensures !overran ==> (ok <==> HasPlus(old(link.incoming)))
  {
    ok, overran := false, false;
    var out := new byte[OUT_BUF](_ => 0);
    var i := 0;
    ghost var k := 0;
    ghost var n := Attempts(link.incoming);
    CopiesLength(packet, n);
    while true
      invariant i == |Copies(packet, k)| <= OUT_BUF && out[..i] == Copies(packet, k)
      invariant n == k + Attempts(link.incoming) && |link.incoming| <= |old(link.incoming)|
      invariant PutPacket(old(link.sent), packet, old(link.incoming), 1)
             == PutPacket(link.sent, packet, link.incoming, k + 1)
      invariant HasPlus(old(link.incoming)) <==> HasPlus(link.incoming)
      decreases |link.incoming|
    {
      CopiesGrow(packet, k + 1, n);
      CopiesAppend(packet, k);
      if i + |packet| + 4 > OUT_BUF {
        overran := true;
        return;
      }
      i := SendCopies(link, out, i, packet, k);
      k := k + 1;
      OneReply(link.incoming);
      var got, ch := link.GetDebugChar();
      if !got {
        return;
      }
      if ch % 0x80 == PLUS {
        ok := true;
        return;
      }
    }
  }

  method AppendCopy(out: array<byte>, start: nat, packet: seq<byte>, ghost k: nat) returns (i: nat)
    requires start == |Copies(packet, k)| && start + |packet| + 4 <= out.Length && out[..start] == Copies(packet, k)
    modifies out
    ensures i == |Copies(packet, k + 1)| <= out.Length && out[..i] == Copies(packet, k + 1)
  {
    CopiesAppend(packet, k);
    i := AppendFrame(out, start, packet);
  }

  /** One more copy, and then all of them to the link. */
  method SendCopies(link: Link, out: array<byte>, start: nat, packet: seq<byte>, ghost k: nat) returns (i: nat)
    requires start == |Copies(packet, k)| && start + |packet| + 4 <= out.Length && out[..start] == Copies(packet, k)
    modifies link`sent, out
    ensures i == |Copies(packet, k + 1)| <= out.Length && out[..i] == Copies(packet, k + 1)
    ensures link.sent == old(link.sent) + Copies(packet, k + 1)
  {
    i := AppendCopy(out, start, packet, k);
    link.sent := link.sent + out[..i];
  }

  lemma OneReply(replies: seq<byte>)
    ensures replies == [] ==> !HasPlus(replies) && Attempts(replies) == 1
    ensures replies != [] ==> (HasPlus(replies) <==> replies[0] % 0x80 == PLUS || HasPlus(replies[1..]))
  {
    if replies != [] {
      assert replies == [replies[0]] + replies[1..];
    }
  }

  ghost predicate HasPlus(s: seq<byte>) {
    exists i :: 0 <= i < |s| && s[i] % 0x80 == PLUS
  }

  /** outputbuffer[i++] = b. */
  method Append(out: array<byte>, i: nat, b: byte) returns (next: nat)
    requires i < out.Length
    modifies out
    ensures next == i + 1 && out[..next] == old(out[..i]) + [b]
  {
    out[i] := b;
    next := i + 1;
  }

  /** The inner loop of putpacket: copy and sum. */
  method AppendPayload(out: array<byte>, start: nat, packet: seq<byte>) returns (i: nat, checksum: byte)
    requires start + |packet| <= out.Length
    modifies out
    ensures i == start + |packet| && checksum == Sum(packet)
    ensures out[..i] == old(out[..start]) + packet
  {
    ghost var head := out[..start];
    i, checksum := start, 0;
    var count := 0;
    assert packet[0..] == packet && head + packet[..0] == head;
    while count < |packet|
      invariant 0 <= count <= |packet| && i == start + count
      invariant out[..i] == head + packet[..count]
      invariant Sum(packet) == AddByte(checksum, Sum(packet[count..]))
    {
      assert packet[count..][1..] == packet[count + 1..];
      AddByteAssoc(checksum, packet[count], Sum(packet[count + 1..]));
      checksum := AddByte(checksum, packet[count]);
      i := Append(out, i, packet[count]);
      assert (head + packet[..count]) + [packet[count]] == head + packet[..count + 1];
      count := count + 1;
    }
    assert packet[count..] == [] && packet[..count] == packet;
  }

  lemma FrameText(was: seq<byte>, p: seq<byte>, h1: byte, h2: byte)
    ensures ((was + [DOLLAR]) + p) + [HASH] + [h1] + [h2] == was + FrameWith(p, h1, h2)
  {
  }

  /** One pass of putpacket's loop: '$', the payload while summing it, '#', two digits. */
  method AppendFrame(out: array<byte>, start: nat, packet: seq<byte>) returns (i: nat)
    requires start + |packet| + 4 <= out.Length
    modifies out
    ensures i == start + |packet| + 4
    ensures out[..i] == old(out[..start]) + Frame(packet)
  {
    ghost var was := out[..start];
    var checksum;
    i := Append(out, start, DOLLAR);
    i, checksum := AppendPayload(out, i, packet);
    i := Append(out, i, HASH);
    i := Append(out, i, HexChar(checksum / 16));
    i := Append(out, i, HexChar(checksum % 16));
    FrameText(was, packet, HexChar(checksum / 16), HexChar(checksum % 16));
  }
}
