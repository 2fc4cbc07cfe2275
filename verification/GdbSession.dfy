/** The command loop of gdbcommon/gdb-stub.c from the packet texts on: what each received
    packet does to the trapped program, through the codecs of the packets and past the
    step plants. */
module GdbSession {
  import opened Options
  import opened Bytes
  import opened GdbPacket
  import opened GdbMemory
  import opened Mips
  import opened Plants
  import opened GdbStub

  /** The window of GdbReadByte and GdbWriteByte, as bytes of the word memory. */
  function WindowOf(mem: seq<Word>): (w: Memory)
    requires |mem| == MEM_WORDS
  {
    var w := seq(HIGH - LOW, i requires 0 <= i < HIGH - LOW => GetByte(mem, LOW + i));
    assert forall i :: 0 <= i < |w| ==> w[i] == GetByte(mem, LOW + i);
    w
  }

  // ---- packets as commands ----

  /** m, byte by byte, up to the first address that may not be read. */
  function Reads(addr: nat, count: nat): seq<Command>
    decreases count
  {
    if count == 0 || !InWindow(addr) then [] else [Read(addr)] + Reads(addr + 1, count - 1)
  }

  /** M and X likewise. */
  function Writes(ptr: seq<byte>, addr: nat, count: nat, binary: bool): seq<Command>
    decreases count
  {
    if count == 0 || !InWindow(addr) then []
    else
      var (ch, ptr') := DecodeByte(ptr, binary);
      [Write(addr, ch)] + Writes(ptr', addr + 1, count - 1, binary)
  }

  const READ_LETTER: byte := 0x6d
  const HEX_LETTER: byte := 0x4d
  const BINARY_LETTER: byte := 0x58
  const REGS_LETTER: byte := 0x47
  const STEP_LETTER: byte := 0x73
  const CONTINUE_LETTER: byte := 0x63

  const REG_WORDS := 90  // the six stretches of G
  const EPC_WORD := 37   // behind r0..r31, status, lo, hi, badvaddr and cause

  function Decoded(ptr: seq<byte>, count: nat): (data: seq<byte>)
    ensures |data| == count
    decreases count
  {
    if count == 0 then []
    else
      var (ch, ptr') := DecodeByte(ptr, false);
      [ch] + Decoded(ptr', count - 1)
  }

  /** The registers among the bytes of a G packet. */
  function RegsFrom(data: seq<byte>, ctx: Context): Context
    requires |data| == 4 * REG_WORDS
  {
    ctx.(regs := seq(32, i requires 0 <= i < 32 => LoadLe32(data, 4 * i)), epc := LoadLe32(data, 4 * EPC_WORD))
  }

  function AddressIn(ptr: seq<byte>): Option<Word> {
    var (addr, ptr') := HexToInt(ptr);
    if ptr' == ptr then None else Some(addr)
  }

  /** What the switch of the command loop makes of a received buffer. */
  function Commands(b: seq<byte>, ctx: Context): seq<Command> {
    var letter := At(b, 0);
    if letter == READ_LETTER then
      match ParseHeader(b)
      case Malformed => []
      case Header(addr, length, _) => Reads(addr, Count(length))
    else if letter == HEX_LETTER || letter == BINARY_LETTER then
      match ParseHeader(b)
      case Malformed => []
      case Header(addr, length, ptr) =>
        if At(ptr, 0) != COLON then [] else Writes(Skip(ptr, 1), addr, Count(length), letter == BINARY_LETTER)
    else if letter == REGS_LETTER then [SetRegs(RegsFrom(Decoded(Skip(b, 1), 4 * REG_WORDS), ctx))]
    else if letter == STEP_LETTER then [Step(AddressIn(Skip(b, 1)))]
    else if letter == CONTINUE_LETTER then [Continue(AddressIn(Skip(b, 1)))]
    else [Other]
  }

  // ---- they agree with the packets' own functions ----

  lemma PutInWindow(mem: seq<Word>, addr: nat, b: byte)
    requires |mem| == MEM_WORDS && InWindow(addr)
    ensures WindowOf(PutByte(mem, addr, b)) == WindowOf(mem)[addr - LOW := b]
  {
    var w, w' := WindowOf(mem), WindowOf(PutByte(mem, addr, b));
    forall i | 0 <= i < HIGH - LOW
      ensures w'[i] == w[addr - LOW := b][i]
    {
      PutThenGet(mem, addr, b, LOW + i);
    }
  }

  /** The window holds what hex2mem stores ... */
  lemma {:induction false} WritesAgree(mem: seq<Word>, ctx: Context, ptr: seq<byte>, addr: nat, count: nat, binary: bool)
    requires |mem| == MEM_WORDS
    ensures var p := ServePlain(mem, ctx, Writes(ptr, addr, count, binary));
            WindowOf(p.mem) == Hex2Mem(ptr, WindowOf(mem), addr, count, binary).1 && p.ctx == ctx
    decreases count
  {
    if count > 0 && InWindow(addr) {
      var (ch, ptr') := DecodeByte(ptr, binary);
      PutInWindow(mem, addr, ch);
      ServesWrite(mem, ctx, addr, ch, Writes(ptr', addr + 1, count - 1, binary));
      WritesAgree(PutByte(mem, addr, ch), ctx, ptr', addr + 1, count - 1, binary);
    }
  }

  /** ... and every byte outside it is as before. */
  lemma {:induction false} WritesStayInside(mem: seq<Word>, ctx: Context, ptr: seq<byte>, addr: nat, count: nat, binary: bool, other: Word)
    requires |mem| == MEM_WORDS && !InWindow(other % 0x1000_0000)
    ensures GetByte(ServePlain(mem, ctx, Writes(ptr, addr, count, binary)).mem, other) == GetByte(mem, other)
    decreases count
  {
    if count > 0 && InWindow(addr) {
      var (ch, ptr') := DecodeByte(ptr, binary);
      PutOutside(mem, addr, ch, other);
      ServesWrite(mem, ctx, addr, ch, Writes(ptr', addr + 1, count - 1, binary));
      WritesStayInside(PutByte(mem, addr, ch), ctx, ptr', addr + 1, count - 1, binary, other);
    }
  }

  lemma PutOutside(mem: seq<Word>, addr: nat, b: byte, other: Word)
    requires |mem| == MEM_WORDS && InWindow(addr) && !InWindow(other % 0x1000_0000)
    ensures GetByte(PutByte(mem, addr, b), other) == GetByte(mem, other)
  {
    WindowIsLow(addr);
    PutThenGet(mem, addr, b, other);
  }

  lemma WindowIsLow(addr: nat)
    requires InWindow(addr)
    ensures addr % 0x1000_0000 == addr
  {
  }

  lemma ServesWrite(mem: seq<Word>, ctx: Context, addr: Word, b: byte, rest: seq<Command>)
    requires |mem| == MEM_WORDS
    ensures ServePlain(mem, ctx, [Write(addr, b)] + rest) == ServePlain(PutByte(mem, addr, b), ctx, rest)
  {
    assert ([Write(addr, b)] + rest)[1..] == rest;
  }

  /** The replies are the bytes whose digits mem2hex writes. */
  lemma {:induction false} ReadsAgree(mem: seq<Word>, ctx: Context, addr: nat, count: nat)
    requires |mem| == MEM_WORDS
    ensures var p := ServePlain(mem, ctx, Reads(addr, count));
            p.mem == mem && HexOf(p.replies) == Mem2Hex(WindowOf(mem), addr, count).1
    decreases count
  {
    if count > 0 && InWindow(addr) {
      ServesRead(mem, ctx, addr, Reads(addr + 1, count - 1));
      ReadsAgree(mem, ctx, addr + 1, count - 1);
      var b, rest := GetByte(mem, addr), ServePlain(mem, ctx, Reads(addr + 1, count - 1)).replies;
      assert WindowOf(mem)[addr - LOW] == b && ([b] + rest)[1..] == rest;
    }
  }

  lemma ServesRead(mem: seq<Word>, ctx: Context, addr: Word, rest: seq<Command>)
    requires |mem| == MEM_WORDS
    ensures var p := ServePlain(mem, ctx, rest);
            ServePlain(mem, ctx, [Read(addr)] + rest) == p.(replies := [GetByte(mem, addr)] + p.replies)
  {
    assert ([Read(addr)] + rest)[1..] == rest;
  }

  /** An M or X packet, whatever it says, writes through the command loop what it writes
      on its own. */
  lemma WritePacketIsCommands(b: seq<byte>, mem: seq<Word>, ctx: Context)
    requires |mem| == MEM_WORDS && At(b, 0) in {HEX_LETTER, BINARY_LETTER}
    ensures WindowOf(ServePlain(mem, ctx, Commands(b, ctx)).mem)
         == WritePacket(b, WindowOf(mem), At(b, 0) == BINARY_LETTER).0
  {
    match ParseHeader(b)
    case Malformed =>
    case Header(addr, length, ptr) =>
      WritesAgree(mem, ctx, Skip(ptr, 1), addr, Count(length), At(b, 0) == BINARY_LETTER);
  }

  /** An m packet replies, if it replies with data, the hex of the bytes the loop reads. */
  lemma ReadPacketIsCommands(b: seq<byte>, mem: seq<Word>, ctx: Context)
    requires |mem| == MEM_WORDS && At(b, 0) == READ_LETTER
    ensures var p, reply := ServePlain(mem, ctx, Commands(b, ctx)), ReadPacket(b, WindowOf(mem));
            p.mem == mem && (reply.Reply? ==> reply.text in {HexOf(p.replies), Error(1), Error(3)})
  {
    match ParseHeader(b)
    case Malformed =>
    case Header(addr, length, _) => ReadsAgree(mem, ctx, addr, Count(length));
  }

  // ---- through the stub ----

  lemma DataCommandsAreAligned(b: seq<byte>, ctx: Context)
    requires |ctx.regs| == 32 && At(b, 0) in {READ_LETTER, HEX_LETTER, BINARY_LETTER}
    ensures StepsAligned(ctx, Commands(b, ctx))
  {
    match ParseHeader(b)
    case Malformed =>
    case Header(addr, length, ptr) =>
      ReadsAreAligned(ctx, addr, Count(length));
      WritesAreAligned(ctx, Skip(ptr, 1), addr, Count(length), At(b, 0) == BINARY_LETTER);
  }

  lemma {:induction false} ReadsAreAligned(ctx: Context, addr: nat, count: nat)
    requires |ctx.regs| == 32
    ensures StepsAligned(ctx, Reads(addr, count))
    decreases count
  {
    if count > 0 && InWindow(addr) {
      ReadsAreAligned(ctx, addr + 1, count - 1);
      assert Reads(addr, count)[1..] == Reads(addr + 1, count - 1);
    }
  }

  lemma {:induction false} WritesAreAligned(ctx: Context, ptr: seq<byte>, addr: nat, count: nat, binary: bool)
    requires |ctx.regs| == 32
    ensures StepsAligned(ctx, Writes(ptr, addr, count, binary))
    decreases count
  {
    if count > 0 && InWindow(addr) {
      var (ch, ptr') := DecodeByte(ptr, binary);
      WritesAreAligned(ctx, ptr', addr + 1, count - 1, binary);
      assert Writes(ptr, addr, count, binary)[1..] == Writes(ptr', addr + 1, count - 1, binary);
    }
  }

  /** From the wire to the program: whatever plants lie over the memory `mem`, an X or M
      packet behind any junk is received, acknowledged once, and leaves exactly its data
      in the memory below the plants. */
  lemma WriteReachesProgram(s: Stepper, mem: seq<Word>, ctx: Context, binary: bool, addr: nat, data: seq<byte>,
                            junk: seq<byte>, rest: seq<byte>, buffer: seq<byte>)
    requires s.Over(mem) && |ctx.regs| == 32 && |buffer| == MAX_BUF && Junk(junk)
    requires LOW <= addr && addr + |data| <= HIGH
    requires |WriteText(if binary then BINARY_LETTER else HEX_LETTER, addr, data, binary)| < MAX_BUF
    ensures |mem| == MEM_WORDS
    ensures var letter := if binary then BINARY_LETTER else HEX_LETTER;
            var o := GetPacket(junk + Frame(WriteText(letter, addr, data, binary)) + rest, buffer);
            && o.ok && o.sent == [PLUS] && o.rest == rest
            && StepsAligned(ctx, Commands(o.buffer, ctx))
            && exists mem' :: |mem'| == MEM_WORDS
                 && Serve(s.Recover(), ctx, Commands(o.buffer, ctx)).at.Over(mem')
                 && WindowOf(mem') == Stored(WindowOf(mem), addr, data)
  {
    var letter := if binary then BINARY_LETTER else HEX_LETTER;
    var text := WriteText(letter, addr, data, binary);
    var b := Load(buffer, text);
    ArrivesOnce(letter, binary, addr, data, junk, rest, buffer);
    assert At(b, 0) == letter;
    DecodesInBuffer(letter, binary, addr, data, WindowOf(mem), buffer);
    WritePacketIsCommands(b, mem, ctx);
    DataCommandsAreAligned(b, ctx);
    RecoverUndoes(mem, s);
    ServeIsPlain(s.Recover(), ctx, Commands(b, ctx));
  }

  /** G in hexadecimal sets the registers a later step plans with, and the address a later
      s or c resumes at. */
  lemma RegistersArrive(data: seq<byte>, t: seq<byte>, ctx: Context)
    requires |data| == 4 * REG_WORDS
    ensures Commands([REGS_LETTER] + (HexOf(data) + t), ctx) == [SetRegs(RegsFrom(data, ctx))]
  {
    var b := [REGS_LETTER] + (HexOf(data) + t);
    assert b[1..] == HexOf(data) + t;
    DecodesAll(data, t);
  }

  function Flat(words: seq<Word>): (data: seq<byte>)
    ensures |data| == 4 * |words|
  {
    if words == [] then [] else Le32(words[0]) + Flat(words[1..])
  }

  lemma {:induction false} FlatAt(words: seq<Word>, i: nat)
    requires i < |words|
    ensures LoadLe32(Flat(words), 4 * i) == words[i]
    decreases i
  {
    var more := Flat(words[1..]);
    if i == 0 {
      LoadStored([], words[0], more);
      assert [] + Le32(words[0]) + more == Flat(words);
    } else {
      FlatAt(words[1..], i - 1);
      assert forall k :: 0 <= k < |more| ==> Flat(words)[4 + k] == more[k];
    }
  }

  /** The words of a G packet are r0 to r31, status, lo, hi, badvaddr, cause and epc. */
  lemma RegistersInOrder(words: seq<Word>, ctx: Context)
    requires |words| == REG_WORDS
    ensures var c := RegsFrom(Flat(words), ctx);
            c.regs == words[..32] && c.epc == words[32 + |["status", "lo", "hi", "badvaddr", "cause"]|]
  {
    forall i | 0 <= i < REG_WORDS ensures LoadLe32(Flat(words), 4 * i) == words[i] {
      FlatAt(words, i);
    }
  }

  function Letter(c: char): byte
    requires c < 256 as char
  {
    c as int
  }

  /** "s" and "c" resume where the program stopped, and at the address behind them if
      there is one. */
  lemma ResumePackets(addr: Word, t: seq<byte>, ctx: Context)
    requires t == [] || Hex(t[0]) < 0
    ensures Commands([Letter('s')] + (ToHex(addr) + t), ctx) == [Step(Some(addr))]
    ensures Commands([Letter('c')] + (ToHex(addr) + t), ctx) == [Continue(Some(addr))]
    ensures Commands([Letter('s')] + t, ctx) == [Step(None)]
    ensures Commands([Letter('c')] + t, ctx) == [Continue(None)]
  {
    ReadsNumber(addr, t);
    var digits := ToHex(addr) + t;
    assert ([Letter('s')] + digits)[1..] == digits && ([Letter('c')] + digits)[1..] == digits;
    assert ([Letter('s')] + t)[1..] == t && ([Letter('c')] + t)[1..] == t;
    assert |ToHex(addr)| > 0;
    assert Digits(t) == 0 && t[0..] == t;
    assert digits != t;
  }

  /** "G", "m", "M" and "X" are the other packets with a meaning here. */
  lemma OtherLetters()
    ensures REGS_LETTER == Letter('G') && READ_LETTER == Letter('m')
    ensures HEX_LETTER == Letter('M') && BINARY_LETTER == Letter('X')
  {
  }

  lemma {:induction false} DecodesAll(data: seq<byte>, t: seq<byte>)
    ensures Decoded(HexOf(data) + t, |data|) == data
    decreases |data|
  {
    if data != [] {
      DecodesOne(data, t, false);
      DecodesAll(data[1..], t);
    }
  }
}
