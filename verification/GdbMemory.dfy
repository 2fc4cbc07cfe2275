/** The memory and register packets of gdbcommon/gdb-stub.c: m, M, X, g and G, their
    hex and escaped-binary codecs, and the window GdbReadByte and GdbWriteByte allow.
    The escaping is the one of the "Overview", the packets those of "Packets" in the
    GDB Remote Serial Protocol.  A C pointer into the packet buffer is modelled as the
    text from there to the end of the buffer. */
module GdbMemory {
  import opened Bytes
  import opened GdbPacket
  import Bits

  const LOW := 0x0880_0000
  const HIGH := 0x0a00_0000
  const U32 := 0x1_0000_0000

  const ESCAPE: byte := 0x7d
  const COMMA: byte := 0x2c
  const STAR: byte := 0x2a

  /** The bytes at LOW..HIGH. */
  type Memory = m: seq<byte> | |m| == HIGH - LOW ghost witness Blank()

  ghost function Blank(): seq<byte> {
    seq(HIGH - LOW, i => 0)
  }

  predicate InWindow(a: int) { LOW <= a < HIGH }

  // ---- codecs ----

  function HexOf(data: seq<byte>): (h: seq<byte>)
    ensures |h| == 2 * |data|
  {
    if data == [] then [] else [HexChar(data[0] / 16), HexChar(data[0] % 16)] + HexOf(data[1..])
  }

  /** XOR with 0x20. */
  function Flip(b: byte): byte {
    if b / 32 % 2 == 1 then b - 32 else b + 32
  }

  /** Exactly the bit of 0x20 changes. */
  lemma FlipTogglesOneBit(b: byte, i: nat)
    ensures Bits.Bit(Flip(b), i) <==> Bits.Bit(b, i) != (i == 5)
  {
    var x: int := b;
    assert x / 32 == x / 2 / 2 / 2 / 2 / 2;
    assert Bits.Bit(x, 5) <==> x / 32 % 2 == 1 by { Fifth(x); }
    assert Bits.PowerOf2(5) == 32;
    if Bits.Bit(x, 5) {
      Fifth(x - 32);
      Bits.SetBit(x - 32, 5, i);
    } else {
      Bits.SetBit(x, 5, i);
    }
  }

  lemma Fifth(x: nat)
    ensures Bits.Bit(x, 5) <==> x / 32 % 2 == 1
  {
    assert x / 32 == x / 2 / 2 / 2 / 2 / 2;
    assert Bits.Bit(x, 5) == Bits.Bit(x / 2 / 2, 3) == Bits.Bit(x / 2 / 2 / 2 / 2, 1);
  }

  /** What a sender of binary data has to escape, and '*', which GDB escapes as well. */
  function EscapeAll(data: seq<byte>): seq<byte> {
    if data == [] then []
    else (if data[0] in {HASH, DOLLAR, ESCAPE, STAR} then [ESCAPE, Flip(data[0])] else [data[0]]) + EscapeAll(data[1..])
  }

  function Encoded(data: seq<byte>, binary: bool): seq<byte> {
    if binary then EscapeAll(data) else HexOf(data)
  }

  /** *(ptr + i); only bytes inside the packet buffer are modelled. */
  function At(ptr: seq<byte>, i: nat): byte {
    if i < |ptr| then ptr[i] else 0
  }

  function Skip(ptr: seq<byte>, i: nat): seq<byte> {
    if i <= |ptr| then ptr[i..] else []
  }

  /** How many hex digits a text starts with. */
  function Digits(s: seq<byte>): (k: nat)
    ensures k <= |s|
  {
    if s == [] || Hex(s[0]) < 0 then 0 else 1 + Digits(s[1..])
  }

  /** Digits shifted into 32 bits one after the other. */
  function Value(d: seq<byte>): (v: int)
    ensures 0 <= v < U32
  {
    if d == [] then 0 else ShiftIn(Value(d[..|d| - 1]), Hex(d[|d| - 1]))
  }

  function ShiftIn(v: int, digit: int): int {
    (v * 16 + digit) % U32
  }

  /** hexToInt: the value, and where the pointer stops. */
  function HexToInt(ptr: seq<byte>): (int, seq<byte>) {
    (Value(ptr[..Digits(ptr)]), ptr[Digits(ptr)..])
  }

  /** One decoded byte, and the pointer after it. */
  function DecodeByte(ptr: seq<byte>, binary: bool): (byte, seq<byte>) {
    if !binary then (JoinHex(At(ptr, 0), At(ptr, 1)), Skip(ptr, 2))
    else if At(ptr, 0) == ESCAPE then (Flip(At(ptr, 1)), Skip(ptr, 2))
    else (At(ptr, 0), Skip(ptr, 1))
  }

  /** `hex(x) << 4 | hex(y)` in an unsigned char. */
  function JoinHex(x: byte, y: byte): byte {
    var h1, h2 := Hex(x), Hex(y);
    if h2 < 0 then 0xff else if h1 < 0 then 0xf0 + h2 else h1 * 16 + h2
  }

  /** hex2mem: stops at the first address that may not be written. */
  function Hex2Mem(ptr: seq<byte>, mem: Memory, addr: nat, count: nat, binary: bool): (bool, Memory)
    decreases count
  {
    if count == 0 then (addr != 0, mem)
    else if !InWindow(addr) then (false, mem)
    else
      var (ch, ptr') := DecodeByte(ptr, binary);
      Hex2Mem(ptr', mem[addr - LOW := ch], addr + 1, count - 1, binary)
  }

  /** mem2hex: the hex text, or failure when an address may not be read. */
  function Mem2Hex(mem: Memory, addr: nat, count: nat): (bool, seq<byte>)
    decreases count
  {
    if count == 0 then (true, [])
    else if !InWindow(addr) then (false, [])
    else
      var ch := mem[addr - LOW];
      var (ok, tail) := Mem2Hex(mem, addr + 1, count - 1);
      (ok, [HexChar(ch / 16), HexChar(ch % 16)] + tail)
  }

  // ---- packets ----

  const OK: seq<byte> := [0x4f, 0x4b]

  function Error(n: int): seq<byte>
    requires 0 <= n < 10
  {
    [0x45, 0x30, 0x30 + n]
  }

  /** A length is handed to the codecs as an int: its upper half is negative and copies nothing. */
  function Count(length: int): nat {
    if 0 <= length < 0x8000_0000 then length else 0
  }

  datatype Header = Malformed | Header(addr: nat, length: int, ptr: seq<byte>)

  /** "addr,length" behind the packet letter. */
  function ParseHeader(b: seq<byte>): Header {
    var ptr := Skip(b, 1);
    var (addr, ptr1) := HexToInt(ptr);
    if ptr1 == ptr || At(ptr1, 0) != COMMA then Malformed
    else
      var ptr2 := Skip(ptr1, 1);
      var (length, ptr3) := HexToInt(ptr2);
      if ptr3 == ptr2 then Malformed else Header(addr, length, ptr3)
  }

  /** M and X: a header, ':' and the data. */
  function WritePacket(b: seq<byte>, mem: Memory, binary: bool): (Memory, seq<byte>) {
    match ParseHeader(b)
    case Malformed => (mem, Error(2))
    case Header(addr, length, ptr) =>
      if At(ptr, 0) != COLON then (mem, Error(2))
      else
        var (ok, mem') := Hex2Mem(Skip(ptr, 1), mem, addr, Count(length), binary);
        (mem', if ok then OK else Error(3))
  }

  /** How many of `count` bytes from addr on can be read. */
  function Reach(addr: nat, count: nat): (n: nat)
    ensures n == if InWindow(addr) then Min(count, HIGH - addr) else 0
    decreases count
  {
    if count == 0 || !InWindow(addr) then 0 else 1 + Reach(addr + 1, count - 1)
  }

  /** What mem2hex writes: two digits a byte, and a NUL unless it meets an unreadable one. */
  function ReplySize(addr: nat, count: nat): nat {
    2 * Reach(addr, count) + if Reach(addr, count) == count then 1 else 0
  }

  /** A reply, or nothing that can be told where mem2hex runs over the end of `output`. */
  datatype Reply = Overrun | Reply(text: seq<byte>)

  /** m. */
  function ReadPacket(b: seq<byte>, mem: Memory): Reply {
    match ParseHeader(b)
    case Malformed => Reply(Error(1))
    case Header(addr, length, _) =>
      if ReplySize(addr, Count(length)) > MAX_BUF then Overrun
      else
        var (ok, text) := Mem2Hex(mem, addr, Count(length));
        Reply(if ok then text else Error(3))
  }

  /** The register file is six stretches of the saved context. */
  datatype Area = Area(addr: nat, len: nat)
  {
    predicate Valid() { LOW <= addr && addr + len <= HIGH }
  }

  /** g. */
  function ReadAreas(mem: Memory, areas: seq<Area>): seq<byte> {
    if areas == [] then []
    else Mem2Hex(mem, areas[0].addr, areas[0].len).1 + ReadAreas(mem, areas[1..])
  }

  /** G. */
  function WriteAreas(ptr: seq<byte>, mem: Memory, areas: seq<Area>): Memory
    decreases |areas|
  {
    if areas == [] then mem
    else WriteAreas(Skip(ptr, 2 * areas[0].len), Hex2Mem(ptr, mem, areas[0].addr, areas[0].len, false).1, areas[1..])
  }

  // ---- numbers ----

  function ToHex(n: nat): (h: seq<byte>)
    ensures |h| > 0
  {
    if n < 16 then [HexChar(n)] else ToHex(n / 16) + [HexChar(n % 16)]
  }

  predicate AllHex(h: seq<byte>) {
    forall i :: 0 <= i < |h| ==> Hex(h[i]) >= 0
  }

  lemma {:induction false} ToHexReadsBack(n: nat)
    requires n < U32
    ensures Value(ToHex(n)) == n && AllHex(ToHex(n))
    decreases n
  {
    var h := ToHex(n);
    if n >= 16 {
      ToHexReadsBack(n / 16);
      assert h[..|h| - 1] == ToHex(n / 16);
    } else {
      assert h[..0] == [];
    }
  }

  lemma {:induction false} DigitsOf(h: seq<byte>, t: seq<byte>)
    requires AllHex(h) && (t == [] || Hex(t[0]) < 0)
    ensures Digits(h + t) == |h|
    decreases |h|
  {
    if h == [] {
      assert h + t == t;
    } else {
      assert (h + t)[1..] == h[1..] + t;
      DigitsOf(h[1..], t);
    }
  }

  lemma ReadsNumber(n: nat, t: seq<byte>)
    requires n < U32 && (t == [] || Hex(t[0]) < 0)
    ensures HexToInt(ToHex(n) + t) == (n, t)
  {
    ToHexReadsBack(n);
    DigitsOf(ToHex(n), t);
    var s := ToHex(n) + t;
    assert s[..|ToHex(n)|] == ToHex(n) && s[|ToHex(n)|..] == t;
  }

  // ---- data ----

  function Stored(mem: Memory, addr: nat, data: seq<byte>): Memory
    requires LOW <= addr && addr + |data| <= HIGH
  {
    mem[..addr - LOW] + data + mem[addr - LOW + |data|..]
  }

  lemma StoredStep(mem: Memory, addr: nat, data: seq<byte>)
    requires data != [] && LOW <= addr && addr + |data| <= HIGH
    ensures Stored(mem[addr - LOW := data[0]], addr + 1, data[1..]) == Stored(mem, addr, data)
  {
  }

  lemma DecodesOne(data: seq<byte>, t: seq<byte>, binary: bool)
    requires data != []
    ensures DecodeByte(Encoded(data, binary) + t, binary) == (data[0], Encoded(data[1..], binary) + t)
  {
    var e, f := Encoded(data, binary), Encoded(data[1..], binary);
    var n := |e| - |f|;
    assert (e + t)[n..] == f + t;
    assert (e + t)[0] == e[0] && (n == 2 ==> (e + t)[1] == e[1]);
  }

  lemma {:induction false} WritesData(mem: Memory, addr: nat, data: seq<byte>, t: seq<byte>, binary: bool)
    requires LOW <= addr && addr + |data| <= HIGH
    ensures Hex2Mem(Encoded(data, binary) + t, mem, addr, |data|, binary) == (true, Stored(mem, addr, data))
    decreases |data|
  {
    if data == [] {
      assert Stored(mem, addr, data) == mem;
    } else {
      DecodesOne(data, t, binary);
      WritesData(mem[addr - LOW := data[0]], addr + 1, data[1..], t, binary);
      StoredStep(mem, addr, data);
    }
  }

  lemma {:induction false} ReadsData(mem: Memory, addr: nat, count: nat)
    requires LOW <= addr && addr + count <= HIGH
    ensures Mem2Hex(mem, addr, count) == (true, HexOf(mem[addr - LOW..addr - LOW + count]))
    decreases count
  {
    if count > 0 {
      ReadsData(mem, addr + 1, count - 1);
      var data := mem[addr - LOW..addr - LOW + count];
      assert data[1..] == mem[addr + 1 - LOW..addr - LOW + count];
    }
  }

  // ---- whole packets ----

  function HeaderText(letter: byte, addr: nat, count: nat, tail: seq<byte>): seq<byte> {
    [letter] + (ToHex(addr) + ([COMMA] + (ToHex(count) + tail)))
  }

  function WriteText(letter: byte, addr: nat, data: seq<byte>, binary: bool): seq<byte> {
    HeaderText(letter, addr, |data|, [COLON] + Encoded(data, binary))
  }

  function ReadText(addr: nat, count: nat): seq<byte> {
    HeaderText(0x6d, addr, count, [])
  }

  lemma ParsesHeader(letter: byte, addr: nat, count: nat, tail: seq<byte>)
    requires addr < U32 && count < U32 && (tail == [] || Hex(tail[0]) < 0)
    ensures ParseHeader(HeaderText(letter, addr, count, tail)) == Header(addr, count, tail)
  {
    var s2 := ToHex(count) + tail;
    var s1 := [COMMA] + s2;
    assert HeaderText(letter, addr, count, tail)[1..] == ToHex(addr) + s1;
    assert s1[1..] == s2;
    ReadsNumber(addr, s1);
    ReadsNumber(count, tail);
  }

  lemma HeaderTail(letter: byte, addr: nat, count: nat, tail: seq<byte>, junk: seq<byte>)
    ensures HeaderText(letter, addr, count, tail) + junk == HeaderText(letter, addr, count, tail + junk)
  {
  }

  lemma {:induction false} EncodedLength(data: seq<byte>, binary: bool)
    ensures |data| <= |Encoded(data, binary)|
  {
    if data != [] {
      EncodedLength(data[1..], binary);
    }
  }

  /** Any buffer that begins with the packet: the data lands at addr, nothing else changes. */
  lemma WritePacketStores(letter: byte, addr: nat, data: seq<byte>, binary: bool, junk: seq<byte>, mem: Memory)
    requires |WriteText(letter, addr, data, binary)| < MAX_BUF
    requires LOW <= addr && addr + |data| <= HIGH
    ensures WritePacket(WriteText(letter, addr, data, binary) + junk, mem, binary) == (Stored(mem, addr, data), OK)
  {
    var e := Encoded(data, binary);
    var tail := [COLON] + (e + junk);
    HeaderTail(letter, addr, |data|, [COLON] + e, junk);
    assert ([COLON] + e) + junk == tail;
    EncodedLength(data, binary);
    ParsesHeader(letter, addr, |data|, tail);
    assert tail[1..] == e + junk;
    WritesData(mem, addr, data, junk, binary);
  }

  /** m of readable memory replies with its hex exactly if that and a NUL fit the buffer. */
  lemma ReadPacketReplies(addr: nat, count: nat, junk: seq<byte>, mem: Memory)
    requires LOW <= addr && addr + count <= HIGH
    ensures ReadPacket(ReadText(addr, count) + ([0] + junk), mem)
         == if 2 * count < MAX_BUF then Reply(HexOf(mem[addr - LOW..addr - LOW + count])) else Overrun
  {
    ParsesRead(addr, count, junk);
    ReadableSize(addr, count);
    ReadsData(mem, addr, count);
  }

  lemma ReadableSize(addr: nat, count: nat)
    requires LOW <= addr && addr + count <= HIGH
    ensures ReplySize(addr, count) == 2 * count + 1
  {
  }

  lemma ParsesRead(addr: nat, count: nat, junk: seq<byte>)
    requires addr < U32 && count < U32
    ensures ParseHeader(ReadText(addr, count) + ([0] + junk)) == Header(addr, count, [0] + junk)
  {
    HeaderTail(0x6d, addr, count, [], [0] + junk);
    assert [] + ([0] + junk) == [0] + junk;
    ParsesHeader(0x6d, addr, count, [0] + junk);
  }

  /** mem2hex runs over the end of its buffer exactly for 1024 readable bytes or more, or,
      where the window ends before the range does, for more than 1024. */
  lemma ReadOverrunsExactly(addr: nat, count: nat, junk: seq<byte>, mem: Memory)
    requires addr < U32 && count < 0x8000_0000
    ensures ReadPacket(ReadText(addr, count) + ([0] + junk), mem).Overrun?
       <==> InWindow(addr) && (if addr + count <= HIGH then count >= 1024 else HIGH - addr > 1024)
  {
    ParsesRead(addr, count, junk);
  }

  lemma {:induction false} EscapeHasNoHash(data: seq<byte>)
    ensures HASH !in EscapeAll(data)
  {
    if data != [] {
      EscapeHasNoHash(data[1..]);
    }
  }

  lemma {:induction false} HexHasNoHash(data: seq<byte>)
    ensures HASH !in HexOf(data)
  {
    if data != [] {
      HexHasNoHash(data[1..]);
      assert Hex(HASH) < 0;
    }
  }

  lemma NumberHasNoMarks(n: nat)
    requires n < U32
    ensures HASH !in ToHex(n) && COLON !in ToHex(n)
  {
    ToHexReadsBack(n);
    assert Hex(HASH) < 0 && Hex(COLON) < 0;
  }

  /** A packet contains no '#', and no ':' where a sequence id would have one. */
  lemma WriteTextFrames(letter: byte, addr: nat, data: seq<byte>, binary: bool)
    requires letter != HASH && addr < U32 && |data| < U32
    ensures var text := WriteText(letter, addr, data, binary);
            HASH !in text && |text| >= 3 && text[2] != COLON
  {
    EscapeHasNoHash(data);
    HexHasNoHash(data);
    NumberHasNoMarks(addr);
    NumberHasNoMarks(|data|);
    ThirdByte(letter, ToHex(addr), ToHex(|data|) + ([COLON] + Encoded(data, binary)));
  }

  lemma ThirdByte(letter: byte, a: seq<byte>, tail: seq<byte>)
    requires |a| > 0 && COLON !in a
    ensures ([letter] + (a + ([COMMA] + tail)))[2] != COLON
  {
    assert (a + ([COMMA] + tail))[1] == if |a| > 1 then a[1] else COMMA;
  }

  /** X end to end: escaped, framed, sent behind any junk, received, decoded and stored;
      M likewise.  The stub acknowledges once, answers OK, and writes exactly `data`. */
  lemma WriteEndToEnd(letter: byte, binary: bool, addr: nat, data: seq<byte>, mem: Memory,
                      junk: seq<byte>, rest: seq<byte>, buffer: seq<byte>)
    requires letter != HASH && |buffer| == MAX_BUF && Junk(junk)
    requires |WriteText(letter, addr, data, binary)| < MAX_BUF
    requires LOW <= addr && addr + |data| <= HIGH
    ensures var o := GetPacket(junk + Frame(WriteText(letter, addr, data, binary)) + rest, buffer);
            && o.ok && o.sent == [PLUS] && o.rest == rest
            && WritePacket(o.buffer, mem, binary) == (Stored(mem, addr, data), OK)
  {
    ArrivesOnce(letter, binary, addr, data, junk, rest, buffer);
    DecodesInBuffer(letter, binary, addr, data, mem, buffer);
  }

  lemma ArrivesOnce(letter: byte, binary: bool, addr: nat, data: seq<byte>,
                    junk: seq<byte>, rest: seq<byte>, buffer: seq<byte>)
    requires letter != HASH && |buffer| == MAX_BUF && Junk(junk)
    requires |WriteText(letter, addr, data, binary)| < MAX_BUF && addr < U32 && |data| < U32
    ensures var text := WriteText(letter, addr, data, binary);
            GetPacket(junk + Frame(text) + rest, buffer) == Outcome(true, Load(buffer, text), [PLUS], rest)
  {
    WriteTextFrames(letter, addr, data, binary);
    GoodFrame(junk, WriteText(letter, addr, data, binary), rest, buffer);
  }

  lemma DecodesInBuffer(letter: byte, binary: bool, addr: nat, data: seq<byte>, mem: Memory, buffer: seq<byte>)
    requires |buffer| == MAX_BUF && |WriteText(letter, addr, data, binary)| < MAX_BUF
    requires LOW <= addr && addr + |data| <= HIGH
    ensures WritePacket(Load(buffer, WriteText(letter, addr, data, binary)), mem, binary) == (Stored(mem, addr, data), OK)
  {
    var text := WriteText(letter, addr, data, binary);
    WritePacketStores(letter, addr, data, binary, [0] + buffer[|text| + 1..], mem);
  }

  /** Write then read back, in either write encoding: the reply is the hex of the data,
      exactly if it fits the reply buffer. */
  lemma WriteThenRead(letter: byte, binary: bool, addr: nat, data: seq<byte>, mem: Memory,
                      junk1: seq<byte>, junk2: seq<byte>)
    requires |WriteText(letter, addr, data, binary)| < MAX_BUF
    requires LOW <= addr && addr + |data| <= HIGH
    ensures var mem' := WritePacket(WriteText(letter, addr, data, binary) + junk1, mem, binary).0;
            ReadPacket(ReadText(addr, |data|) + ([0] + junk2), mem')
            == if 2 * |data| < MAX_BUF then Reply(HexOf(data)) else Overrun
  {
    WritePacketStores(letter, addr, data, binary, junk1, mem);
    ReadPacketReplies(addr, |data|, junk2, Stored(mem, addr, data));
    assert Stored(mem, addr, data)[addr - LOW..addr - LOW + |data|] == data;
  }

  /** What M can write always fits the reply. */
  lemma HexWritesFitReplies(letter: byte, addr: nat, data: seq<byte>)
    requires |WriteText(letter, addr, data, false)| < MAX_BUF
    ensures 2 * |data| < MAX_BUF
  {
  }

  /** X can write more: 1024 zeros go into one packet, and reading them back overruns. */
  lemma BinaryWriteOutgrowsReply(mem: Memory, junk1: seq<byte>, junk2: seq<byte>)
    ensures var data := seq(1024, _ => 0);
            && |WriteText(0x58, LOW, data, true)| < MAX_BUF
            && var mem' := WritePacket(WriteText(0x58, LOW, data, true) + junk1, mem, true).0;
               ReadPacket(ReadText(LOW, |data|) + ([0] + junk2), mem') == Overrun
  {
    var data: seq<byte> := seq(1024, _ => 0);
    PlainEscapes(data);
    ShortNumber(LOW, 8);
    ShortNumber(1024, 8);
    WriteThenRead(0x58, true, LOW, data, mem, junk1, junk2);
  }

  lemma {:induction false} PlainEscapes(data: seq<byte>)
    requires forall i :: 0 <= i < |data| ==> data[i] == 0
    ensures |EscapeAll(data)| == |data|
  {
    if data != [] {
      PlainEscapes(data[1..]);
    }
  }

  lemma {:induction false} ShortNumber(n: nat, digits: nat)
    requires digits > 0 && n < Power16(digits)
    ensures |ToHex(n)| <= digits
    decreases digits
  {
    if n >= 16 {
      ShortNumber(n / 16, digits - 1);
    }
  }

  function Power16(n: nat): nat {
    if n == 0 then 1 else 16 * Power16(n - 1)
  }

  // ---- registers ----

  predicate AreasValid(areas: seq<Area>) {
    areas == [] || (areas[0].Valid() && AreasValid(areas[1..]))
  }

  /** Area a shares no byte with any of `areas`. */
  predicate Apart(a: Area, areas: seq<Area>) {
    areas == [] || ((a.addr + a.len <= areas[0].addr || areas[0].addr + areas[0].len <= a.addr) && Apart(a, areas[1..]))
  }

  predicate AreasDisjoint(areas: seq<Area>) {
    areas == [] || (Apart(areas[0], areas[1..]) && AreasDisjoint(areas[1..]))
  }

  function Total(areas: seq<Area>): nat {
    if areas == [] then 0 else areas[0].len + Total(areas[1..])
  }

  function BytesOf(mem: Memory, a: Area): seq<byte>
    requires a.Valid()
  {
    mem[a.addr - LOW..a.addr - LOW + a.len]
  }

  function AreaBytes(mem: Memory, areas: seq<Area>): (data: seq<byte>)
    requires AreasValid(areas)
    ensures |data| == Total(areas)
  {
    if areas == [] then [] else BytesOf(mem, areas[0]) + AreaBytes(mem, areas[1..])
  }

  lemma {:induction false} HexConcat(d1: seq<byte>, d2: seq<byte>)
    ensures HexOf(d1 + d2) == HexOf(d1) + HexOf(d2)
    decreases |d1|
  {
    if d1 == [] {
      assert d1 + d2 == d2;
    } else {
      assert (d1 + d2)[1..] == d1[1..] + d2;
      HexConcat(d1[1..], d2);
    }
  }

  lemma StoredBytes(mem: Memory, a: Area, data: seq<byte>)
    requires a.Valid() && |data| == a.len
    ensures BytesOf(Stored(mem, a.addr, data), a) == data
    ensures data == BytesOf(mem, a) ==> Stored(mem, a.addr, data) == mem
  {
  }

  lemma StoredKeeps(mem: Memory, a: Area, data: seq<byte>, other: Area)
    requires a.Valid() && |data| == a.len && other.Valid()
    requires other.addr + other.len <= a.addr || a.addr + a.len <= other.addr
    ensures BytesOf(Stored(mem, a.addr, data), other) == BytesOf(mem, other)
  {
  }

  lemma WriteFirstArea(mem: Memory, areas: seq<Area>, d1: seq<byte>, d2: seq<byte>, t: seq<byte>)
    requires areas != [] && AreasValid(areas) && |d1| == areas[0].len
    ensures WriteAreas(HexOf(d1 + d2) + t, mem, areas)
         == WriteAreas(HexOf(d2) + t, Stored(mem, areas[0].addr, d1), areas[1..])
  {
    var left := HexOf(d2) + t;
    HexSplits(d1, d2, t);
    WritesData(mem, areas[0].addr, d1, left, false);
  }

  lemma HexSplits(d1: seq<byte>, d2: seq<byte>, t: seq<byte>)
    ensures HexOf(d1 + d2) + t == HexOf(d1) + (HexOf(d2) + t)
    ensures Skip(HexOf(d1 + d2) + t, 2 * |d1|) == HexOf(d2) + t
  {
    HexConcat(d1, d2);
    assert HexOf(d1 + d2) + t == HexOf(d1) + (HexOf(d2) + t);
  }

  lemma {:induction false} WriteAreasKeeps(mem: Memory, areas: seq<Area>, data: seq<byte>, t: seq<byte>, a: Area)
    requires AreasValid(areas) && |data| == Total(areas) && a.Valid() && Apart(a, areas)
    ensures BytesOf(WriteAreas(HexOf(data) + t, mem, areas), a) == BytesOf(mem, a)
    decreases |areas|
  {
    if areas != [] {
      var d1, d2 := data[..areas[0].len], data[areas[0].len..];
      assert data == d1 + d2;
      WriteFirstArea(mem, areas, d1, d2, t);
      StoredKeeps(mem, areas[0], d1, a);
      WriteAreasKeeps(Stored(mem, areas[0].addr, d1), areas[1..], d2, t, a);
    }
  }

  /** G: the registers hold what was sent. */
  lemma {:induction false} WritesRegisters(mem: Memory, areas: seq<Area>, data: seq<byte>, t: seq<byte>)
    requires AreasValid(areas) && AreasDisjoint(areas) && |data| == Total(areas)
    ensures AreaBytes(WriteAreas(HexOf(data) + t, mem, areas), areas) == data
    decreases |areas|
  {
    if areas != [] {
      var a := areas[0];
      var d1, d2 := data[..a.len], data[a.len..];
      assert data == d1 + d2;
      WriteFirstArea(mem, areas, d1, d2, t);
      var mem1 := Stored(mem, a.addr, d1);
      WritesRegisters(mem1, areas[1..], d2, t);
      WriteAreasKeeps(mem1, areas[1..], d2, t, a);
      StoredBytes(mem, a, d1);
    }
  }

  /** g replies with the hex of the register bytes. */
  lemma {:induction false} ReadsRegisters(mem: Memory, areas: seq<Area>)
    requires AreasValid(areas)
    ensures ReadAreas(mem, areas) == HexOf(AreaBytes(mem, areas))
    decreases |areas|
  {
    if areas != [] {
      ReadsRegisters(mem, areas[1..]);
      ReadsArea(mem, areas[0]);
      HexConcat(BytesOf(mem, areas[0]), AreaBytes(mem, areas[1..]));
    }
  }

  lemma ReadsArea(mem: Memory, a: Area)
    requires a.Valid()
    ensures Mem2Hex(mem, a.addr, a.len).1 == HexOf(BytesOf(mem, a))
  {
    ReadsData(mem, a.addr, a.len);
  }

  /** G then g: the registers read back as they were written. */
  lemma WriteThenReadRegisters(mem: Memory, areas: seq<Area>, data: seq<byte>, t: seq<byte>)
    requires AreasValid(areas) && AreasDisjoint(areas) && |data| == Total(areas)
    ensures ReadAreas(WriteAreas(HexOf(data) + t, mem, areas), areas) == HexOf(data)
  {
    WritesRegisters(mem, areas, data, t);
    ReadsRegisters(WriteAreas(HexOf(data) + t, mem, areas), areas);
  }

  lemma {:induction false} WritingBackKeeps(mem: Memory, areas: seq<Area>, t: seq<byte>)
    requires AreasValid(areas)
    ensures WriteAreas(HexOf(AreaBytes(mem, areas)) + t, mem, areas) == mem
    decreases |areas|
  {
    if areas != [] {
      var d1, d2 := BytesOf(mem, areas[0]), AreaBytes(mem, areas[1..]);
      WriteFirstArea(mem, areas, d1, d2, t);
      StoredBytes(mem, areas[0], d1);
      WritingBackKeeps(mem, areas[1..], t);
    }
  }

  /** g then G: sending the reply back changes nothing. */
  lemma ReadThenWriteRegisters(mem: Memory, areas: seq<Area>, t: seq<byte>)
    requires AreasValid(areas)
    ensures WriteAreas(ReadAreas(mem, areas) + t, mem, areas) == mem
  {
    ReadsRegisters(mem, areas);
    WritingBackKeeps(mem, areas, t);
  }

  // ---- the loops ----

  method HexToIntFrom(b: array<byte>, start: nat) returns (numChars: nat, intValue: int, ptr: nat)
    requires start <= b.Length
    ensures ptr == start + numChars <= b.Length
    ensures (intValue, b[ptr..]) == HexToInt(b[start..]) && numChars == Digits(b[start..])
  {
    numChars, intValue, ptr := 0, 0, start;
    while ptr < b.Length && b[ptr] != 0
      invariant ptr == start + numChars <= b.Length
      invariant Digits(b[start..]) == numChars + Digits(b[ptr..])
      invariant intValue == Value(b[start..ptr])
    {
      var hexValue := Hex(b[ptr]);
      if hexValue < 0 {
        break;
      }
      assert b[ptr..][1..] == b[ptr + 1..];
      assert b[start..ptr + 1][..ptr - start] == b[start..ptr];
      intValue := ShiftIn(intValue, hexValue);
      numChars, ptr := numChars + 1, ptr + 1;
    }
    assert b[start..][..numChars] == b[start..ptr] && b[start..][numChars..] == b[ptr..];
  }

  /** *ptr++, from a buffer that reads as zero past its end. */
  method NextByte(b: array<byte>, ptr: nat) returns (ch: byte, next: nat)
    ensures next == ptr + 1
    ensures ch == At(Skip(b[..], ptr), 0) && Skip(b[..], next) == Skip(Skip(b[..], ptr), 1)
  {
    ch, next := if ptr < b.Length then b[ptr] else 0, ptr + 1;
  }

  lemma SkipSkip(s: seq<byte>)
    ensures Skip(Skip(s, 1), 1) == Skip(s, 2) && At(Skip(s, 1), 0) == At(s, 1)
  {
  }

  method Hex2MemFrom(b: array<byte>, start: nat, mem: array<byte>, addr: nat, count: nat, binary: bool)
    returns (ok: bool)
    requires mem.Length == HIGH - LOW && mem != b
    modifies mem
    ensures (ok, mem[..]) == Hex2Mem(Skip(b[..], start), old(mem[..]), addr, count, binary)
  {
    var i: nat, buf: nat := 0, start;
    ghost var text := b[..];
    ghost var goal := Hex2Mem(Skip(text, start), mem[..], addr, count, binary);
    while i < count
      invariant 0 <= i <= count && b[..] == text
      invariant goal == Hex2Mem(Skip(text, buf), mem[..], addr + i, count - i, binary)
    {
      ghost var ptr := Skip(text, buf);
      SkipSkip(ptr);
      var ch, low;
      ch, buf := NextByte(b, buf);
      if binary {
        if ch == ESCAPE {
          ch, buf := NextByte(b, buf);
          ch := Flip(ch);
        }
      } else {
        low, buf := NextByte(b, buf);
        ch := JoinHex(ch, low);
      }
      assert (ch, Skip(text, buf)) == DecodeByte(ptr, binary);
      if !InWindow(addr + i) {
        return false;
      }
      mem[addr + i - LOW] := ch;
      i := i + 1;
    }
    ok := addr + i != 0;
  }

  /** mem2hex into buf from `start`, with its closing NUL; `end` is where the NUL went.
      `overran` is set, and nothing more is promised, where the code writes past the end
      of the buffer, which it does not check. */
  method Mem2HexTo(mem: array<byte>, addr: nat, count: nat, buf: array<byte>, start: nat)
    returns (ok: bool, end: nat, overran: bool)
    requires mem.Length == HIGH - LOW && mem != buf && start <= buf.Length
    modifies buf
    ensures overran <==> start + ReplySize(addr, count) > buf.Length
    ensures !overran ==> ok == Mem2Hex(mem[..], addr, count).0
    ensures !overran && ok ==>
              && end == start + 2 * count < buf.Length && buf[end] == 0
              && buf[..end] == old(buf[..start]) + Mem2Hex(mem[..], addr, count).1
  {
    var i := 0;
    end, ok, overran := start, false, false;
    ghost var head, bytes := buf[..start], mem[..];
    ghost var goal := Mem2Hex(bytes, addr, count);
    ghost var text: seq<byte> := [];
    while i < count
      invariant 0 <= i <= count && end == start + 2 * i <= buf.Length && mem[..] == bytes
      invariant buf[..end] == head + text
      invariant Reach(addr, count) == i + Reach(addr + i, count - i)
      invariant goal.0 == Mem2Hex(bytes, addr + i, count - i).0
      invariant goal.0 ==> goal.1 == text + Mem2Hex(bytes, addr + i, count - i).1
    {
      if !InWindow(addr + i) {
        return;
      }
      if end + 2 > buf.Length {
        overran := true;
        return;
      }
      var ch := mem[addr + i - LOW];
      end := Append(buf, end, HexChar(ch / 16));
      end := Append(buf, end, HexChar(ch % 16));
      TextGrows(head, text, HexChar(ch / 16), HexChar(ch % 16), Mem2Hex(bytes, addr + i + 1, count - i - 1).1);
      text := text + [HexChar(ch / 16), HexChar(ch % 16)];
      i := i + 1;
    }
    if end == buf.Length {
      overran := true;
      return;
    }
    buf[end] := 0;
    ok := true;
  }

  lemma TextGrows(head: seq<byte>, text: seq<byte>, x: byte, y: byte, tail: seq<byte>)
    ensures (head + text) + [x] + [y] == head + (text + [x, y])
    ensures text + ([x, y] + tail) == (text + [x, y]) + tail
  {
  }
}
