/** The HostFS wire protocol: several PSP threads share the pipe to the PC under
    g_mainsema (usbhostfs/main.c), and the PC's loop tells frames apart by their first
    word and trusts every handler to consume exactly its own payload
    (usbhostfs_pc/main.c).  Each transfer, semaphore operation and handler reply is one
    step; a run is any interleaving. */
module Wire {
  import opened Options
  import opened Bytes
  import opened HostFs
  import opened Usb

  const HEAD_READ := 512           // the read size of start_hostfs
  const INFO_SIZE := 20            // struct DevctlGetInfo
  const STAT_SIZE := 88            // SceIoStat
  const DIRENT_SIZE := 352         // SceIoDirent

  // ---- the commands ----

  /** The commands host_driver.c and send_hello_cmd issue, in the order of their codes. */
  datatype Code = Hello | Open | Close | Read | Write | Lseek | Remove | Mkdir | Rmdir | Dopen | Dread | Dclose
                | Getstat | Chstat | Rename | Chdir | Ioctl | Devctl

  function Number(c: Code): (n: int)
    ensures 0x8FFC_0000 <= n <= 0x8FFC_0012
  {
    match c
    case Hello => 0x8FFC_0000
    case Open => 0x8FFC_0002
    case Close => 0x8FFC_0003
    case Read => 0x8FFC_0004
    case Write => 0x8FFC_0005
    case Lseek => 0x8FFC_0006
    case Remove => 0x8FFC_0007
    case Mkdir => 0x8FFC_0008
    case Rmdir => 0x8FFC_0009
    case Dopen => 0x8FFC_000A
    case Dread => 0x8FFC_000B
    case Dclose => 0x8FFC_000C
    case Getstat => 0x8FFC_000D
    case Chstat => 0x8FFC_000E
    case Rename => 0x8FFC_000F
    case Chdir => 0x8FFC_0010
    case Ioctl => 0x8FFC_0011
    case Devctl => 0x8FFC_0012
  }


  /** do_hostfs's switch. */
  function Decode(n: int): (c: Option<Code>)
    ensures c.Some? ==> Number(c.value) == n
  {
    if n == 0x8FFC_0000 then Some(Hello)
    else if n == 0x8FFC_0002 then Some(Open)
    else if n == 0x8FFC_0003 then Some(Close)
    else if n == 0x8FFC_0004 then Some(Read)
    else if n == 0x8FFC_0005 then Some(Write)
    else if n == 0x8FFC_0006 then Some(Lseek)
    else if n == 0x8FFC_0007 then Some(Remove)
    else if n == 0x8FFC_0008 then Some(Mkdir)
    else if n == 0x8FFC_0009 then Some(Rmdir)
    else if n == 0x8FFC_000A then Some(Dopen)
    else if n == 0x8FFC_000B then Some(Dread)
    else if n == 0x8FFC_000C then Some(Dclose)
    else if n == 0x8FFC_000D then Some(Getstat)
    else if n == 0x8FFC_000E then Some(Chstat)
    else if n == 0x8FFC_000F then Some(Rename)
    else if n == 0x8FFC_0010 then Some(Chdir)
    else if n == 0x8FFC_0011 then Some(Ioctl)
    else if n == 0x8FFC_0012 then Some(Devctl)
    else None
  }

  lemma DecodeNumber(c: Code)
    ensures Decode(Number(c)) == Some(c)
  {
  }

  /** Bytes of a command structure behind the common 12: struct HostFs...Cmd. */
  function FieldSize(c: Code): nat {
    match c
    case Hello => 0
    case Open => 12
    case Lseek => 16
    case Read => 8
    case Mkdir => 8
    case Chstat => 44
    case Ioctl => 12
    case Devctl => 12
    case _ => 4
  }

  function CommandSize(c: Code): nat { 12 + FieldSize(c) }

  function ResponseSize(c: Code): nat {
    match c
    case Hello => 12
    case Lseek => 24
    case _ => 16
  }

  /** Handlers that always read extra data, and refuse a command without it. */
  predicate NeedsExtra(c: Code) {
    c in {Open, Write, Remove, Mkdir, Rmdir, Dopen, Getstat, Chstat, Rename, Chdir}
  }

  /** Handlers that read extra data when extralen is positive. */
  predicate MayHaveExtra(c: Code) { c in {Ioctl, Devctl} }

  function Signed(x: int): int
    requires 0 <= x < 0x1_0000_0000
  {
    if x < 0x8000_0000 then x else x - 0x1_0000_0000
  }

  function Unsigned(x: int): (u: int)
    requires -0x8000_0000 <= x < 0x8000_0000
    ensures 0 <= u < 0x1_0000_0000 && Signed(u) == x
  {
    if x < 0 then x + 0x1_0000_0000 else x
  }

  // ---- what a thread sends ----

  datatype Op =
    | Command(code: Code, extralen: int, fields: seq<byte>, extra: seq<byte>, inlen: int)  // command_xchg
    | Async(chan: int, payload: seq<byte>)                                                 // send_async
    | Bulk(data: seq<byte>)                                                                // usbWriteBulkData
  {
    /** What the callers in host_driver.c and main.c build, with names and control
        blocks that fit the PC's static buffers. */
    predicate Valid() {
      match this
      case Async(chan, payload) => 0 <= chan < 0x1_0000_0000 && 0 < |payload| <= HEAD_READ - 8
      case Bulk(data) => 0 < |data| <= BULK_MAX
      case Command(code, extralen, fields, extra, inlen) =>
        && |fields| == FieldSize(code)
        && -0x8000_0000 <= extralen < 0x8000_0000
        && |extra| == (if extralen > 0 then extralen else 0)
        && (NeedsExtra(code) ==> 0 < extralen <= if code.Write? then BLOCK else HOSTFS_PATHMAX)
        && (MayHaveExtra(code) ==> extralen <= BLOCK)
        && (!NeedsExtra(code) && !MayHaveExtra(code) ==> extralen == 0)
        && (match code
            case Read => 0 < inlen <= BLOCK && LoadLe32(fields, 4) == inlen
            case Dread => inlen == DIRENT_SIZE
            case Getstat => inlen == STAT_SIZE
            case Ioctl => true
            case Devctl => LoadLe32(fields, 0) == GET_INFO ==> inlen == INFO_SIZE
            case _ => inlen == 0)
    }

    function Head(): (t: Transfer)
      requires Valid()
      ensures 8 <= |t| <= HEAD_READ
    {
      match this
      case Command(code, extralen, fields, _, _) => Le32(HOSTFS_MAGIC) + Le32(Number(code)) + Le32(Unsigned(extralen)) + fields
      case Async(chan, payload) => Le32(ASYNC_MAGIC) + Le32(chan) + payload
      case Bulk(data) => Le32(BULK_MAGIC) + Le32(|data|)
    }

    function Body(): seq<byte> {
      match this
      case Command(_, _, _, extra, _) => extra
      case Async(_, _) => []
      case Bulk(data) => data
    }

    /** The transfers of the frame, in order. */
    function Frame(): seq<Transfer>
      requires Valid()
    {
      [Head()] + Chunks(Body())
    }
  }

  function Word(t: Transfer, i: nat): int
  {
    if i + 4 <= |t| then LoadLe32(t, i) else 0
  }

  lemma HeadWords(op: Op)
    requires op.Valid()
    ensures op.Command? ==> Word(op.Head(), 0) == HOSTFS_MAGIC && Word(op.Head(), 4) == Number(op.code)
                            && Word(op.Head(), 8) == Unsigned(op.extralen)
                            && op.Head()[12..] == op.fields && |op.Head()| == CommandSize(op.code)
    ensures op.Async? ==> Word(op.Head(), 0) == ASYNC_MAGIC && Word(op.Head(), 4) == op.chan && op.Head()[8..] == op.payload
    ensures op.Bulk? ==> Word(op.Head(), 0) == BULK_MAGIC && Word(op.Head(), 4) == |op.data|
  {
    match op
    case Command(code, extralen, fields, _, _) => CommandWords(code, extralen, fields, op.extra, op.inlen);
    case Async(chan, payload) =>
      var front := Le32(ASYNC_MAGIC);
      LoadStored([], ASYNC_MAGIC, Le32(chan) + payload);
      assert [] + front + (Le32(chan) + payload) == op.Head();
      LoadStored(front, chan, payload);
    case Bulk(data) =>
      var front := Le32(BULK_MAGIC);
      LoadStored([], BULK_MAGIC, Le32(|data|));
      assert [] + front + Le32(|data|) == op.Head();
      LoadStored(front, |data|, []);
      assert front + Le32(|data|) + [] == op.Head();
  }

  lemma CommandWords(code: Code, extralen: int, fields: seq<byte>, extra: seq<byte>, inlen: int)
    requires Command(code, extralen, fields, extra, inlen).Valid()
    ensures var head := Command(code, extralen, fields, extra, inlen).Head();
            && Word(head, 0) == HOSTFS_MAGIC && Word(head, 4) == Number(code) && Word(head, 8) == Unsigned(extralen)
            && head[12..] == fields && |head| == CommandSize(code)
  {
    var m, n, x := Le32(HOSTFS_MAGIC), Le32(Number(code)), Le32(Unsigned(extralen));
    var head := m + n + x + fields;
    LoadStored([], HOSTFS_MAGIC, n + x + fields);
    assert [] + m + (n + x + fields) == head;
    LoadStored(m, Number(code), x + fields);
    assert m + n + (x + fields) == head;
    LoadStored(m + n, Unsigned(extralen), fields);
  }

  /** Every header is met by exactly one 512-byte read on a high-speed link. */
  lemma HeadFits(op: Op)
    requires op.Valid()
    ensures Fits(|op.Head()|, HEAD_READ, HIGH_SPEED)
  {
    HeadWords(op);
  }

  /** On a full-speed link (64-byte packets) that fails for exactly the async packets
      that fill their packets without filling the read. */
  lemma FullSpeedHeadsExactly(op: Op)
    requires op.Valid()
    ensures Fits(|op.Head()|, HEAD_READ, FULL_SPEED) <==>
            !(op.Async? && (|op.payload| + 8) % FULL_SPEED == 0 && |op.payload| < HEAD_READ - 8)
  {
    HeadWords(op);
  }
}
