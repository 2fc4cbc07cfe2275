/** A file on the PC: handle_read and handle_write of usbhostfs_pc/main.c serve each
    command through fixed_read and fixed_write, and the operating system may do less than
    it is asked. */
module RemoteFile {
  import opened Sequences
  import opened Bytes
  import opened HostFs
  import opened Usb
  import opened Wire
  import opened Protocol

  // ---- a local file ----

  function Zeros(n: nat): seq<byte> { seq(n, _ => 0) }

  /** The contents after `data` is written at `pos`; a gap reads as zeros. */
  function WriteAt(contents: seq<byte>, pos: nat, data: seq<byte>): seq<byte> {
    if data == [] then contents
    else
      var c := if pos > |contents| then contents + Zeros(pos - |contents|) else contents;
      c[..pos] + data + if pos + |data| < |c| then c[pos + |data|..] else []
  }

  /** How many of `len` bytes a file still has at `pos`. */
  function Available(contents: seq<byte>, pos: nat, len: nat): (n: nat)
    ensures n <= len && (n > 0 ==> pos + n <= |contents|)
  {
    if pos >= |contents| then 0 else Min(len, |contents| - pos)
  }

  /** What a plain read of `len` bytes returns. */
  function ReadAt(contents: seq<byte>, pos: nat, len: nat): (data: seq<byte>)
    ensures |data| == Available(contents, pos, len)
  {
    var n := Available(contents, pos, len);
    if n == 0 then [] else contents[pos..pos + n]
  }

  /** Two writes, the second where the first ended, are one write. */
  lemma WritesJoin(contents: seq<byte>, pos: nat, d1: seq<byte>, d2: seq<byte>)
    ensures WriteAt(WriteAt(contents, pos, d1), pos + |d1|, d2) == WriteAt(contents, pos, d1 + d2)
  {
    var whole := WriteAt(contents, pos, d1 + d2);
    if d1 == [] {
      assert d1 + d2 == d2;
    } else if d2 == [] {
      assert d1 + d2 == d1;
    } else {
      var mid := WriteAt(contents, pos, d1);
      assert mid[..pos + |d1|] == mid[..pos] + d1;
      assert mid[..pos] == whole[..pos];
      assert mid[..pos + |d1|] + d2 == whole[..pos + |d1| + |d2|];
      assert WriteAt(mid, pos + |d1|, d2)[pos + |d1| + |d2|..] == whole[pos + |d1| + |d2|..];
    }
  }

  /** Two reads, the second where the first ended, are one read; a short first read
      means there is nothing more. */
  lemma ReadsJoin(contents: seq<byte>, pos: nat, n1: nat, n2: nat)
    ensures var d1 := ReadAt(contents, pos, n1);
            && ReadAt(contents, pos, n1 + n2) == d1 + ReadAt(contents, pos + |d1|, n1 + n2 - |d1|)
            && (|d1| == n1 ==> ReadAt(contents, pos, n1 + n2) == d1 + ReadAt(contents, pos + n1, n2))
            && (|d1| < n1 ==> ReadAt(contents, pos, n1 + n2) == d1 && ReadAt(contents, pos + |d1|, n2) == [])
  {
  }

  lemma ReadStep(contents: seq<byte>, start: nat, moved: seq<byte>, n: nat)
    requires moved == ReadAt(contents, start, |moved|) && (n > 0 ==> start + |moved| + n <= |contents|)
    ensures var d := ReadAt(contents, start + |moved|, n);
            |d| == n && moved + d == ReadAt(contents, start, |moved| + n)
  {
    ReadsJoin(contents, start, |moved|, n);
  }

  // ---- the operating system ----

  /** What one read or write call decides to do: move at most n bytes (at least one if it
      can), move none, be interrupted by a signal, or fail. */
  datatype Whim = AtMost(n: nat) | Nothing | Interrupted | Failed(errno: int)

  const EINTR := 4

  /** GETERROR, as the int32_t it is stored in. */
  function GetError(errno: int): (e: int)
    requires 0 < errno < 0x1_0000
    ensures -0x8000_0000 <= e < 0
  {
    0x8001_0000 + errno - 0x1_0000_0000
  }

  ghost predicate Healthy(whims: seq<Whim>) {
    forall i :: 0 <= i < |whims| ==> !whims[i].Failed?
  }

  /** No call fails or moves nothing. */
  ghost predicate Willing(whims: seq<Whim>) {
    forall i :: 0 <= i < |whims| ==> !whims[i].Failed? && !whims[i].Nothing?
  }

  ghost predicate Sane(whims: seq<Whim>) {
    forall i :: 0 <= i < |whims| && whims[i].Failed? ==> 0 < whims[i].errno < 0x1_0000 && whims[i].errno != EINTR
  }

  /** What a file had moved, and what was known of its calls to come. */
  datatype Before = Before(moved: seq<byte>, healthy: bool, willing: bool, gaveUp: bool)

  class File {
    var contents: seq<byte>
    var pos: nat
    var whims: seq<Whim>  // for the calls to come; afterwards calls do all they can

    // since Mark: the file and position then, and the bytes moved from there on
    ghost var base: seq<byte>
    ghost var start: nat
    ghost var moved: seq<byte>
    ghost var gaveUp: bool       // a write failed or moved nothing

    constructor (contents: seq<byte>, pos: nat, whims: seq<Whim>)
      ensures this.contents == contents && this.pos == pos && this.whims == whims
    {
      this.contents, this.pos, this.whims := contents, pos, whims;
      base, start, moved, gaveUp := contents, pos, [], false;
    }

    ghost method Mark()
      modifies `base, `start, `moved, `gaveUp
      ensures base == contents && start == pos && moved == [] && !gaveUp
      ensures HasRead() && HasWritten()
    {
      base, start, moved, gaveUp := contents, pos, [], false;
    }

    /** Since Mark, exactly one plain read of the moved bytes has happened. */
    ghost predicate HasRead()
      reads this
    {
      contents == base && pos == start + |moved| && moved == ReadAt(base, start, |moved|)
    }

    /** Since Mark, exactly one plain write of the moved bytes has happened. */
    ghost predicate HasWritten()
      reads this
    {
      contents == WriteAt(base, start, moved) && pos == start + |moved|
    }

    ghost function Now(): Before
      reads this
    {
      Before(moved, Healthy(whims), Willing(whims), gaveUp)
    }

    /** A healthy file stays so, and a willing one gives no write up. */
    ghost predicate Goes(was: Before)
      reads `whims, `gaveUp
    {
      && (was.healthy ==> Healthy(whims)) && (was.gaveUp ==> gaveUp)
      && (was.willing ==> Willing(whims) && gaveUp == was.gaveUp)
    }

    predicate AtEnd()
      reads this
    {
      pos >= |contents|
    }

    method NextWhim(len: nat) returns (w: Whim)
      requires Sane(whims)
      modifies `whims
      ensures Sane(whims) && (old(Healthy(whims)) ==> Healthy(whims) && !w.Failed?)
      ensures old(Willing(whims)) ==> Willing(whims) && !w.Failed? && !w.Nothing?
      ensures |whims| <= |old(whims)| && (w.Interrupted? ==> |whims| < |old(whims)|)
      ensures w.Failed? ==> 0 < w.errno < 0x1_0000 && w.errno != EINTR
    {
      if whims == [] {
        w := AtMost(len);
      } else {
        w := whims[0];
        whims := whims[1..];
      }
    }

    /** read(2): -1 with errno, 0 at the end of the file, or at least one byte. */
    method Read(len: nat) returns (ret: int, data: seq<byte>, errno: int)
      requires len > 0 && Sane(whims) && HasRead()
      modifies `pos, `whims, `moved
      ensures |moved| == |old(moved)| + |data|
      ensures Sane(whims) && (old(Healthy(whims)) ==> Healthy(whims) && (ret >= 0 || errno == EINTR))
      ensures |whims| <= |old(whims)| && (ret < 0 && errno == EINTR ==> |whims| < |old(whims)|)
      ensures ret < 0 && errno != EINTR ==> 0 < errno < 0x1_0000
      ensures HasRead() && moved == old(moved) + data && |data| == (if ret < 0 then 0 else ret) <= len
      ensures ret == 0 ==> AtEnd()
      ensures old(Willing(whims)) ==> Willing(whims)
    {
      data, errno := [], 0;
      var w := NextWhim(len);
      var n := Available(contents, pos, len);
      match w {
        case Interrupted => return -1, [], EINTR;
        case Failed(e) => return -1, [], e;
        case AtMost(k) => if 0 < k < n { n := k; }
        case Nothing =>
      }
      data := Fetch(n);
      ret := n;
    }

    method Fetch(n: nat) returns (data: seq<byte>)
      requires HasRead() && (n > 0 ==> pos + n <= |contents|)
      modifies `pos, `moved
      ensures HasRead() && |data| == n && moved == old(moved) + data
    {
      data := ReadAt(contents, pos, n);
      ReadStep(base, start, moved, n);
      pos := pos + n;
      moved := moved + data;
    }

    /** write(2): -1 with errno, or any number of bytes up to len. */
    method Write(data: seq<byte>) returns (ret: int, errno: int)
      requires data != [] && Sane(whims) && HasWritten()
      modifies `contents, `pos, `whims, `moved, `gaveUp
      ensures gaveUp == (old(gaveUp) || ret == 0 || (ret < 0 && errno != EINTR))
      ensures old(Willing(whims)) ==> Willing(whims) && gaveUp == old(gaveUp)
      ensures Sane(whims) && (old(Healthy(whims)) ==> Healthy(whims) && (ret >= 0 || errno == EINTR))
      ensures |whims| <= |old(whims)| && (ret < 0 && errno == EINTR ==> |whims| < |old(whims)|)
      ensures ret < 0 && errno != EINTR ==> 0 < errno < 0x1_0000
      ensures HasWritten() && ret <= |data| && moved == old(moved) + (if ret < 0 then [] else data[..ret])
    {
      errno := 0;
      var w := NextWhim(|data|);
      var n := |data|;
      match w {
        case Interrupted => return -1, EINTR;
        case Failed(e) =>
          gaveUp := true;
          return -1, e;
        case AtMost(k) => if k < n { n := if k > 0 then k else 1; }
        case Nothing =>
          gaveUp := true;
          n := 0;
      }
      Store(data[..n]);
      ret := n;
    }

    method Store(piece: seq<byte>)
      requires HasWritten()
      modifies `contents, `pos, `moved
      ensures HasWritten() && moved == old(moved) + piece
    {
      WritesJoin(base, start, moved, piece);
      contents := WriteAt(contents, pos, piece);
      pos := pos + |piece|;
      moved := moved + piece;
    }
  }

  // ---- the PC ----

  /** fixed_read: it stops at len bytes, at the end of the file or at a failure. */
  method FixedRead(f: File, len: nat) returns (ret: int, data: seq<byte>)
    requires Sane(f.whims) && f.HasRead()
    modifies f`pos, f`whims, f`moved
    ensures Sane(f.whims) && f.HasRead() && |data| <= len && f.moved == old(f.moved) + data
    ensures ret == |data| || -0x8000_0000 <= ret < 0
    ensures 0 <= ret < len ==> f.AtEnd()
    ensures old(Healthy(f.whims)) ==> Healthy(f.whims) && ret == |data|
    ensures old(Willing(f.whims)) ==> Willing(f.whims)
  {
    var bytesread := 0;
    data := [];
    while bytesread < len
      invariant 0 <= bytesread == |data| <= len
      invariant old(Willing(f.whims)) ==> Willing(f.whims)
      invariant Sane(f.whims) && (old(Healthy(f.whims)) ==> Healthy(f.whims))
      invariant f.HasRead() && f.moved == old(f.moved) + data
      decreases len - bytesread, |f.whims|
    {
      var got, part, errno := f.Read(len - bytesread);
      Assoc(old(f.moved), data, part);
      data := data + part;
      if got < 0 {
        if errno != EINTR {
          return GetError(errno), data;
        }
      } else if got == 0 {
        break;
      } else {
        bytesread := bytesread + got;
      }
    }
    ret := bytesread;
  }

  /** fixed_write: `stored` bytes reach the file, and without a failure the result says so. */
  method FixedWrite(f: File, data: seq<byte>) returns (ret: int, ghost stored: nat)
    requires Sane(f.whims) && f.HasWritten()
    modifies f`contents, f`pos, f`whims, f`moved, f`gaveUp
    ensures Sane(f.whims) && f.HasWritten() && stored <= |data| && f.moved == old(f.moved) + data[..stored]
    ensures ret == stored || -0x8000_0000 <= ret < 0
    ensures old(Healthy(f.whims)) ==> Healthy(f.whims) && ret == stored
    ensures (old(f.gaveUp) ==> f.gaveUp) && (ret < |data| ==> f.gaveUp)
    ensures old(Willing(f.whims)) ==> Willing(f.whims) && f.gaveUp == old(f.gaveUp)
  {
    var byteswrite := 0;
    stored := 0;
    while byteswrite < |data|
      invariant 0 <= byteswrite == stored <= |data|
      invariant Sane(f.whims) && (old(Healthy(f.whims)) ==> Healthy(f.whims))
      invariant f.HasWritten() && f.moved == old(f.moved) + data[..stored]
      invariant (old(f.gaveUp) ==> f.gaveUp) && (old(Willing(f.whims)) ==> Willing(f.whims) && f.gaveUp == old(f.gaveUp))
      decreases |data| - byteswrite, |f.whims|
    {
      var put, errno := f.Write(data[byteswrite..]);
      assert data[..stored] + [] == data[..stored];
      if put < 0 {
        if errno != EINTR {
          return GetError(errno), stored;
        }
      } else if put == 0 {
        break;
      } else {
        Assoc(old(f.moved), data[..stored], data[stored..][..put]);
        assert data[..stored] + data[stored..][..put] == data[..stored + put];
        byteswrite := byteswrite + put;
        stored := stored + put;
      }
    }
    ret := byteswrite;
  }

  /** The length a READ command asks for. */
  function Asked(fields: seq<byte>): int {
    Signed(Word(fields, 4))
  }

  /** What a handler may do with a request on the file: `piece` is what it moved, `atEnd`
      where it left the file.  A healthy file is read up to its end and written as far as
      it takes; a failing read loses the bytes it had already read. */
  ghost predicate Outcome(code: Code, fields: seq<byte>, extra: seq<byte>, isOpen: bool, healthy: bool,
                          res: int, reply: seq<byte>, piece: seq<byte>, atEnd: bool, gaveUp: bool) {
    match code
    case Read =>
      && |reply| == (if res > 0 then res else 0)
      && res <= Asked(fields)
      && (res >= 0 ==> reply == piece)
      && (isOpen && 0 <= res < Asked(fields) ==> atEnd)
      && (isOpen && healthy ==> res >= 0)
      && (!isOpen ==> res == -1 && piece == [])
    case Write =>
      && reply == [] && piece <= extra
      && (res == |piece| || res < 0)
      && (isOpen && healthy ==> res == |piece|)
      && (isOpen && res < |extra| ==> gaveUp)
      && (!isOpen ==> res == -1 && piece == [])
    case _ => false
  }

  /** A READ of 1 to 65536 bytes, or a WRITE of as many. */
  ghost predicate Request(code: Code, fields: seq<byte>, extra: seq<byte>) {
    match code
    case Read => 0 < Asked(fields) <= BLOCK
    case Write => 0 < |extra| <= BLOCK
    case _ => false
  }

  ghost predicate Ready(f: File, code: Code)
    reads f
  {
    Sane(f.whims) && (code.Read? ==> f.HasRead()) && (code.Write? ==> f.HasWritten())
  }

  /** handle_read: the result and the extra data of the response, none unless the read went well. */
  method HandleRead(f: File, isOpen: bool, fields: seq<byte>) returns (res: int, extra: seq<byte>, ghost piece: seq<byte>)
    requires Request(Read, fields, []) && Ready(f, Read)
    modifies f`pos, f`whims, f`moved
    ensures Ready(f, Read) && f.Goes(old(f.Now())) && f.moved == old(f.moved) + piece
    ensures Outcome(Read, fields, [], isOpen, old(Healthy(f.whims)), res, extra, piece, f.AtEnd(), f.gaveUp)
    ensures -0x8000_0000 <= res < 0x8000_0000 && MayAnswer(Read, fields, extra)
  {
    res, extra, piece := -1, [], [];
    if isOpen {
      var data;
      res, data := FixedRead(f, Asked(fields));
      piece := data;
      if res >= 0 {
        extra := data;
      }
    }
  }

  /** handle_write. */
  method HandleWrite(f: File, isOpen: bool, fields: seq<byte>, block: seq<byte>) returns (res: int, ghost piece: seq<byte>)
    requires Request(Write, fields, block) && Ready(f, Write)
    modifies f`contents, f`pos, f`whims, f`moved, f`gaveUp
    ensures Ready(f, Write) && f.Goes(old(f.Now())) && f.moved == old(f.moved) + piece
    ensures Outcome(Write, fields, block, isOpen, old(Healthy(f.whims)), res, [], piece, f.AtEnd(), f.gaveUp)
    ensures -0x8000_0000 <= res < 0x8000_0000 && MayAnswer(Write, fields, [])
  {
    res, piece := -1, [];
    if isOpen {
      ghost var k;
      res, k := FixedWrite(f, block);
      piece := block[..k];
    }
  }

  /** do_hostfs for the two commands. */
  method Handle(f: File, isOpen: bool, code: Code, fields: seq<byte>, extra: seq<byte>)
    returns (res: int, reply: seq<byte>, ghost piece: seq<byte>)
    requires Request(code, fields, extra) && Ready(f, code)
    modifies f`contents, f`pos, f`whims, f`moved, f`gaveUp
    ensures Ready(f, code) && f.Goes(old(f.Now())) && f.moved == old(f.moved) + piece
    ensures Outcome(code, fields, extra, isOpen, old(Healthy(f.whims)), res, reply, piece, f.AtEnd(), f.gaveUp)
    ensures -0x8000_0000 <= res < 0x8000_0000 && |reply| <= BLOCK && MayAnswer(code, fields, reply)
  {
    if code.Read? {
      res, reply, piece := HandleRead(f, isOpen, fields);
    } else {
      reply := [];
      res, piece := HandleWrite(f, isOpen, fields, extra);
    }
  }
}
