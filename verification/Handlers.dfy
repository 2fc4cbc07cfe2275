/** The handlers of usbhostfs_pc/main.c other than those of READ and WRITE, as far as the
    wire sees them: the response each one writes, and the extra data behind it. */
module Handlers {
  import opened Options
  import opened Bytes
  import opened HostFs
  import opened Usb
  import opened Wire
  import opened Protocol

  // ---- directories ----

  /** An entry of open_dirs; `entries` are SceIoDirent structures. */
  datatype Directory = Directory(isOpen: bool, entries: seq<seq<byte>>, pos: nat)
  {
    ghost predicate Valid() {
      |entries| < 0x8000_0000 && pos <= |entries| && forall i :: 0 <= i < |entries| ==> |entries[i]| == DIRENT_SIZE
    }
  }

  const MAX_FILES := 256

  /** handle_dread: the next entry and how many were left, 0 at the end, -1 for a descriptor
      that is not an open directory. */
  method HandleDread(openDirs: array<Directory>, did: int) returns (res: int, extra: seq<byte>)
    requires openDirs.Length == MAX_FILES && forall i :: 0 <= i < MAX_FILES ==> openDirs[i].Valid()
    modifies openDirs
    ensures forall i :: 0 <= i < MAX_FILES ==> openDirs[i].Valid()
    ensures forall i :: 0 <= i < MAX_FILES && i != did ==> openDirs[i] == old(openDirs[i])
    ensures (res, extra) == if 0 <= did < MAX_FILES then Dread(old(openDirs[did])).0 else (-1, [])
    ensures 0 <= did < MAX_FILES ==> openDirs[did] == Dread(old(openDirs[did])).1
    ensures |extra| in {0, DIRENT_SIZE} && -1 <= res < 0x8000_0000
  {
    res, extra := -1, [];
    if 0 <= did < MAX_FILES && openDirs[did].isOpen {
      var d := openDirs[did];
      if d.pos < |d.entries| {
        extra := d.entries[d.pos];
        openDirs[did] := d.(pos := d.pos + 1);
        res := |d.entries| - openDirs[did].pos + 1;
      } else {
        res := 0;
      }
    }
  }

  function Dread(d: Directory): ((int, seq<byte>), Directory) {
    if !d.isOpen then ((-1, []), d)
    else if d.pos < |d.entries| then ((|d.entries| - d.pos, d.entries[d.pos]), d.(pos := d.pos + 1))
    else ((0, []), d)
  }

  /** What a caller collects that reads until the result is not positive. */
  function Listing(d: Directory): seq<seq<byte>>
    decreases |d.entries| - d.pos
  {
    var ((res, extra), d') := Dread(d);
    if res <= 0 then [] else [extra] + Listing(d')
  }

  /** Reading until 0 lists every entry from the position on, once and in order. */
  lemma {:induction false} ListsEveryEntry(d: Directory)
    requires d.isOpen && d.pos <= |d.entries|
    ensures Listing(d) == d.entries[d.pos..]
    decreases |d.entries| - d.pos
  {
    if d.pos < |d.entries| {
      ListsEveryEntry(d.(pos := d.pos + 1));
      assert d.entries[d.pos..] == [d.entries[d.pos]] + d.entries[d.pos + 1..];
    }
  }

  /** The result counts the entries that are still to come, this one among them. */
  lemma CountsWhatIsLeft(d: Directory)
    requires d.isOpen && d.pos <= |d.entries|
    ensures Dread(d).0.0 == |Listing(d)| && (Listing(d) != [] ==> Dread(d).0.1 == Listing(d)[0])
  {
    ListsEveryEntry(d);
  }

  // ---- all of them ----

  /** What the system calls of a handler came to: its result (negative for a descriptor that
      is not open), the position lseek gave, the stat block, and the drive's information. */
  datatype Host = Host(res: int, ofs: int, stat: seq<byte>, info: seq<byte>)
  {
    predicate Valid() {
      -0x8000_0000 <= res < 0x8000_0000 && |stat| == STAT_SIZE && |info| == INFO_SIZE
    }
  }

  /** Two's complement in 64 bits, low word first. */
  function Le64(v: int): (s: seq<byte>)
    ensures |s| == 8
  {
    var u := v % 0x1_0000_0000_0000_0000;
    Le32(u % 0x1_0000_0000) + Le32(u / 0x1_0000_0000)
  }

  /** The result the caller on the device is to see. */
  function ResultFor(code: Code, fields: seq<byte>, host: Host, dirs: seq<Directory>): int
    requires |fields| == FieldSize(code) && |dirs| == MAX_FILES
  {
    match code
    case Lseek => if host.res < 0 || host.ofs < 0 then -1 else 0
    case Dread => var did := Signed(Word(fields, 0)); if 0 <= did < MAX_FILES then Dread(dirs[did]).0.0 else -1
    case Ioctl => -1
    case Devctl => if Word(fields, 0) == GET_INFO then host.res else -1
    case _ => host.res
  }

  /** The bytes behind the common header of a response, and the extra data, for every
      handler but those of READ and WRITE. */
  method Answer(code: Code, fields: seq<byte>, host: Host, openDirs: array<Directory>) returns (result: seq<byte>, extra: seq<byte>)
    requires !code.Read? && !code.Write? && |fields| == FieldSize(code) && host.Valid()
    requires openDirs.Length == MAX_FILES && forall i :: 0 <= i < MAX_FILES ==> openDirs[i].Valid()
    modifies openDirs
    ensures forall i :: 0 <= i < MAX_FILES ==> openDirs[i].Valid()
    ensures |result| == ResponseSize(code) - 12 && |extra| <= BLOCK && MayAnswer(code, fields, extra)
    ensures code.Getstat? ==> (extra != [] <==> host.res == 0)
    ensures code.Devctl? ==> (extra != [] <==> Word(fields, 0) == GET_INFO && host.res == 0)
    ensures extra in {[], host.stat, host.info} || code.Dread?
    ensures code.Getstat? && host.res == 0 ==> extra == host.stat
    ensures code.Devctl? && extra != [] ==> extra == host.info
    ensures !code.Hello? ==> Signed(LoadLe32(result, 0)) == ResultFor(code, fields, host, old(openDirs[..]))
    ensures code.Lseek? && host.res >= 0 ==> OffsetOf(result) == host.ofs % 0x1_0000_0000_0000_0000
    ensures code.Dread? && 0 <= Signed(Word(fields, 0)) < MAX_FILES ==> extra == Dread(old(openDirs[Signed(Word(fields, 0))])).0.1
    ensures !code.Dread? ==> openDirs[..] == old(openDirs[..])
  {
    extra := [];
    if code.Hello? {
      return [], [];
    }
    var res, ofs := host.res, [];
    if code.Lseek? {
      res, ofs := if host.res < 0 || host.ofs < 0 then -1 else 0, Le64(if host.res < 0 then 0 else host.ofs);
      OffsetReads(Le32(Unsigned(res)), host.ofs);
    } else if code.Dread? {
      res, extra := HandleDread(openDirs, Signed(Word(fields, 0)));
    } else if code.Ioctl? || (code.Devctl? && Word(fields, 0) != GET_INFO) {
      res := -1;
    } else if host.res == 0 && code.Getstat? {
      extra := host.stat;
    } else if host.res == 0 && code.Devctl? {
      extra := host.info;
    }
    result := Le32(Unsigned(res)) + ofs;
    ResultReads(res, ofs);
  }

  lemma ResultReads(res: int, ofs: seq<byte>)
    requires -0x8000_0000 <= res < 0x8000_0000
    ensures Signed(LoadLe32(Le32(Unsigned(res)) + ofs, 0)) == res
  {
    LoadStored([], Unsigned(res), ofs);
    assert [] + Le32(Unsigned(res)) + ofs == Le32(Unsigned(res)) + ofs;
  }

  /** The offset at a result's end, as the device puts it together. */
  function OffsetOf(result: seq<byte>): nat
    requires |result| == 12
  {
    LoadLe32(result, 4) + 0x1_0000_0000 * LoadLe32(result, 8)
  }

  lemma OffsetReads(head: seq<byte>, ofs: int)
    requires |head| == 4
    ensures OffsetOf(head + Le64(ofs)) == ofs % 0x1_0000_0000_0000_0000
  {
    var u := ofs % 0x1_0000_0000_0000_0000;
    var low, high := Le32(u % 0x1_0000_0000), Le32(u / 0x1_0000_0000);
    LoadStored(head, u % 0x1_0000_0000, high);
    LoadStored(head + low, u / 0x1_0000_0000, []);
    assert head + low + high == head + Le64(ofs) == head + low + high + [];
  }
}
