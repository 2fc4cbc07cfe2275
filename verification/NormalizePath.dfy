/** normalize_path of psplink/util.c: "." and ".." removed from a device path, in place
    on the C string.

    The specification splits the path at its slashes and reduces the segments on a
    stack; the method moves pointers and closes gaps with strcpy. */
module NormalizePath {
  import opened Sequences
  import opened CStrings

  // ---- the stack specification ----

  /** One slash-terminated segment: dropped if empty or ".", popping if "..", else kept. */
  function Push(stack: seq<string>, seg: string): seq<string> {
    if seg == "" || seg == "." then stack
    else if seg == ".." then (if stack == [] then [] else stack[..|stack| - 1])
    else stack + [seg]
  }

  function Reduce(stack: seq<string>, segs: seq<string>): seq<string>
    decreases |segs|
  {
    if segs == [] then stack else Reduce(Push(stack, segs[0]), segs[1..])
  }

  /** The slash-terminated segments of a text. */
  function Segments(s: string): seq<string>
    decreases |s|
  {
    var k := IndexOf(s, SLASH);
    if k == |s| then [] else [s[..k]] + Segments(s[k + 1..])
  }

  /** What follows the last slash. */
  function Tail(s: string): string
    decreases |s|
  {
    var k := IndexOf(s, SLASH);
    if k == |s| then s else Tail(s[k + 1..])
  }

  /** The segments, each with its slash in front of it. */
  function Build(first: string, stack: seq<string>): string {
    if stack == [] then first else Build(first, stack[..|stack| - 1]) + ("/" + stack[|stack| - 1])
  }

  /** The first segment (the device) and the text behind the last slash stay; between
      them stand the segments left on the stack. */
  function Normal(path: string): string {
    var k := IndexOf(path, SLASH);
    if k == |path| then path
    else
      var rest := path[k + 1..];
      Build(path[..k], Reduce([], Segments(rest))) + ("/" + Tail(rest))
  }

  // ---- it is idempotent ----

  predicate Plain(seg: string) {
    SLASH !in seg && seg != "" && seg != "." && seg != ".."
  }

  predicate AllPlain(stack: seq<string>) {
    stack == [] || (Plain(stack[|stack| - 1]) && AllPlain(stack[..|stack| - 1]))
  }

  lemma {:induction false} ReducePlain(stack: seq<string>, s: string)
    requires AllPlain(stack)
    ensures AllPlain(Reduce(stack, Segments(s)))
    decreases |s|
  {
    var k := IndexOf(s, SLASH);
    if k < |s| {
      var stack' := Push(stack, s[..k]);
      assert stack' == stack + [s[..k]] ==> stack'[..|stack'| - 1] == stack;
      assert Segments(s)[1..] == Segments(s[k + 1..]);
      ReducePlain(stack', s[k + 1..]);
    }
  }

  /** Plain segments, front to back, in front of a slash-free end. */
  function Line(stack: seq<string>, end: string): string
    decreases |stack|
  {
    if stack == [] then end else Line(stack[..|stack| - 1], stack[|stack| - 1] + ("/" + end))
  }

  lemma {:induction false} BuildIsLine(first: string, stack: seq<string>, end: string)
    ensures Build(first, stack) + ("/" + end) == first + ("/" + Line(stack, end))
    decreases |stack|
  {
    if stack != [] {
      var top, below := stack[|stack| - 1], stack[..|stack| - 1];
      BuildIsLine(first, below, top + ("/" + end));
      assert Build(first, stack) + ("/" + end) == Build(first, below) + ("/" + (top + ("/" + end)));
    }
  }

  lemma SplitOne(seg: string, s: string)
    requires SLASH !in seg
    ensures IndexOf(seg + ("/" + s), SLASH) == |seg|
    ensures Segments(seg + ("/" + s)) == [seg] + Segments(s) && Tail(seg + ("/" + s)) == Tail(s)
  {
    var t := seg + ("/" + s);
    FirstSlash(seg, s);
    assert t[..|seg|] == seg && t[|seg| + 1..] == s;
  }

  lemma {:induction false} FirstSlash(seg: string, s: string)
    requires SLASH !in seg
    ensures IndexOf(seg + ("/" + s), SLASH) == |seg|
    decreases |seg|
  {
    if seg != "" {
      assert (seg + ("/" + s))[1..] == seg[1..] + ("/" + s);
      FirstSlash(seg[1..], s);
    }
  }

  lemma {:induction false} SplitLine(stack: seq<string>, end: string)
    requires AllPlain(stack)
    ensures Segments(Line(stack, end)) == stack + Segments(end) && Tail(Line(stack, end)) == Tail(end)
    decreases |stack|
  {
    if stack != [] {
      var top, below := stack[|stack| - 1], stack[..|stack| - 1];
      SplitLine(below, top + ("/" + end));
      SplitOne(top, end);
      assert below + ([top] + Segments(end)) == stack + Segments(end);
    }
  }

  lemma {:induction false} TailIsSlashFree(s: string)
    ensures Segments(Tail(s)) == [] && Tail(Tail(s)) == Tail(s)
    decreases |s|
  {
    var k := IndexOf(s, SLASH);
    if k < |s| {
      assert Tail(s) == Tail(s[k + 1..]);
      TailIsSlashFree(s[k + 1..]);
    }
  }

  lemma {:induction false} ReduceKeepsPlain(stack: seq<string>, segs: seq<string>, k: nat)
    requires segs == stack && k <= |segs| && AllPlainFrom(segs, k)
    ensures Reduce(stack[..k], segs[k..]) == stack
    decreases |segs| - k
  {
    if k < |segs| {
      assert segs[k..][1..] == segs[k + 1..];
      assert stack[..k] + [segs[k]] == stack[..k + 1];
      ReduceKeepsPlain(stack, segs, k + 1);
    } else {
      assert stack[..k] == stack && segs[k..] == [];
    }
  }

  predicate AllPlainFrom(segs: seq<string>, k: nat)
    decreases |segs| - k
  {
    k >= |segs| || (Plain(segs[k]) && AllPlainFrom(segs, k + 1))
  }

  lemma {:induction false} PlainEitherWay(stack: seq<string>, k: nat)
    requires AllPlain(stack) && k <= |stack|
    ensures AllPlainFrom(stack, k)
    decreases |stack| - k
  {
    if k < |stack| {
      PlainAt(stack, k);
      PlainEitherWay(stack, k + 1);
    }
  }

  lemma {:induction false} PlainAt(stack: seq<string>, k: nat)
    requires AllPlain(stack) && k < |stack|
    ensures Plain(stack[k])
    decreases |stack|
  {
    if k < |stack| - 1 {
      PlainAt(stack[..|stack| - 1], k);
    }
  }

  lemma NormalOf(first: string, rest: string)
    requires SLASH !in first
    ensures Normal(first + ("/" + rest)) == Build(first, Reduce([], Segments(rest))) + ("/" + Tail(rest))
  {
    FirstSlash(first, rest);
    AtSlash(first, rest);
  }

  lemma AtSlash(first: string, rest: string)
    ensures var path := first + ("/" + rest); path[..|first|] == first && path[|first| + 1..] == rest
  {
  }

  lemma ReducedIsReduced(stack: seq<string>, end: string)
    requires AllPlain(stack) && Segments(end) == [] && Tail(end) == end
    ensures Reduce([], Segments(Line(stack, end))) == stack && Tail(Line(stack, end)) == end
  {
    SplitLine(stack, end);
    PlainEitherWay(stack, 0);
    ReduceKeepsPlain(stack, stack, 0);
    assert stack + [] == stack && stack[..0] == [] && stack[0..] == stack;
  }

  /** Normalising twice changes nothing more. */
  lemma NormalIsIdempotent(path: string)
    ensures Normal(Normal(path)) == Normal(path)
  {
    var k := IndexOf(path, SLASH);
    if k < |path| {
      CutAtSlash(path);
      NormalBelowDevice(path[..k], path[k + 1..]);
    }
  }

  lemma NormalBelowDevice(first: string, rest: string)
    requires SLASH !in first
    ensures var n := Normal(first + ("/" + rest)); Normal(n) == n
  {
    var stack, end := Reduce([], Segments(rest)), Tail(rest);
    NormalOf(first, rest);
    ReducePlain([], rest);
    TailIsSlashFree(rest);
    BuildIsLine(first, stack, end);
    NormalOf(first, Line(stack, end));
    ReducedIsReduced(stack, end);
  }

  // ---- what it removes ----

  lemma {:induction false} ReduceInTwo(stack: seq<string>, ts: seq<string>, us: seq<string>)
    ensures Reduce(stack, ts + us) == Reduce(Reduce(stack, ts), us)
    decreases |ts|
  {
    if ts == [] {
      assert ts + us == us;
    } else {
      assert (ts + us)[1..] == ts[1..] + us;
      ReduceInTwo(Push(stack, ts[0]), ts[1..], us);
    }
  }

  lemma {:induction false} SegmentsInTwo(s: string, t: string)
    requires Tail(s) == ""
    ensures Segments(s + t) == Segments(s) + Segments(t) && Tail(s + t) == Tail(t)
    decreases |s|
  {
    var k := IndexOf(s, SLASH);
    if k < |s| {
      var name, more := s[..k], s[k + 1..];
      CutInFront(s, t);
      SplitOne(name, more + t);
      SegmentsInTwo(more, t);
      Assoc([name], Segments(more), Segments(t));
    } else {
      assert s + t == t;
    }
  }

  lemma CutInFront(s: string, t: string)
    requires IndexOf(s, SLASH) < |s|
    ensures var k := IndexOf(s, SLASH); SLASH !in s[..k] && s + t == s[..k] + ("/" + (s[k + 1..] + t))
  {
    var k := IndexOf(s, SLASH);
    CutAtSlash(s);
    Assoc(s[..k], "/" + s[k + 1..], t);
    Assoc("/", s[k + 1..], t);
  }

  lemma NormalBehind(first: string, front: string, rest: string)
    requires SLASH !in first && Tail(front) == ""
    ensures Normal(first + ("/" + (front + rest)))
         == Build(first, Reduce(Reduce([], Segments(front)), Segments(rest))) + ("/" + Tail(rest))
  {
    NormalOf(first, front + rest);
    SegmentsInTwo(front, rest);
    ReduceInTwo([], Segments(front), Segments(rest));
  }

  /** Behind any front of whole segments, "name/../" comes to nothing. */
  lemma DotDotCancels(first: string, front: string, name: string, rest: string)
    requires SLASH !in first && Tail(front) == "" && Plain(name)
    ensures Normal(first + ("/" + (front + (name + ("/" + (".." + ("/" + rest)))))))
         == Normal(first + ("/" + (front + rest)))
  {
    var up := ".." + ("/" + rest);
    var stack, segs := Reduce([], Segments(front)), Segments(rest);
    NormalBehind(first, front, name + ("/" + up));
    NormalBehind(first, front, rest);
    SplitOne(name, up);
    SplitOne("..", rest);
    assert ([name] + ([".."] + segs))[1..] == [".."] + segs && ([".."] + segs)[1..] == segs;
    assert Push(Push(stack, name), "..") == stack;
  }

  /** So does "../" right behind the device. */
  lemma DotDotAtDevice(first: string, rest: string)
    requires SLASH !in first
    ensures Normal(first + ("/" + (".." + ("/" + rest)))) == Normal(first + ("/" + rest))
  {
    NormalOf(first, ".." + ("/" + rest));
    NormalOf(first, rest);
    SplitOne("..", rest);
    assert ([".."] + Segments(rest))[1..] == Segments(rest);
  }

  /** And "./" or a second slash anywhere. */
  lemma DotGoes(first: string, front: string, dot: string, rest: string)
    requires SLASH !in first && Tail(front) == "" && dot in {"", "."}
    ensures Normal(first + ("/" + (front + (dot + ("/" + rest))))) == Normal(first + ("/" + (front + rest)))
  {
    NormalBehind(first, front, dot + ("/" + rest));
    NormalBehind(first, front, rest);
    SplitOne(dot, rest);
    assert ([dot] + Segments(rest))[1..] == Segments(rest);
  }

  /** A path without such segments stays as it is. */
  lemma PlainPathStays(first: string, stack: seq<string>, end: string)
    requires SLASH !in first && AllPlain(stack) && SLASH !in end
    ensures Normal(first + ("/" + Line(stack, end))) == first + ("/" + Line(stack, end))
  {
    assert IndexOf(end, SLASH) == |end|;
    NormalOf(first, Line(stack, end));
    ReducedIsReduced(stack, end);
    BuildIsLine(first, stack, end);
  }

  // ---- the method ----

  /** The tests for "." and ".." look at the segment with its slash in front of it. */
  lemma SegmentTests(seg: string)
    ensures var part := "/" + seg;
            && (|part| <= 2 && part == "/."[..|part|] <==> seg == "" || seg == ".")
            && (seg != "" && seg != "." ==> (|part| <= 3 && part == "/.."[..|part|] <==> seg == ".."))
  {
    var part := "/" + seg;
    assert part[1..] == seg;
    if |seg| <= 1 {
      assert "/."[..|part|] == "/" + "."[..|seg|] && "/.."[..|part|] == "/" + "."[..|seg|];
    } else if |seg| == 2 {
      assert "/.."[..|part|] == "/" + "..";
    }
  }

  /** Where the last slash of `front` is, or 0. */
  ghost predicate LastSlash(front: string, p: nat) {
    p < |front| && (p > 0 ==> front[p] == SLASH) && forall j :: p < j < |front| ==> front[j] != SLASH
  }

  /** The part of the scan back to the last slash before `last`. */
  method ScanBack(a: array<char>, last: nat, ghost front: string, ghost rest: string, ghost goal: nat) returns (p: nat)
    requires Holds(a, front + rest) && last == |front| && LastSlash(front, goal)
    ensures p == goal
  {
    p := last - 1;
    while p > 0
      invariant goal <= p < last
      invariant p < a.Length
    {
      assert a[p] == (front + rest)[p] == front[p];
      if a[p] == SLASH {
        break;
      }
      p := p - 1;
    }
  }

  lemma BuildShape(first: string, stack: seq<string>)
    requires first != "" && SLASH !in first && AllPlain(stack)
    ensures Build(first, stack) != ""
    ensures stack == [] ==> LastSlash(Build(first, stack), 0)
    ensures stack != [] ==>
              var below, top := Build(first, stack[..|stack| - 1]), stack[|stack| - 1];
              Build(first, stack) == below + ("/" + top) && below != "" && LastSlash(below + ("/" + top), |below|)
  {
    if stack != [] {
      BuildNonEmpty(first, stack[..|stack| - 1]);
      SlashBefore(Build(first, stack[..|stack| - 1]), stack[|stack| - 1]);
    }
  }

  lemma SlashBefore(below: string, top: string)
    requires SLASH !in top
    ensures LastSlash(below + ("/" + top), |below|)
  {
    var s := below + ("/" + top);
    assert forall j :: |below| < j < |s| ==> s[j] == top[j - |below| - 1];
  }

  lemma {:induction false} BuildNonEmpty(first: string, stack: seq<string>)
    requires first != ""
    ensures Build(first, stack) != ""
  {
  }

  /** What one turn of the loop does: the segment between the two slashes goes on the
      stack, or it and perhaps the top of the stack are cut out of the string. */
  method DoSegment(a: array<char>, last: nat, curr: nat, ghost first: string, ghost stack: seq<string>, ghost seg: string, ghost rest: string)
    returns (at: nat)
    requires Holds(a, Build(first, stack) + (("/" + seg) + rest))
    requires last == |Build(first, stack)| && curr == last + 1 + |seg|
    requires first != "" && SLASH !in first && AllPlain(stack)
    modifies a
    ensures Holds(a, Build(first, Push(stack, seg)) + rest) && at == |Build(first, Push(stack, seg))|
  {
    ghost var front, part := Build(first, stack), "/" + seg;
    SegmentTests(seg);
    BuildShape(first, stack);
    HoldsTextAt(a, front, part + rest);
    var dot := StrNCmpEqual(a, last, "/.", curr - last, part, rest);
    var dotdot := StrNCmpEqual(a, last, "/..", curr - last, part, rest);
    if dot {
      StrCpyDown(a, last, curr, front, part, rest);
      at := last;
    } else if dotdot {
      ghost var below := if stack == [] then "" else Build(first, stack[..|stack| - 1]);
      var lastPos := ScanBack(a, last, front, part + rest, |below|);
      at := if lastPos > 0 then lastPos else last;
      ghost var keep, cut := front, part;
      if stack != [] {
        ghost var top := "/" + stack[|stack| - 1];
        keep, cut := below, top + part;
        Assoc(below, top, part + rest);
        Assoc(top, part, rest);
      }
      StrCpyDown(a, at, curr, keep, cut, rest);
    } else {
      assert (stack + [seg])[..|stack|] == stack;
      Assoc(front, part, rest);
      at := curr;
    }
  }

  /** Refused exactly when the path starts with a slash; otherwise the C string becomes
      its normal form.  The loop ends because every turn moves past one slash of the text
      behind it. */
  method NormalizePath(a: array<char>, ghost path: string) returns (ret: int)
    requires Holds(a, path)
    modifies a
    ensures path != "" && path[0] == SLASH ==> ret == 0 && Holds(a, path)
    ensures path == "" || path[0] != SLASH ==> ret == 1 && Holds(a, Normal(path))
  {
    assert path != "" ==> a[0] == path[0];
    if a[0] == SLASH {
      return 0;
    }
    ret := 1;
    var currPos := FirstSlashIn(a, path);
    if currPos < 0 {
      return;
    }
    ghost var first, rest := path[..currPos], path[currPos + 1..];
    FirstTurn(path);
    assert currPos == |first| && first != "" by { assert path[0] != SLASH; }
    Reduced(a, currPos, first, rest);
  }

  /** The loop's turns behind the device. */
  method Reduced(a: array<char>, device: nat, ghost first: string, ghost behind: string)
    requires Holds(a, first + ("/" + behind)) && device == |first| && first != "" && SLASH !in first
    modifies a
    ensures Holds(a, Build(first, Reduce([], Segments(behind))) + ("/" + Tail(behind)))
  {
    ghost var rest := behind;
    ghost var stack: seq<string> := [];
    var lastDir := device;
    var currPos := NextSlash(a, lastDir, first, rest);
    while currPos >= 0
      invariant Holds(a, Build(first, stack) + ("/" + rest)) && lastDir == |Build(first, stack)| && AllPlain(stack)
      invariant currPos == (var k := IndexOf(rest, SLASH); if k == |rest| then -1 else lastDir + 1 + k)
      invariant Reduce([], Segments(behind)) == Reduce(stack, Segments(rest)) && Tail(behind) == Tail(rest)
      decreases |rest|
    {
      ghost var seg, more := rest[..currPos - lastDir - 1], rest[currPos - lastDir..];
      Turn(stack, rest);
      lastDir := DoSegment(a, lastDir, currPos, first, stack, seg, "/" + more);
      stack, rest := Push(stack, seg), more;
      currPos := NextSlash(a, lastDir, Build(first, stack), rest);
    }
  }

  /** strchr(path, '/'). */
  method FirstSlashIn(a: array<char>, ghost path: string) returns (i: int)
    requires Holds(a, path)
    ensures i == (var k := IndexOf(path, SLASH); if k == |path| then -1 else k)
  {
    assert "" + path == path;
    HoldsTextAt(a, "", path);
    i := StrChr(a, 0, SLASH, path);
  }

  /** strchr(curr_pos + 1, '/'). */
  method NextSlash(a: array<char>, at: nat, ghost front: string, ghost rest: string) returns (i: int)
    requires Holds(a, front + ("/" + rest)) && at == |front|
    ensures i == (var k := IndexOf(rest, SLASH); if k == |rest| then -1 else at + 1 + k)
  {
    Assoc(front, "/", rest);
    HoldsTextAt(a, front + "/", rest);
    i := StrChr(a, at + 1, SLASH, rest);
  }

  lemma FirstTurn(path: string)
    requires IndexOf(path, SLASH) < |path|
    ensures var k := IndexOf(path, SLASH);
            && SLASH !in path[..k]
            && path == path[..k] + ("/" + path[k + 1..])
            && Normal(path) == Build(path[..k], Reduce([], Segments(path[k + 1..]))) + ("/" + Tail(path[k + 1..]))
  {
    var k := IndexOf(path, SLASH);
    CutAtSlash(path);
    NormalOf(path[..k], path[k + 1..]);
  }

  lemma CutAtSlash(s: string)
    requires IndexOf(s, SLASH) < |s|
    ensures var k := IndexOf(s, SLASH); s == s[..k] + ("/" + s[k + 1..])
  {
    CutAt(s, IndexOf(s, SLASH));
  }

  lemma CutAt(s: string, k: nat)
    requires k < |s| && s[k] == SLASH
    ensures s == s[..k] + ("/" + s[k + 1..])
  {
    assert s[k..] == "/" + s[k + 1..];
  }

  /** One segment taken off the front of what is left. */
  lemma Turn(stack: seq<string>, rest: string)
    requires IndexOf(rest, SLASH) < |rest| && AllPlain(stack)
    ensures var k := IndexOf(rest, SLASH);
            && "/" + rest == ("/" + rest[..k]) + ("/" + rest[k + 1..])
            && Reduce(stack, Segments(rest)) == Reduce(Push(stack, rest[..k]), Segments(rest[k + 1..]))
            && Tail(rest) == Tail(rest[k + 1..])
            && AllPlain(Push(stack, rest[..k]))
  {
    var k := IndexOf(rest, SLASH);
    CutAtSlash(rest);
    Assoc("/", rest[..k], "/" + rest[k + 1..]);
    assert Segments(rest) == [rest[..k]] + Segments(rest[k + 1..]);
    assert Segments(rest)[1..] == Segments(rest[k + 1..]);
    PushPlain(stack, rest[..k]);
  }

  lemma PushPlain(stack: seq<string>, seg: string)
    requires AllPlain(stack) && SLASH !in seg
    ensures AllPlain(Push(stack, seg))
  {
    var stack' := Push(stack, seg);
    assert stack' == stack + [seg] ==> stack'[..|stack'| - 1] == stack;
  }
}
