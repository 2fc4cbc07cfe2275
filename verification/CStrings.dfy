/** C strings in character arrays: the text up to the first NUL, and the string functions
    the path code calls. */
module CStrings {
  import opened Sequences

  const SLASH := '/'
  const NUL := '\0'

  /** The first index of c in s, or |s|. */
  function IndexOf(s: string, c: char): (k: nat)
    ensures k <= |s| && c !in s[..k] && (k < |s| ==> s[k] == c)
  {
    if s == "" || s[0] == c then 0
    else
      assert s == [s[0]] + s[1..];
      1 + IndexOf(s[1..], c)
  }

  /** The array holds the text `t` and a NUL behind it. */
  ghost predicate Holds(a: array<char>, t: string)
    reads a
  {
    |t| < a.Length && a[..|t|] == t && a[|t|] == NUL && NUL !in t
  }

  /** The text `s` and a NUL behind it stand at a + at. */
  ghost predicate TextAt(a: array<char>, at: nat, s: string)
    reads a
  {
    at + |s| < a.Length && a[at + |s|] == NUL && forall k :: 0 <= k < |s| ==> a[at + k] == s[k] && s[k] != NUL
  }

  lemma Advance(a: array<char>, at: nat, s: string, k: nat)
    requires TextAt(a, at, s) && k <= |s|
    ensures TextAt(a, at + k, s[k..])
  {
  }

  lemma HoldsTextAt(a: array<char>, front: string, rest: string)
    requires Holds(a, front + rest)
    ensures TextAt(a, |front|, rest)
  {
    var t := front + rest;
    forall k: nat | k < |rest|
      ensures a[|front| + k] == rest[k] && rest[k] != NUL
    {
      assert t[|front| + k] == rest[k];
      assert a[..|t|][|front| + k] == rest[k];
    }
  }

  /** strchr(a + from, c). */
  method StrChr(a: array<char>, from: nat, c: char, ghost rest: string) returns (i: int)
    requires TextAt(a, from, rest) && c != NUL
    ensures i == (var k := IndexOf(rest, c); if k == |rest| then -1 else from + k)
  {
    i := from;
    while a[i] != NUL && a[i] != c
      invariant from <= i <= from + |rest|
      invariant IndexOf(rest, c) == i - from + IndexOf(rest[i - from..], c)
      decreases from + |rest| - i
    {
      assert a[i] == rest[i - from] && rest[i - from..][1..] == rest[i + 1 - from..];
      i := i + 1;
    }
    assert i - from < |rest| ==> a[i] == rest[i - from];
    if a[i] == NUL {
      i := -1;
    }
  }

  /** strcpy towards the front of the same string: `cut` goes. */
  method StrCpyDown(a: array<char>, dst: nat, src: nat, ghost front: string, ghost cut: string, ghost rest: string)
    requires Holds(a, front + (cut + rest)) && dst == |front| && src == |front + cut|
    modifies a
    ensures Holds(a, front + rest)
  {
    Assoc(front, cut, rest);
    HoldsTextAt(a, front + cut, rest);
    FrontOf(a, front, cut + rest);
    MoveDown(a, dst, src, rest);
    HoldsFrom(a, front, rest);
  }

  method MoveDown(a: array<char>, dst: nat, src: nat, ghost rest: string)
    requires TextAt(a, src, rest) && dst <= src
    modifies a
    ensures TextAt(a, dst, rest)
    ensures forall k :: 0 <= k < dst ==> a[k] == old(a[k])
  {
    var i := 0;
    while a[src + i] != NUL
      invariant 0 <= i <= |rest| && TextAt(a, src + i, rest[i..])
      invariant a[src + i] == if i == |rest| then NUL else rest[i]
      invariant forall k :: 0 <= k < i ==> a[dst + k] == rest[k] && rest[k] != NUL
      invariant forall k :: 0 <= k < dst ==> a[k] == old(a[k])
      decreases |rest| - i
    {
      Advance(a, src + i, rest[i..], 1);
      assert rest[i..][1..] == rest[i + 1..];
      a[dst + i] := a[src + i];
      i := i + 1;
      assert i < |rest| ==> a[src + i + 0] == rest[i..][0];
    }
    a[dst + i] := NUL;
  }

  lemma FrontOf(a: array<char>, front: string, rest: string)
    requires Holds(a, front + rest)
    ensures |front| < a.Length && NUL !in front && forall k :: 0 <= k < |front| ==> a[k] == front[k]
  {
    forall k: nat | k < |front|
      ensures a[k] == front[k] && front[k] != NUL
    {
      assert (front + rest)[k] == front[k] && a[..|front + rest|][k] == a[k];
    }
  }

  lemma HoldsFrom(a: array<char>, front: string, rest: string)
    requires TextAt(a, |front|, rest) && NUL !in front && forall k :: 0 <= k < |front| ==> a[k] == front[k]
    ensures Holds(a, front + rest)
  {
    var t := front + rest;
    forall k | 0 <= k < |t|
      ensures a[k] == t[k] != NUL
    {
      assert k >= |front| ==> a[|front| + (k - |front|)] == rest[k - |front|];
    }
    assert a[..|t|] == t;
  }

  /** strncmp(a + at, lit, |part|) == 0, for a stretch `part` of the string. */
  method StrNCmpEqual(a: array<char>, at: nat, lit: string, len: nat, ghost part: string, ghost rest: string)
    returns (eq: bool)
    requires TextAt(a, at, part + rest) && len == |part| && NUL !in lit
    ensures eq <==> |part| <= |lit| && part == lit[..|part|]
  {
    var i := 0;
    while i < len
      invariant 0 <= i <= len && i <= |lit| && part[..i] == lit[..i]
    {
      assert a[at + i] == (part + rest)[i] == part[i];
      if i >= |lit| || a[at + i] != lit[i] {
        return false;
      }
      i := i + 1;
    }
    assert part[..i] == part;
    eq := true;
  }

  /** strcpy of a literal or another buffer's text. */
  method StrCpy(a: array<char>, s: string)
    requires |s| < a.Length && NUL !in s
    modifies a
    ensures Holds(a, s)
  {
    CopyAt(a, 0, s);
    assert a[..|s|] == a[0..|s|];
  }

  method CopyAt(a: array<char>, at: nat, s: string)
    requires at + |s| < a.Length
    modifies a
    ensures a[at..at + |s|] == s && a[at + |s|] == NUL && a[..at] == old(a[..at])
  {
    var i := 0;
    while i < |s|
      invariant 0 <= i <= |s| && a[at..at + i] == s[..i] && a[..at] == old(a[..at])
    {
      a[at + i] := s[i];
      i := i + 1;
    }
    a[at + i] := NUL;
  }

  method StrCat(a: array<char>, s: string, ghost t: string)
    requires Holds(a, t) && |t| + |s| < a.Length && NUL !in s
    modifies a
    ensures Holds(a, t + s)
  {
    var n := StrLen(a, t);
    CopyAt(a, n, s);
    assert a[..n + |s|] == a[..n] + a[n..n + |s|];
  }

  method StrLen(a: array<char>, ghost t: string) returns (n: nat)
    requires Holds(a, t)
    ensures n == |t|
  {
    n := 0;
    while a[n] != NUL
      invariant n <= |t| && (n < |t| ==> a[n] == t[n])
      decreases |t| - n
    {
      n := n + 1;
      assert n < |t| ==> a[n] == a[..|t|][n];
    }
  }

  /** The text itself, as strcpy into a private buffer reads it. */
  method TextOf(a: array<char>, ghost t: string) returns (s: string)
    requires Holds(a, t)
    ensures s == t
  {
    var n := StrLen(a, t);
    s := a[..n];
  }
}
