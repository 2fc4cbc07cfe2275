/** gen_path, make_nocase and make_path of usbhostfs_pc/main.c: a drive and a path of the
    device become a path of the host, with "." and ".." folded away, names matched
    ignoring case on demand, and the drive's root in front. */
module PathMap {
  import opened Options
  import opened Sequences
  import opened CStrings
  import opened NormalizePath

  const PATH_MAX := 4096
  const MAX_TOKENS := 256
  const MAX_HOSTDRIVES := 8

  // ---- paths as component lists ----

  /** What strtok(.., "/") returns one after the other. */
  function Tokens(s: string): (ts: seq<string>)
    decreases |s|
  {
    if s == "" then []
    else if s[0] == SLASH then Tokens(s[1..])
    else var k := IndexOf(s, SLASH); [s[..k]] + Tokens(s[k..])
  }

  function Take(ts: seq<string>, n: nat): seq<string> {
    if |ts| <= n then ts else ts[..n]
  }

  /** The token array has room for 255 tokens and a null. */
  function Limit(ts: seq<string>): seq<string> {
    Take(ts, MAX_TOKENS - 1)
  }

  /** The components with a slash behind each, the last one's only for a directory. */
  function Parts(ts: seq<string>, dir: bool): string
    decreases |ts|
  {
    if ts == [] then "" else ts[0] + (Ending(ts, dir) + Parts(ts[1..], dir))
  }

  function Ending(ts: seq<string>, dir: bool): string {
    if dir || |ts| > 1 then "/" else ""
  }

  function Join(ts: seq<string>, dir: bool): string {
    "/" + Parts(ts, dir)
  }

  function Gen(s: string, dir: bool): string {
    Join(Reduce([], Limit(Tokens(s))), dir)
  }

  // ---- tokens ----

  lemma {:induction false} TokensAreNames(s: string)
    ensures Names(Tokens(s))
    decreases |s|
  {
    if s != "" {
      var k := IndexOf(s, SLASH);
      TokensAreNames(s[if s[0] == SLASH then 1 else k..]);
    }
  }

  /** Tokens are never empty and hold no slash. */
  predicate Names(ts: seq<string>) {
    ts == [] || (ts[0] != "" && SLASH !in ts[0] && Names(ts[1..]))
  }

  lemma {:induction false} ReduceNames(stack: seq<string>, ts: seq<string>)
    requires AllPlain(stack) && Names(ts)
    ensures AllPlain(Reduce(stack, ts))
    decreases |ts|
  {
    if ts != [] {
      PushPlain(stack, ts[0]);
      ReduceNames(Push(stack, ts[0]), ts[1..]);
    }
  }

  lemma {:induction false} TakeNames(ts: seq<string>, n: nat)
    requires Names(ts)
    ensures Names(Take(ts, n))
    decreases |ts|
  {
    if n < |ts| && n > 0 {
      TakeNames(ts[1..], n - 1);
      assert ts[..n][1..] == Take(ts[1..], n - 1);
    }
  }

  lemma {:induction false} AllPlainSplit(ts: seq<string>)
    requires AllPlain(ts) && ts != []
    ensures Plain(ts[0]) && AllPlain(ts[1..])
    decreases |ts|
  {
    if |ts| > 1 {
      AllPlainSplit(ts[..|ts| - 1]);
      assert ts[1..][..|ts| - 2] == ts[..|ts| - 1][1..];
    }
  }

  lemma {:induction false} AllPlainTake(ts: seq<string>, n: nat)
    requires AllPlain(ts)
    ensures AllPlain(Take(ts, n))
    decreases |ts|
  {
    if n < |ts| {
      AllPlainTake(ts[..|ts| - 1], n);
      assert Take(ts[..|ts| - 1], n) == ts[..n];
    }
  }

  /** Components that need no folding pass through the fold. */
  lemma {:induction false} ReducePlainAppends(stack: seq<string>, ts: seq<string>)
    requires AllPlain(ts)
    ensures Reduce(stack, ts) == stack + ts
    decreases |ts|
  {
    if ts != [] {
      AllPlainSplit(ts);
      ReducePlainAppends(stack + [ts[0]], ts[1..]);
      assert stack + [ts[0]] + ts[1..] == stack + ts;
    } else {
      assert stack + ts == stack;
    }
  }

  lemma {:induction false} TokensBehindSlash(s: string, t: string)
    ensures Tokens(s + ("/" + t)) == Tokens(s) + Tokens(t)
    decreases |s|
  {
    var u := "/" + t;
    assert u[1..] == t;
    if s == "" {
      assert s + u == u;
    } else if s[0] == SLASH {
      assert (s + u)[1..] == s[1..] + u;
      TokensBehindSlash(s[1..], t);
    } else {
      var k := IndexOf(s, SLASH);
      FirstOf(s, u);
      SplitInFront(s, u, k);
      TokensBehindSlash(s[k..], t);
      Assoc([s[..k]], Tokens(s[k..]), Tokens(t));
    }
  }

  lemma SplitInFront(s: string, u: string, k: nat)
    requires k <= |s|
    ensures (s + u)[..k] == s[..k] && (s + u)[k..] == s[k..] + u
  {
  }

  lemma {:induction false} FirstOf(s: string, u: string)
    requires u != "" && u[0] == SLASH
    ensures IndexOf(s + u, SLASH) == IndexOf(s, SLASH)
    decreases |s|
  {
    if s == "" {
      assert s + u == u;
    } else if s[0] != SLASH {
      assert (s + u)[1..] == s[1..] + u;
      FirstOf(s[1..], u);
    }
  }

  lemma {:induction false} TokensOfParts(ts: seq<string>, dir: bool)
    requires AllPlain(ts)
    ensures Tokens(Parts(ts, dir)) == ts
    decreases |ts|
  {
    if ts != [] {
      AllPlainSplit(ts);
      var more := Parts(ts[1..], dir);
      TokensOfName(ts[0]);
      if dir || |ts| > 1 {
        TokensBehindSlash(ts[0], more);
        TokensOfParts(ts[1..], dir);
        assert [ts[0]] + ts[1..] == ts;
      } else {
        assert ts == [ts[0]] && Parts(ts, dir) == ts[0];
      }
    }
  }

  lemma TokensOfName(name: string)
    requires name != "" && SLASH !in name
    ensures Tokens(name) == [name]
  {
    assert IndexOf(name, SLASH) == |name|;
    assert name[..|name|] == name && Tokens(name[|name|..]) == [];
  }

  lemma TokensOfJoin(ts: seq<string>, dir: bool)
    requires AllPlain(ts)
    ensures Tokens(Join(ts, dir)) == ts
  {
    TokensOfParts(ts, dir);
    assert Join(ts, dir)[1..] == Parts(ts, dir);
  }

  // ---- what gen_path promises ----

  /** The components of the result are the folded ones, and fold to themselves. */
  lemma GenComponents(s: string, dir: bool)
    ensures var ts := Reduce([], Limit(Tokens(s)));
            Tokens(Gen(s, dir)) == ts && AllPlain(ts) && |ts| < MAX_TOKENS && Reduce([], Limit(ts)) == ts
  {
    var ts := Reduce([], Limit(Tokens(s)));
    TokensAreNames(s);
    TakeNames(Tokens(s), MAX_TOKENS - 1);
    ReduceNames([], Limit(Tokens(s)));
    ReduceLength([], Limit(Tokens(s)));
    TokensOfJoin(ts, dir);
    ReducePlainAppends([], ts);
  }

  lemma {:induction false} ReduceLength(stack: seq<string>, ts: seq<string>)
    ensures |Reduce(stack, ts)| <= |stack| + |ts|
    decreases |ts|
  {
    if ts != [] {
      ReduceLength(Push(stack, ts[0]), ts[1..]);
    }
  }

  /** A second pass changes only whether the path ends like a directory. */
  lemma GenIsIdempotent(s: string, once: bool, again: bool)
    ensures Gen(Gen(s, once), again) == Gen(s, again)
  {
    GenComponents(s, once);
  }

  /** Up to 255 components the fold sees the whole path ... */
  lemma GenFoldsAll(s: string, dir: bool)
    requires |Tokens(s)| < MAX_TOKENS
    ensures Tokens(Gen(s, dir)) == Reduce([], Tokens(s))
  {
    GenComponents(s, dir);
  }

  /** ... and what stands behind the 255th is dropped unseen. */
  lemma GenDropsTheRest(s: string, t: string, dir: bool)
    requires |Tokens(s)| == MAX_TOKENS - 1
    ensures Gen(s + ("/" + t), dir) == Gen(s, dir)
  {
    TokensBehindSlash(s, t);
    var ts := Tokens(s) + Tokens(t);
    assert Take(ts, MAX_TOKENS - 1) == Tokens(s);
  }

  /** For a path of plain names that is exactly what decides. */
  lemma GenSeesAllExactly(s: string, dir: bool)
    requires AllPlain(Tokens(s))
    ensures Tokens(Gen(s, dir)) == Tokens(s) <==> |Tokens(s)| < MAX_TOKENS
  {
    var ts := Tokens(s);
    GenComponents(s, dir);
    if |ts| < MAX_TOKENS {
      ReducePlainAppends([], ts);
    }
  }

  /** The fold of the whole path would differ: a name there is lost. */
  lemma DroppedNameIsLost(s: string, name: string, dir: bool)
    requires |Tokens(s)| == MAX_TOKENS - 1 && Plain(name)
    ensures var t := s + ("/" + name);
            Reduce([], Tokens(t)) == Tokens(Gen(t, dir)) + [name] != Tokens(Gen(t, dir))
  {
    GenDropsTheRest(s, name, dir);
    GenFoldsAll(s, dir);
    TokensBehindSlash(s, name);
    TokensOfName(name);
    ReduceInTwo([], Tokens(s), [name]);
    ReducePlainAppends(Reduce([], Tokens(s)), [name]);
  }

  // ---- lengths: when the result fits where the path was ----

  function Weight(ts: seq<string>): nat {
    if ts == [] then 0 else |ts[0]| + 1 + Weight(ts[1..])
  }

  lemma {:induction false} PartsWeight(ts: seq<string>, dir: bool)
    ensures |Parts(ts, dir)| == Weight(ts) - if dir || ts == [] then 0 else 1
    decreases |ts|
  {
    if ts != [] {
      PartsWeight(ts[1..], dir);
    }
  }

  lemma {:induction false} WeightSnoc(ts: seq<string>, t: string)
    ensures Weight(ts + [t]) == Weight(ts) + |t| + 1
    decreases |ts|
  {
    if ts == [] {
      assert ts + [t] == [t];
    } else {
      assert (ts + [t])[1..] == ts[1..] + [t];
      WeightSnoc(ts[1..], t);
    }
  }

  lemma PushWeight(stack: seq<string>, seg: string)
    ensures Weight(Push(stack, seg)) <= Weight(stack) + |seg| + 1
  {
    WeightSnoc(stack, seg);
    if stack != [] {
      var below := stack[..|stack| - 1];
      WeightSnoc(below, stack[|stack| - 1]);
      assert below + [stack[|stack| - 1]] == stack;
    }
  }

  lemma {:induction false} ReduceWeight(stack: seq<string>, ts: seq<string>)
    ensures Weight(Reduce(stack, ts)) <= Weight(stack) + Weight(ts)
    decreases |ts|
  {
    if ts != [] {
      PushWeight(stack, ts[0]);
      ReduceWeight(Push(stack, ts[0]), ts[1..]);
    }
  }

  lemma {:induction false} TakeWeight(ts: seq<string>, n: nat)
    ensures Weight(Take(ts, n)) <= Weight(ts)
    decreases |ts|
  {
    if 0 < n < |ts| {
      TakeWeight(ts[1..], n - 1);
      assert ts[..n][1..] == Take(ts[1..], n - 1);
    }
  }

  lemma {:induction false} TokensWeight(s: string)
    ensures Weight(Tokens(s)) <= |s| + if s != "" && s[|s| - 1] != SLASH then 1 else 0
    decreases |s|
  {
    if s != "" {
      if s[0] == SLASH {
        TokensWeight(s[1..]);
      } else {
        var k := IndexOf(s, SLASH);
        assert s[0] !in s[..0];
        if k < |s| {
          TokensWeight(s[k..][1..]);
          assert Tokens(s[k..]) == Tokens(s[k..][1..]);
        } else {
          assert s[..k] == s && Tokens(s) == [s];
        }
      }
    }
  }

  /** How much a path can grow: a slash in front, and one behind a directory. */
  function Growth(s: string, dir: bool): nat {
    (if s == "" || s[0] != SLASH then 1 else 0) + (if dir && (s == "" || s[|s| - 1] != SLASH) then 1 else 0)
  }

  lemma GenFits(s: string, dir: bool)
    ensures |Gen(s, dir)| <= |s| + Growth(s, dir)
  {
    var ts := Limit(Tokens(s));
    TokensWeight(s);
    if s != "" {
      TokensWeight(s[1..]);
    }
    TakeWeight(Tokens(s), MAX_TOKENS - 1);
    ReduceWeight([], ts);
    PartsWeight(Reduce([], ts), dir);
  }

  /** A single name grows by as much. */
  lemma NameGrows(name: string, dir: bool)
    requires Plain(name)
    ensures Gen(name, dir) == Gen("/" + name, dir) == "/" + name + if dir then "/" else ""
    ensures |Gen(name, dir)| == |name| + Growth(name, dir)
  {
    TokensOfName(name);
    assert ("/" + name)[1..] == name;
    ReducePlainAppends([], [name]);
    assert [] + [name] == [name];
    assert Parts([name], dir) == name + (Ending([name], dir) + Parts([], dir));
    assert name[0] != SLASH && name[|name| - 1] != SLASH;
  }

  // ---- names ignoring case ----

  function Lower(c: char): char {
    if 'A' <= c <= 'Z' then c - 'A' + 'a' else c
  }

  /** strcasecmp(s, t) == 0. */
  predicate SameName(s: string, t: string) {
    |s| == |t| && (s == "" || (Lower(s[0]) == Lower(t[0]) && SameName(s[1..], t[1..])))
  }

  /** calc_rating: how many characters agree exactly. */
  function Rating(s: string, t: string): nat {
    if s == "" || t == "" then 0 else (if s[0] == t[0] then 1 else 0) + Rating(s[1..], t[1..])
  }

  /** The entry find_nocase settles on. */
  function Best(entries: seq<string>, token: string): Option<string> {
    if entries == [] then None
    else
      var best, e := Best(entries[..|entries| - 1], token), entries[|entries| - 1];
      if SameName(e, token) && (best.None? || Rating(token, e) > Rating(token, best.value)) then Some(e) else best
  }

  lemma {:induction false} BestIsBest(entries: seq<string>, token: string)
    ensures Best(entries, token).Some? ==>
              Best(entries, token).value in entries && SameName(Best(entries, token).value, token)
    ensures forall e <- entries :: SameName(e, token) ==>
              Best(entries, token).Some? && Rating(token, e) <= Rating(token, Best(entries, token).value)
  {
    if entries != [] {
      BestIsBest(entries[..|entries| - 1], token);
      assert forall e <- entries :: e in entries[..|entries| - 1] || e == entries[|entries| - 1];
    }
  }

  lemma {:induction false} RatingIsLength(s: string, t: string)
    requires |s| == |t|
    ensures Rating(s, t) <= |s| && (Rating(s, t) == |s| <==> s == t)
    decreases |s|
  {
    if s != "" {
      RatingIsLength(s[1..], t[1..]);
      assert s == [s[0]] + s[1..] && t == [t[0]] + t[1..];
    }
  }

  lemma {:induction false} SameAsItself(s: string)
    ensures SameName(s, s)
  {
    if s != "" {
      SameAsItself(s[1..]);
    }
  }

  /** A name that is there is never replaced by another spelling. */
  lemma ExactNameWins(entries: seq<string>, token: string)
    requires token in entries
    ensures Best(entries, token) == Some(token)
  {
    SameAsItself(token);
    BestIsBest(entries, token);
    var m := Best(entries, token).value;
    SameLength(m, token);
    RatingIsLength(token, token);
    RatingIsLength(token, m);
  }

  lemma SameLength(s: string, t: string)
    requires SameName(s, t)
    ensures |s| == |t|
  {
  }

  lemma {:induction false} SameNameKeepsPlainChars(s: string, t: string, c: char)
    requires SameName(s, t) && Lower(c) == c && !('a' <= c <= 'z')
    ensures c in s <==> c in t
    decreases |s|
  {
    if s != "" {
      SameNameKeepsPlainChars(s[1..], t[1..], c);
      assert s == [s[0]] + s[1..] && t == [t[0]] + t[1..];
    }
  }

  lemma SameNameIsPlain(s: string, t: string)
    requires SameName(s, t) && Plain(t)
    ensures Plain(s)
  {
    SameNameKeepsPlainChars(s, t, SLASH);
    DotsStayDots(s, t);
  }

  lemma {:induction false} DotsStayDots(s: string, t: string)
    requires SameName(s, t)
    ensures |s| == |t| && forall i :: 0 <= i < |s| && s[i] == '.' ==> t[i] == '.'
    decreases |s|
  {
    if s != "" {
      DotsStayDots(s[1..], t[1..]);
      assert forall i :: 0 < i < |s| ==> s[i] == s[1..][i - 1] && t[i] == t[1..][i - 1];
    }
  }

  /** The same components but for the case of letters. */
  predicate Alike(ts: seq<string>, us: seq<string>) {
    |ts| == |us| && (ts == [] || (SameName(ts[|ts| - 1], us[|us| - 1]) && Alike(ts[..|ts| - 1], us[..|us| - 1])))
  }

  /** The host's file system, as opendir and readdir show it. */
  type Listing = string -> Option<seq<string>>

  /** snprintf cuts the name off at the buffer's end; one more character is refused. */
  function Lookup(fs: Listing, name: string, token: string): Option<string> {
    if |name| > PATH_MAX then None
    else match fs(if |name| == PATH_MAX then name[..PATH_MAX - 1] else name)
         case None => None
         case Some(entries) => Best(entries, token)
  }

  /** The components found on disk, `done` of them already. */
  function Matched(fs: Listing, root: string, done: seq<string>, ts: seq<string>): Option<seq<string>>
    decreases |ts|
  {
    if ts == [] then Some(done)
    else match Lookup(fs, root + Join(done, true), ts[0])
         case Some(m) => Matched(fs, root, done + [m], ts[1..])
         case None => if |ts| > 1 then None else Some(done + ts)
  }

  function NoCase(fs: Listing, root: string, s: string, dir: bool): string {
    match Matched(fs, root, [], Limit(Tokens(s)))
    case None => s
    case Some(ts) => Join(ts, dir)
  }

  lemma LookupIsAlike(fs: Listing, name: string, token: string)
    requires Plain(token) && Lookup(fs, name, token).Some?
    ensures var m := Lookup(fs, name, token).value; Plain(m) && SameName(m, token)
  {
    var entries := fs(if |name| == PATH_MAX then name[..PATH_MAX - 1] else name).value;
    BestIsBest(entries, token);
    SameNameIsPlain(Lookup(fs, name, token).value, token);
  }

  /** Matching keeps the number of components and, but for case, the components; none
      becomes "." or "..". */
  lemma {:induction false} MatchedIsAlike(fs: Listing, root: string, done: seq<string>, was: seq<string>, ts: seq<string>)
    requires Alike(done, was) && AllPlain(done) && AllPlain(ts)
    ensures var r := Matched(fs, root, done, ts);
            r.Some? ==> Alike(r.value, was + ts) && AllPlain(r.value)
    decreases |ts|
  {
    if ts == [] {
      assert was + ts == was;
    } else {
      AllPlainSplit(ts);
      var found := Lookup(fs, root + Join(done, true), ts[0]);
      if found.Some? {
        LookupIsAlike(fs, root + Join(done, true), ts[0]);
        AlikeSnoc(done, was, found.value, ts[0]);
        MatchedIsAlike(fs, root, done + [found.value], was + [ts[0]], ts[1..]);
        Appended(was, ts);
      } else if |ts| == 1 {
        SameAsItself(ts[0]);
        AlikeSnoc(done, was, ts[0], ts[0]);
        assert ts == [ts[0]];
      }
    }
  }

  lemma AlikeSnoc(done: seq<string>, was: seq<string>, s: string, t: string)
    requires Alike(done, was) && AllPlain(done) && SameName(s, t) && Plain(s)
    ensures Alike(done + [s], was + [t]) && AllPlain(done + [s])
  {
    assert (done + [s])[..|done|] == done && (was + [t])[..|was|] == was;
  }

  lemma Appended(was: seq<string>, ts: seq<string>)
    requires ts != []
    ensures was + [ts[0]] + ts[1..] == was + ts
  {
  }

  // ---- what is on disk ----

  /** m stands in the directory, as far as it can be listed. */
  predicate Listed(fs: Listing, name: string, m: string) {
    |name| <= PATH_MAX
    && var entries := fs(if |name| == PATH_MAX then name[..PATH_MAX - 1] else name);
       entries.Some? && m in entries.value
  }

  /** No spelling of the token does. */
  ghost predicate Missing(fs: Listing, name: string, token: string) {
    forall m :: Listed(fs, name, m) ==> !SameName(m, token)
  }

  lemma LookupExactly(fs: Listing, name: string, token: string)
    ensures var r := Lookup(fs, name, token);
            && (r.None? <==> Missing(fs, name, token))
            && (r.Some? ==> Listed(fs, name, r.value) && SameName(r.value, token))
            && (Listed(fs, name, token) ==> r == Some(token))
  {
    if |name| <= PATH_MAX {
      var entries := fs(if |name| == PATH_MAX then name[..PATH_MAX - 1] else name);
      if entries.Some? {
        BestIsBest(entries.value, token);
        if token in entries.value {
          ExactNameWins(entries.value, token);
        }
      }
    }
  }

  /** Below root and `done`, us spell the components of ts as they stand on disk; only a
      last one that is missing stays as it was. */
  ghost predicate Found(fs: Listing, root: string, done: seq<string>, ts: seq<string>, us: seq<string>)
    decreases |ts|
  {
    if ts == [] then us == []
    else
      var name := root + Join(done, true);
      && us != []
      && if Listed(fs, name, us[0]) && SameName(us[0], ts[0]) then Found(fs, root, done + [us[0]], ts[1..], us[1..])
         else us == ts && |ts| == 1 && Missing(fs, name, ts[0])
  }

  /** Following the spellings on disk there comes a directory that has no spelling of a
      component other than the last. */
  ghost predicate Lost(fs: Listing, root: string, done: seq<string>, ts: seq<string>)
    decreases |ts|
  {
    |ts| > 1
    && var name := root + Join(done, true);
       Missing(fs, name, ts[0])
       || exists m :: Listed(fs, name, m) && SameName(m, ts[0]) && Lost(fs, root, done + [m], ts[1..])
  }

  lemma {:induction false} MatchedIsFound(fs: Listing, root: string, done: seq<string>, ts: seq<string>)
    ensures var r := Matched(fs, root, done, ts);
            && (r.None? ==> Lost(fs, root, done, ts))
            && (r.Some? ==> |done| <= |r.value| && r.value[..|done|] == done && Found(fs, root, done, ts, r.value[|done|..]))
    decreases |ts|
  {
    if ts != [] {
      var name := root + Join(done, true);
      LookupExactly(fs, name, ts[0]);
      var found := Lookup(fs, name, ts[0]);
      if found.Some? {
        MatchedIsFound(fs, root, done + [found.value], ts[1..]);
        var r := Matched(fs, root, done + [found.value], ts[1..]);
        if r.Some? {
          assert r.value[..|done| + 1][|done|] == found.value && r.value[..|done| + 1][..|done|] == r.value[..|done|];
          assert r.value[|done|..][1..] == r.value[|done| + 1..];
        }
      }
    }
  }

  /** The matched path is the one on disk, or the path itself if some directory on the way
      has no spelling of the next component. */
  lemma NoCaseIsOnDisk(fs: Listing, root: string, s: string, dir: bool)
    requires AllPlain(Tokens(s)) && |Tokens(s)| < MAX_TOKENS
    ensures var n := NoCase(fs, root, s, dir);
            Found(fs, root, [], Tokens(s), Tokens(n)) || (n == s && Lost(fs, root, [], Tokens(s)))
  {
    var ts := Tokens(s);
    MatchedIsFound(fs, root, [], ts);
    MatchedIsAlike(fs, root, [], [], ts);
    var r := Matched(fs, root, [], ts);
    if r.Some? {
      assert r.value[0..] == r.value;
      TokensOfJoin(r.value, dir);
    }
  }

  ghost predicate OnDisk(fs: Listing, root: string, done: seq<string>, ts: seq<string>)
    decreases |ts|
  {
    ts == [] || (Listed(fs, root + Join(done, true), ts[0]) && OnDisk(fs, root, done + [ts[0]], ts[1..]))
  }

  /** A path that is on disk as it is spelled is never changed. */
  lemma {:induction false} OnDiskStays(fs: Listing, root: string, done: seq<string>, ts: seq<string>)
    requires OnDisk(fs, root, done, ts)
    ensures Matched(fs, root, done, ts) == Some(done + ts)
    decreases |ts|
  {
    if ts != [] {
      LookupExactly(fs, root + Join(done, true), ts[0]);
      OnDiskStays(fs, root, done + [ts[0]], ts[1..]);
      Appended(done, ts);
    } else {
      assert done + ts == done;
    }
  }

  // ---- make_path ----

  datatype HostDrive = HostDrive(rootdir: string, currdir: string)

  /** g_msslash: the other slash counts as one. */
  function Slashes(s: string): string {
    seq(|s|, i requires 0 <= i < |s| => if s[i] == '\\' then SLASH else s[i])
  }

  datatype Config = Config(msslash: bool, nocase: bool, fs: Listing)

  /** The path below the drive's root. */
  function HostPath(c: Config, d: HostDrive, path: string, dir: bool): string {
    var s := d.currdir + path;
    var g := Gen(if c.msslash then Slashes(s) else s, dir);
    if c.nocase then NoCase(c.fs, d.rootdir, g, dir) else g
  }

  function MakePath(c: Config, drives: seq<HostDrive>, drive: nat, path: string, dir: bool): Option<string> {
    if drive >= |drives| || |drives[drive].currdir + path| >= PATH_MAX then None
    else
      var s := drives[drive].rootdir + ("/" + HostPath(c, drives[drive], path, dir));
      if |s| >= PATH_MAX then None else Some(Gen(s, dir))
  }

  /** The components asked for: the current directory's and the path's, folded. */
  function Wanted(c: Config, d: HostDrive, path: string): seq<string> {
    var s := d.currdir + path;
    Reduce([], Limit(Tokens(if c.msslash then Slashes(s) else s)))
  }

  lemma AlikeItself(ts: seq<string>)
    ensures Alike(ts, ts)
  {
    if ts != [] {
      SameAsItself(ts[|ts| - 1]);
    }
  }

  lemma HostPathComponents(c: Config, d: HostDrive, path: string, dir: bool)
    ensures var ts := Tokens(HostPath(c, d, path, dir));
            AllPlain(ts) && Alike(ts, Wanted(c, d, path)) && (!c.nocase ==> ts == Wanted(c, d, path))
  {
    var s := d.currdir + path;
    var was := if c.msslash then Slashes(s) else s;
    var ts := Wanted(c, d, path);
    GenComponents(was, dir);
    AlikeItself(ts);
    if c.nocase {
      MatchedIsAlike(c.fs, d.rootdir, [], [], ts);
      assert [] + ts == ts;
      var r := Matched(c.fs, d.rootdir, [], Limit(ts));
      if r.Some? {
        TokensOfJoin(r.value, dir);
      }
    }
  }

  lemma LimitOfBoth(ts: seq<string>, us: seq<string>)
    ensures Limit(ts + us) == Limit(ts) + Take(us, MAX_TOKENS - 1 - |Limit(ts)|)
  {
  }

  /** Whatever the path says, the host path's components are the normalised root's and
      then the wanted ones, up to the 255 the token array takes: no path leads out of the
      root. */
  lemma PathStaysBelowRoot(c: Config, drives: seq<HostDrive>, drive: nat, path: string, dir: bool)
    requires MakePath(c, drives, drive, path, dir).Some?
    ensures var root := Tokens(drives[drive].rootdir);
            var below := Tokens(HostPath(c, drives[drive], path, dir));
            && Alike(below, Wanted(c, drives[drive], path))
            && (!c.nocase ==> below == Wanted(c, drives[drive], path))
            && Tokens(MakePath(c, drives, drive, path, dir).value)
               == Reduce([], Limit(root)) + Take(below, MAX_TOKENS - 1 - |Limit(root)|)
  {
    var d := drives[drive];
    var root, host := Tokens(d.rootdir), HostPath(c, d, path, dir);
    var below := Tokens(host);
    HostPathComponents(c, d, path, dir);
    TokensBehindSlash(d.rootdir, host);
    GenComponents(d.rootdir + ("/" + host), dir);
    FoldsBehind(root, below);
  }

  /** Components that need no folding stay behind whatever the first ones fold to. */
  lemma FoldsBehind(root: seq<string>, below: seq<string>)
    requires AllPlain(below)
    ensures Reduce([], Limit(root + below)) == Reduce([], Limit(root)) + Take(below, MAX_TOKENS - 1 - |Limit(root)|)
  {
    var rest := Take(below, MAX_TOKENS - 1 - |Limit(root)|);
    LimitOfBoth(root, below);
    ReduceInTwo([], Limit(root), rest);
    AllPlainTake(below, MAX_TOKENS - 1 - |Limit(root)|);
    ReducePlainAppends(Reduce([], Limit(root)), rest);
  }

  // ---- the code ----

  /** strtok on the text from `pos` on; no token stands for the null pointer. */
  method StrTok(s: string, pos: nat) returns (tok: Option<string>, next: nat)
    requires pos <= |s|
    ensures next <= |s|
    ensures tok.None? ==> Tokens(s[pos..]) == []
    ensures tok.Some? ==> Tokens(s[pos..]) == [tok.value] + Tokens(s[next..])
  {
    var start := SkipSlashes(s, pos);
    if start == |s| {
      return None, start;
    }
    next := TokenEnd(s, start);
    RestOfRest(s, start, next - start);
    tok := Some(s[start..next]);
  }

  method SkipSlashes(s: string, pos: nat) returns (next: nat)
    requires pos <= |s|
    ensures pos <= next <= |s| && Tokens(s[next..]) == Tokens(s[pos..])
    ensures next < |s| ==> s[next] != SLASH
  {
    next := pos;
    while next < |s| && s[next] == SLASH
      invariant pos <= next <= |s| && Tokens(s[pos..]) == Tokens(s[next..])
    {
      RestOfRest(s, next, 1);
      next := next + 1;
    }
  }

  method TokenEnd(s: string, start: nat) returns (next: nat)
    requires start <= |s|
    ensures next == start + IndexOf(s[start..], SLASH)
  {
    next := start;
    while next < |s| && s[next] != SLASH
      invariant start <= next <= |s| && IndexOf(s[start..], SLASH) == next - start + IndexOf(s[next..], SLASH)
    {
      RestOfRest(s, next, 1);
      next := next + 1;
    }
  }

  lemma RestOfRest(s: string, i: nat, k: nat)
    requires i + k <= |s|
    ensures s[i..][k..] == s[i + k..] && s[i..][..k] == s[i..i + k]
  {
  }

  /** The token array both path functions fill. */
  method SplitTokens(s: string) returns (tokens: array<string>, count: nat)
    ensures fresh(tokens) && count < tokens.Length == MAX_TOKENS
    ensures tokens[..count] == Limit(Tokens(s))
  {
    tokens := new string[MAX_TOKENS];
    count := 0;
    var tok, pos := StrTok(s, 0);
    assert s[0..] == s;
    while tok.Some? && count < MAX_TOKENS - 1
      invariant 0 <= pos <= |s| && count < MAX_TOKENS
      invariant Tokens(s) == tokens[..count] + (if tok.None? then [] else [tok.value] + Tokens(s[pos..]))
      decreases MAX_TOKENS - count
    {
      ghost var before, rest := tokens[..count], Tokens(s[pos..]);
      tokens[count] := tok.value;
      count := count + 1;
      assert tokens[..count] == before + [tok.value];
      Assoc(before, [tok.value], rest);
      tok, pos := StrTok(s, pos);
    }
    if tok.Some? {
      assert tokens[..count] == Limit(Tokens(s));
    }
  }

  /** gen_path: the path is rewritten in its own buffer.  `overran` is set, and nothing
      more is promised, where the code writes past the buffer's end. */
  method GenPath(path: array<char>, dir: bool, ghost text: string) returns (overran: bool)
    requires Holds(path, text)
    modifies path
    ensures overran <==> |Gen(text, dir)| >= path.Length
    ensures !overran ==> Holds(path, Gen(text, dir))
  {
    var abspath := TextOf(path, text);
    var tokens, count := SplitTokens(abspath);
    TokensAreNames(text);
    TakeNames(Tokens(text), MAX_TOKENS - 1);
    var outtokens, pathpos := Fold(tokens, count);
    TokensAreClean(text);
    ReduceIsClean([], Limit(Tokens(text)));
    overran := PutJoined(path, outtokens[..pathpos], dir);
  }

  /** The loop that removes any single . and .. */
  method Fold(tokens: array<string>, count: nat) returns (outtokens: array<string>, pathpos: nat)
    requires count < tokens.Length == MAX_TOKENS && Names(tokens[..count])
    ensures fresh(outtokens) && pathpos <= outtokens.Length
    ensures outtokens[..pathpos] == Reduce([], tokens[..count])
  {
    outtokens := new string[MAX_TOKENS];
    pathpos := 0;
    ghost var ts := tokens[..count];
    for token := 0 to count
      invariant pathpos <= token && tokens[..count] == ts && Names(ts[token..])
      invariant Reduce([], ts) == Reduce(outtokens[..pathpos], ts[token..])
    {
      ghost var stack := outtokens[..pathpos];
      assert ts[token..][1..] == ts[token + 1..] && ts[token] == tokens[token];
      if tokens[token] == "." {
      } else if tokens[token] == ".." {
        if pathpos > 0 {
          pathpos := pathpos - 1;
        }
      } else {
        outtokens[pathpos] := tokens[token];
        pathpos := pathpos + 1;
      }
      assert outtokens[..pathpos] == Push(stack, ts[token]);
    }
  }

  /** The components hold no NUL. */
  predicate Clean(ts: seq<string>) {
    forall t <- ts :: NUL !in t
  }

  lemma {:induction false} TokensAreClean(s: string)
    requires NUL !in s
    ensures Clean(Tokens(s))
    decreases |s|
  {
    if s != "" {
      TokensAreClean(s[if s[0] == SLASH then 1 else IndexOf(s, SLASH)..]);
    }
  }

  lemma {:induction false} ReduceIsClean(stack: seq<string>, ts: seq<string>)
    requires Clean(stack) && Clean(ts)
    ensures Clean(Reduce(stack, ts))
    decreases |ts|
  {
    if ts != [] {
      ReduceIsClean(Push(stack, ts[0]), ts[1..]);
    }
  }

  /** The loop that strings the components together with strcat. */
  method PutJoined(path: array<char>, ts: seq<string>, dir: bool) returns (overran: bool)
    requires Clean(ts)
    modifies path
    ensures overran <==> |Join(ts, dir)| >= path.Length
    ensures !overran ==> Holds(path, Join(ts, dir))
  {
    if path.Length < 2 {
      return true;
    }
    StrCpy(path, "/");
    var len := 1;
    ghost var t := "/";
    for token := 0 to |ts|
      invariant Holds(path, t) && len == |t| && t + Parts(ts[token..], dir) == Join(ts, dir)
    {
      var slash := dir || token < |ts| - 1;
      ghost var ending, more := Ending(ts[token..], dir), Parts(ts[token + 1..], dir);
      assert ts[token..][1..] == ts[token + 1..];
      Assoc(t, ts[token], ending + more);
      Assoc(t + ts[token], ending, more);
      var added := |ts[token]| + if slash then 1 else 0;
      if len + added >= path.Length {
        return true;
      }
      StrCat(path, ts[token], t);
      if slash {
        StrCat(path, "/", t + ts[token]);
      } else {
        assert t + ts[token] + "" == t + ts[token];
      }
      t := t + ts[token] + ending;
      len := len + added;
    }
    assert t + "" == t;
    overran := false;
  }

  method CalcRating(str1: string, str2: string) returns (rating: nat)
    ensures rating == Rating(str1, str2)
  {
    rating := 0;
    var i := 0;
    while i < |str1| && i < |str2|
      invariant i <= |str1| && i <= |str2|
      invariant Rating(str1, str2) == rating + Rating(str1[i..], str2[i..])
    {
      assert str1[i..][1..] == str1[i + 1..] && str2[i..][1..] == str2[i + 1..];
      if str1[i] == str2[i] {
        rating := rating + 1;
      }
      i := i + 1;
    }
  }

  /** find_nocase: the token is replaced by the entry found. */
  method FindNoCase(fs: Listing, rootdir: string, relpath: string, token: string) returns (ret: bool, found: string)
    ensures var m := Lookup(fs, rootdir + relpath, token);
            ret == m.Some? && found == if m.Some? then m.value else token
  {
    ret, found := false, token;
    var abspath := rootdir + relpath;
    if |abspath| > PATH_MAX {
      return;
    }
    var dir := fs(if |abspath| == PATH_MAX then abspath[..PATH_MAX - 1] else abspath);
    if dir.None? {
      return;
    }
    var rating: int := -1;
    var i, match_ := 0, "";
    while i < |dir.value|
      invariant 0 <= i <= |dir.value|
      invariant Best(dir.value[..i], token) == if ret then Some(match_) else None
      invariant rating == if ret then Rating(token, match_) else -1
    {
      assert dir.value[..i + 1][..i] == dir.value[..i];
      if SameName(dir.value[i], token) {
        var tmp := CalcRating(token, dir.value[i]);
        if tmp > rating {
          match_, rating := dir.value[i], tmp;
        }
        ret := true;
      }
      i := i + 1;
    }
    assert dir.value[..i] == dir.value;
    if ret {
      found := match_;
    }
  }

  lemma {:induction false} PartsSnoc(ts: seq<string>, t: string, dir: bool)
    ensures Parts(ts + [t], dir) == Parts(ts, true) + (t + if dir then "/" else "")
    decreases |ts|
  {
    if ts == [] {
      assert ts + [t] == [t];
      assert Parts([t], dir) == t + (Ending([t], dir) + "");
    } else {
      assert (ts + [t])[1..] == ts[1..] + [t];
      PartsSnoc(ts[1..], t, dir);
      Assoc(ts[0], "/" + Parts(ts[1..], true), t + if dir then "/" else "");
      Assoc("/", Parts(ts[1..], true), t + if dir then "/" else "");
    }
  }

  lemma JoinSnoc(ts: seq<string>, t: string, dir: bool)
    ensures Join(ts + [t], dir) == if dir then Join(ts, true) + t + "/" else Join(ts, true) + t
  {
    PartsSnoc(ts, t, dir);
    Assoc("/", Parts(ts, true), t + if dir then "/" else "");
    Assoc(Join(ts, true), t, "/");
  }

  /** make_nocase: replaced by what is on disk, or left as is when a component that is not
      the last is missing there. */
  method MakeNoCase(fs: Listing, rootdir: string, path: array<char>, dir: bool, ghost text: string)
    requires Holds(path, text) && |NoCase(fs, rootdir, text, dir)| < path.Length
    requires NUL !in NoCase(fs, rootdir, text, dir)
    modifies path
    ensures Holds(path, NoCase(fs, rootdir, text, dir))
  {
    var abspath := TextOf(path, text);
    var tokens, count := SplitTokens(abspath);
    var retpath := "/";
    ghost var ts, done := tokens[..count], [];
    var token := 0;
    while token < count
      invariant token <= count && tokens[..count] == ts == Limit(Tokens(text)) && Holds(path, text)
      invariant retpath == Join(done, dir || token < count || count == 0)
      invariant Matched(fs, rootdir, [], ts) == Matched(fs, rootdir, done, ts[token..])
    {
      assert ts[token..][1..] == ts[token + 1..] && ts[token..][0] == tokens[token];
      var hit, found := FindNoCase(fs, rootdir, retpath, tokens[token]);
      if !hit {
        if token < count - 1 {
          assert Matched(fs, rootdir, done, ts[token..]) == None;
          break;
        }
        assert ts[token..] == [found];
        assert Matched(fs, rootdir, done, [found]) == Some(done + [found]);
      }
      JoinSnoc(done, found, dir || token < count - 1);
      done := done + [found];
      retpath := retpath + found;
      if dir || token < count - 1 {
        retpath := retpath + "/";
      }
      token := token + 1;
    }
    assert token < count ==> NoCase(fs, rootdir, text, dir) == text;
    if token == count {
      assert NoCase(fs, rootdir, text, dir) == Join(done, dir);
      StrCpy(path, retpath);
    }
  }

  // ---- the buffers of make_path ----

  lemma {:induction false} PartsAreClean(ts: seq<string>, dir: bool)
    requires Clean(ts)
    ensures NUL !in Parts(ts, dir)
    decreases |ts|
  {
    if ts != [] {
      PartsAreClean(ts[1..], dir);
    }
  }

  lemma {:induction false} PartsEnd(ts: seq<string>)
    ensures var p := "/" + Parts(ts, true); p[|p| - 1] == SLASH
    decreases |ts|
  {
    if ts != [] {
      PartsEnd(ts[1..]);
      Assoc(ts[0], "/", Parts(ts[1..], true));
    }
  }

  lemma {:induction false} AlikeSize(ts: seq<string>, us: seq<string>)
    requires Alike(ts, us) && Clean(us)
    ensures Clean(ts) && Weight(ts) == Weight(us)
    decreases |ts|
  {
    if ts != [] {
      var n := |ts| - 1;
      AlikeSize(ts[..n], us[..n]);
      SameLength(ts[n], us[n]);
      SameNameKeepsPlainChars(ts[n], us[n], NUL);
      assert ts == ts[..n] + [ts[n]] && us == us[..n] + [us[n]];
      WeightSnoc(ts[..n], ts[n]);
      WeightSnoc(us[..n], us[n]);
    }
  }

  lemma GenIsClean(s: string, dir: bool)
    requires NUL !in s
    ensures NUL !in Gen(s, dir) && Clean(Reduce([], Limit(Tokens(s))))
    ensures dir ==> Gen(s, dir)[|Gen(s, dir)| - 1] == SLASH
  {
    TokensAreClean(s);
    ReduceIsClean([], Limit(Tokens(s)));
    PartsAreClean(Reduce([], Limit(Tokens(s))), dir);
    PartsEnd(Reduce([], Limit(Tokens(s))));
  }

  /** Matching ignoring case keeps the length, the end and the absence of NULs. */
  lemma NoCaseKeepsShape(fs: Listing, root: string, s: string, dir: bool)
    requires NUL !in s
    ensures var g := Gen(s, dir);
            var h := NoCase(fs, root, g, dir);
            |h| == |g| && NUL !in h && (dir ==> h[|h| - 1] == SLASH)
  {
    var ts := Reduce([], Limit(Tokens(s)));
    GenIsClean(s, dir);
    GenComponents(s, dir);
    MatchedIsAlike(fs, root, [], [], ts);
    assert [] + ts == ts && Limit(ts) == ts;
    var r := Matched(fs, root, [], ts);
    if r.Some? {
      JoinKeepsShape(r.value, ts, dir);
    }
  }

  lemma JoinKeepsShape(ts: seq<string>, us: seq<string>, dir: bool)
    requires Alike(ts, us) && Clean(us)
    ensures var h := Join(ts, dir);
            |h| == |Join(us, dir)| && NUL !in h && (dir ==> h[|h| - 1] == SLASH)
  {
    AlikeSize(ts, us);
    PartsWeight(ts, dir);
    PartsWeight(us, dir);
    PartsAreClean(ts, dir);
    PartsEnd(ts);
  }

  method TurnSlashes(a: array<char>, len: nat, ghost s: string)
    requires Holds(a, s) && len == |s|
    modifies a
    ensures Holds(a, Slashes(s))
  {
    for i := 0 to len
      invariant forall k :: 0 <= k < len ==> a[k] == if k < i then Slashes(s)[k] else s[k]
      invariant a[len] == NUL
    {
      if a[i] == '\\' {
        a[i] := SLASH;
      }
    }
  }

  lemma HostPathFits(c: Config, d: HostDrive, path: string, dir: bool)
    requires NUL !in d.currdir && NUL !in path
    ensures var g := Gen(Unfolded(c, d, path), dir);
            var h := HostPath(c, d, path, dir);
            |h| == |g| && NUL !in h && (dir ==> h[|h| - 1] == SLASH)
  {
    var was := Unfolded(c, d, path);
    assert NUL !in Slashes(d.currdir + path);
    GenIsClean(was, dir);
    NoCaseKeepsShape(c.fs, d.rootdir, was, dir);
  }

  /** What gen_path is given first: the current directory and the path. */
  function Unfolded(c: Config, d: HostDrive, path: string): string {
    if c.msslash then Slashes(d.currdir + path) else d.currdir + path
  }

  /** gen_path runs over the end of the buffer, which make_path does not check. */
  predicate Overruns(c: Config, drives: seq<HostDrive>, drive: nat, path: string, dir: bool) {
    && drive < |drives| && |drives[drive].currdir + path| < PATH_MAX
    && |Gen(Unfolded(c, drives[drive], path), dir)| >= PATH_MAX
  }

  /** It can happen only in the last two places, for a missing first or last slash. */
  lemma OverrunsOnlyAtTheEnd(c: Config, drives: seq<HostDrive>, drive: nat, path: string, dir: bool)
    requires Overruns(c, drives, drive, path, dir)
    ensures var s := Unfolded(c, drives[drive], path);
            |s| + Growth(s, dir) >= PATH_MAX && Growth(s, dir) > 0 && PATH_MAX - 2 <= |s| < PATH_MAX
  {
    GenFits(Unfolded(c, drives[drive], path), dir);
  }

  /** Whatever fits the buffers with room for two slashes is mapped. */
  lemma ShortPathsAreMapped(c: Config, drives: seq<HostDrive>, drive: nat, path: string, dir: bool)
    requires drive < |drives| && NUL !in drives[drive].currdir && NUL !in path
    requires |drives[drive].rootdir| + |drives[drive].currdir| + |path| + 3 < PATH_MAX
    ensures MakePath(c, drives, drive, path, dir).Some?
  {
    HostPathFits(c, drives[drive], path, dir);
    GenFits(Unfolded(c, drives[drive], path), dir);
  }

  /** A directory of 4094 characters below "/" does it. */
  lemma LongDirectoryOverruns(fs: Listing, root: string)
    ensures var d, name := HostDrive(root, "/"), seq(PATH_MAX - 2, _ => 'a');
            Overruns(Config(false, false, fs), [d], 0, name, true)
  {
    var name: string := seq(PATH_MAX - 2, _ => 'a');
    assert name[0] == 'a';
    NameGrows(name, true);
  }

  /** make_path: 0 and the host's path, or -1 for a drive that does not exist and for
      lengths the buffers cannot hold.  The root is absolute.  `overran` is set, and
      nothing more is promised, where gen_path runs over the end of its buffer. */
  method MakePathInto(c: Config, drives: seq<HostDrive>, drive: nat, path: string, retpath: array<char>, dir: bool)
    returns (ret: int, overran: bool)
    requires |drives| == MAX_HOSTDRIVES && retpath.Length == PATH_MAX && NUL !in path
    requires forall d <- drives :: NUL !in d.rootdir && NUL !in d.currdir && d.rootdir != "" && d.rootdir[0] == SLASH
    modifies retpath
    ensures overran <==> Overruns(c, drives, drive, path, dir)
    ensures !overran ==> ret == if MakePath(c, drives, drive, path, dir).Some? then 0 else -1
    ensures !overran && ret == 0 ==> Holds(retpath, MakePath(c, drives, drive, path, dir).value)
  {
    ret, overran := -1, false;
    if drive >= MAX_HOSTDRIVES {
      return;
    }
    var d := drives[drive];
    var hostpath := new char[PATH_MAX];
    var text := d.currdir + path;
    if |text| >= PATH_MAX {
      return;
    }
    HostPathFits(c, d, path, dir);
    StrCpy(hostpath, text);
    ghost var was := Unfolded(c, d, path);
    if c.msslash {
      TurnSlashes(hostpath, |text|, text);
    }
    overran := GenPath(hostpath, dir, was);
    if overran {
      return;
    }
    if c.nocase {
      MakeNoCase(c.fs, d.rootdir, hostpath, dir, Gen(was, dir));
    }
    var host := TextOf(hostpath, HostPath(c, d, path, dir));
    var full := d.rootdir + ("/" + host);
    if |full| >= PATH_MAX {
      return;
    }
    StrCpy(retpath, full);
    GenFits(full, dir);
    overran := GenPath(retpath, dir, full);
    ret := 0;
  }
}
