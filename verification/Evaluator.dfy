/** The address expressions of psplink/decodeaddr.c.

    parse_line is a function of the text in front of it and of what it has pending: an
    operator, '*' and '~' signs not yet applied, and the value so far.  Printing an
    expression tree and parsing the text gives the meaning of the tree. */
module Evaluator {
  import opened Options
  import opened Bits
  import opened Chars
  import opened Sequences
  import opened CStrings

  /** What the parser asks of the device: registers of the last exception, memory and the
      attributes of its areas, module and thread addresses, symbols with their sizes. */
  datatype Env = Env(
    reg: string -> Option<u32>,
    validate: u32 -> int,
    lw: u32 -> u32,
    modaddr: string -> Option<u32>,
    threadaddr: string -> Option<u32>,
    symbol: string -> (u32, u32))

  datatype Operator =
    | OpStart | OpNone
    | OpPlus | OpMinus | OpAnd | OpOr | OpXor | OpShl | OpShr | OpLand | OpLor
    | OpNeq | OpEq | OpLt | OpLeq | OpGt | OpGeq | OpMul | OpDiv

  // ---- operators ----

  function Bool(b: bool): u32 {
    if b then 1 else 0
  }

  /** A shift takes the low five bits of its count, as SLLV and SRLV do. */
  function Count(right: u32): nat {
    right % 32
  }

  function Quotient(l: u32, d: u32): u32
    requires d > 0
  {
    DivisionFits(l, d);
    l / d
  }

  function Combine(op: Operator, left: u32, right: u32): u32 {
    match op
    case OpPlus => Wrap(left + right)
    case OpMinus => Wrap(left - right)
    case OpAnd => Bitwise(Both, left, right)
    case OpOr => Bitwise(Either, left, right)
    case OpXor => Bitwise(OneOf, left, right)
    case OpShl => ShiftLeft(left, Count(right))
    case OpShr => ShiftRight(left, Count(right))
    case OpLand => Bool(left != 0 && right != 0)
    case OpLor => Bool(left != 0 || right != 0)
    case OpNeq => Bool(left != right)
    case OpEq => Bool(left == right)
    case OpLt => Bool(left < right)
    case OpLeq => Bool(left <= right)
    case OpGt => Bool(left > right)
    case OpGeq => Bool(left >= right)
    case OpMul => Wrap(left * right)
    case OpDiv => if right != 0 then Quotient(left, right) else 1
    case OpStart => right
    case OpNone => right
  }

  /** Sums wrap, and subtraction takes an addition back. */
  lemma ArithmeticMeans(left: u32, right: u32)
    ensures Combine(OpPlus, left, right) == if left + right < 0x1_0000_0000 then left + right else left + right - 0x1_0000_0000
    ensures Combine(OpMinus, Combine(OpPlus, left, right), right) == left
    ensures Combine(OpPlus, Combine(OpMinus, left, right), right) == left
  {
  }

  /** A product is right modulo 2^32, and a quotient the largest that fits. */
  lemma ProductsMean(left: u32, right: u32)
    ensures (left * right - Combine(OpMul, left, right)) % 0x1_0000_0000 == 0
    ensures right > 0 ==> var q := Combine(OpDiv, left, right); q * right <= left < q * right + right
  {
    WrapDiffers(left * right);
    if right > 0 {
      DivisionFits(left, right);
    }
  }

  /** The comparisons answer 0 or 1 and order the words: a difference of 0 is equality, and
      a word is below another if it holds it no whole time. */
  lemma ComparisonsMean(left: u32, right: u32)
    ensures Combine(OpEq, left, right) == 1 <==> Combine(OpMinus, left, right) == 0
    ensures right > 0 ==> (Combine(OpLt, left, right) == 1 <==> Combine(OpDiv, left, right) == 0)
    ensures right == 0 ==> Combine(OpLt, left, right) == 0
    ensures Combine(OpLt, left, right) + Combine(OpEq, left, right) + Combine(OpGt, left, right) == 1
    ensures Combine(OpNeq, left, right) == Combine(OpLt, left, right) + Combine(OpGt, left, right)
    ensures Combine(OpLeq, left, right) == Combine(OpLt, left, right) + Combine(OpEq, left, right)
    ensures Combine(OpGeq, left, right) == Combine(OpGt, left, right) + Combine(OpEq, left, right)
  {
    if right > 0 {
      DivisionFits(left, right);
      BelowIsNoTime(left, right);
    }
  }

  lemma BelowIsNoTime(l: nat, d: nat)
    requires d > 0
    ensures l / d == 0 <==> l < d
  {
  }

  /** && and || are those of C, division by zero gives 1, and an operand without an operator
      in front of it is itself. */
  lemma TruthsMean(left: u32, right: u32)
    ensures Combine(OpLand, left, right) == Combine(OpNeq, left, 0) * Combine(OpNeq, right, 0)
    ensures Combine(OpLor, left, right) == 1 - Combine(OpLand, Combine(OpEq, left, 0), Combine(OpEq, right, 0))
    ensures Combine(OpDiv, left, 0) == 1
    ensures Combine(OpStart, left, right) == Combine(OpNone, left, right) == right
  {
  }

  /** The logical operators work bit by bit. */
  lemma BitsMean(left: u32, right: u32, i: nat)
    requires i < 32
    ensures Bit(Combine(OpAnd, left, right), i) <==> Bit(left, i) && Bit(right, i)
    ensures Bit(Combine(OpOr, left, right), i) <==> Bit(left, i) || Bit(right, i)
    ensures Bit(Combine(OpXor, left, right), i) <==> Bit(left, i) != Bit(right, i)
    ensures Bit(Flip(1, right), i) <==> !Bit(right, i)
  {
    BitwiseAt(Both, left, right, 32, i);
    BitwiseAt(Either, left, right, 32, i);
    BitwiseAt(OneOf, left, right, 32, i);
    Complement(right, i);
  }

  lemma Complement(v: u32, i: nat)
    requires i < 32
    ensures Bit(Flip(1, v), i) <==> !Bit(v, i)
  {
    Powers();
    NotAt(v, 32, i);
    assert Flip(1, v) == Not(Flip(0, v)) == PowerOf2(32) - 1 - v;
  }

  /** The shifts move bits by the number of places. */
  lemma ShiftsMean(left: u32, right: u32, i: nat)
    requires i < 32
    ensures Bit(Combine(OpShl, left, right), i) <==> i >= right % 32 && Bit(left, i - right % 32)
    ensures Bit(Combine(OpShr, left, right), i) <==> Bit(left, i + right % 32)
  {
    ShiftLeftAt(left, Count(right), i);
    ShiftRightAt(left, Count(right), i);
  }

  function Flip(n: nat, v: u32): u32 {
    if n == 0 then v else Not(Flip(n - 1, v))
  }

  method DoOp(op: Operator, nots: nat, left: u32, right: u32) returns (ret: u32)
    ensures ret == Combine(op, left, Flip(nots, right))
  {
    var r := right;
    for i := 0 to nots
      invariant r == Flip(i, right)
    {
      r := Not(r);
    }
    ret := Combine(op, left, r);
  }

  predicate Loadable(env: Env, v: u32) {
    v % 4 == 0 && env.validate(v) >= 4
  }

  function Load(env: Env, v: Option<u32>): Option<u32> {
    if v.Some? && Loadable(env, v.value) then Some(env.lw(v.value)) else None
  }

  function Deref(env: Env, n: nat, v: u32): Option<u32> {
    if n == 0 then Some(v) else Load(env, Deref(env, n - 1, v))
  }

  method DerefAddr(env: Env, val: u32, deref: nat) returns (r: Option<u32>)
    ensures r == Deref(env, deref, val)
  {
    var v := val;
    for i := 0 to deref
      invariant Deref(env, i, val) == Some(v)
    {
      if v % 4 != 0 || env.validate(v) < 4 {
        DerefStaysNone(env, i + 1, deref, val);
        return None;
      }
      v := env.lw(v);
    }
    r := Some(v);
  }

  lemma {:induction false} DerefStaysNone(env: Env, n: nat, m: nat, v: u32)
    requires n <= m && Deref(env, n, v).None?
    ensures Deref(env, m, v).None?
    decreases m
  {
    if n < m {
      DerefStaysNone(env, n, m - 1, v);
    }
  }

  // ---- numbers ----

  function DigitRun(s: string, base: nat): (n: nat)
    ensures n <= |s|
  {
    if s == "" || !IsDigit(s[0], base) then 0 else 1 + DigitRun(s[1..], base)
  }

  function Digits(s: string, base: nat): nat {
    if s == "" then 0
    else Digits(s[..|s| - 1], base) * base + if IsHex(s[|s| - 1]) then DigitValue(s[|s| - 1]) else 0
  }

  /** strtoul saturates. */
  function Saturate(n: nat): u32 {
    if n < 0x1_0000_0000 then n else 0xFFFF_FFFF
  }

  /** The base strtoul picks, and how much of the text says so. */
  function BaseOf(s: string): (nat, nat) {
    if |s| > 2 && s[0] == '0' && (s[1] == 'x' || s[1] == 'X') && IsHex(s[2]) then (16, 2)
    else if s != "" && s[0] == '0' then (8, 0)
    else (10, 0)
  }

  /** strtoul(line, &endp, 0): the value and the text behind it. */
  function Number(s: string): (r: (u32, string))
    ensures |r.1| <= |s|
  {
    var (base, skip) := BaseOf(s);
    var n := DigitRun(s[skip..], base);
    (Saturate(Digits(s[skip..][..n], base)), s[skip..][n..])
  }

  // ---- names and brackets ----

  function AlnumRun(s: string, most: nat): (n: nat)
    ensures n <= |s|
  {
    if most == 0 || s == "" || !IsAlnum(s[0]) then 0 else 1 + AlnumRun(s[1..], most - 1)
  }

  /** The index of the bracket that closes the `depth` open ones, or |s|. */
  function Closing(s: string, depth: nat): (k: nat)
    ensures k <= |s|
  {
    if s == "" then 0
    else if s[0] == '(' then 1 + Closing(s[1..], depth + 1)
    else if s[0] == ')' then (if depth <= 1 then 0 else 1 + Closing(s[1..], depth - 1))
    else 1 + Closing(s[1..], depth)
  }

  // ---- the parser ----

  /** What parse_line holds between two turns. */
  datatype Pending = Pending(op: Operator, deref: nat, nots: nat, val: u32)

  const Fresh := Pending(OpStart, 0, 0, 0)

  predicate StartsAtom(c: char) {
    c == '$' || c == '@' || c == '%' || c == '?' || c == '(' || IsHex(c)
  }

  function Symbol(env: Env, name: string): Option<u32> {
    var size := name != "" && name[0] == '`';
    var (addr, bytes) := env.symbol(if size then name[1..] else name);
    if addr == 0 then None else Some(if size then bytes else addr)
  }

  function Named(env: Env, c: char, name: string): Option<u32> {
    if c == '@' then env.modaddr(name)
    else if c == '%' then env.threadaddr(name)
    else Symbol(env, name)
  }

  /** A register, a number or a name between its marks: its value and the text behind it. */
  function Word(env: Env, s: string, op: Operator): (r: Option<(u32, string)>)
    requires s != "" && StartsAtom(s[0]) && s[0] != '('
    ensures r.Some? ==> |r.value.1| < |s| || (|r.value.1| == |s| && op != OpNone)
  {
    var rest := s[1..];
    if s[0] == '$' then
      var n := AlnumRun(rest, 15);
      match env.reg(rest[..n])
      case None => None
      case Some(v) => Some((v, rest[n..]))
    else if IsHex(s[0]) then
      if op == OpNone then None
      else Some(Number(s))
    else
      var k := IndexOf(rest, s[0]);
      if k == |rest| then None
      else
        match Named(env, s[0], rest[..k])
        case None => None
        case Some(v) => Some((v, rest[k + 1..]))
  }

  /** A word or a group in brackets. */
  function Atom(env: Env, s: string, op: Operator): (r: Option<(u32, string)>)
    requires s != "" && StartsAtom(s[0])
    ensures r.Some? ==> |r.value.1| < |s| || (|r.value.1| == |s| && op != OpNone)
    decreases |s|, 0
  {
    if s[0] != '(' then Word(env, s, op)
    else
      var rest := s[1..];
      var k := Closing(rest, 1);
      if k == |rest| then None
      else
        match Run(env, rest[..k], Fresh)
        case None => None
        case Some(v) => Some((v, rest[k + 1..]))
  }

  /** The operator a character and the one behind it spell, and its length. */
  function OperatorAt(c: char, next: char): (r: Option<(Operator, nat)>)
    ensures r.Some? ==> (r.value.1 == 1 || (r.value.1 == 2 && next != NUL)) && r.value.0 != OpNone
  {
    match c
    case '+' => Some((OpPlus, 1))
    case '-' => Some((OpMinus, 1))
    case '&' => if next == '&' then Some((OpLand, 2)) else Some((OpAnd, 1))
    case '|' => if next == '|' then Some((OpLor, 2)) else Some((OpOr, 1))
    case '^' => Some((OpXor, 1))
    case '=' => if next == '=' then Some((OpEq, 2)) else None
    case '!' => if next == '=' then Some((OpNeq, 2)) else None
    case '<' => if next == '<' then Some((OpShl, 2)) else if next == '=' then Some((OpLeq, 2)) else Some((OpLt, 1))
    case '>' => if next == '>' then Some((OpShr, 2)) else if next == '=' then Some((OpGeq, 2)) else Some((OpGt, 1))
    case '*' => Some((OpMul, 1))
    case '/' => Some((OpDiv, 1))
    case _ => None
  }

  function Second(s: string): char {
    if |s| > 1 then s[1] else NUL
  }

  /** The pending signs and operator meet an atom's value. */
  function Settle(env: Env, p: Pending, temp: u32): Option<Pending> {
    match Deref(env, p.deref, temp)
    case None => None
    case Some(v) => Some(Pending(OpNone, 0, 0, Combine(p.op, p.val, Flip(p.nots, v))))
  }

  /** parse_line from the text `s` on. */
  function Run(env: Env, s: string, p: Pending): Option<u32>
    decreases |s|, if p.op == OpNone then 1 else 2
  {
    if s == "" then Some(p.val)
    else if IsSpace(s[0]) then Run(env, s[1..], p)
    else if s[0] == '*' && p.op != OpNone then Run(env, s[1..], p.(deref := p.deref + 1))
    else if s[0] == '~' then Run(env, s[1..], p.(nots := p.nots + 1))
    else if StartsAtom(s[0]) then
      match Atom(env, s, p.op)
      case None => None
      case Some((temp, rest)) =>
        match Settle(env, p, temp)
        case None => None
        case Some(q) => Run(env, rest, q)
    else if p.op != OpNone then None
    else
      match OperatorAt(s[0], Second(s))
      case None => None
      case Some((op, n)) => Run(env, s[n..], p.(op := op))
  }

  /** memDecode: the first 1023 characters. */
  function MemDecode(env: Env, line: string): Option<u32> {
    Run(env, if |line| > 1023 then line[..1023] else line, Fresh)
  }

  /** A name between two marks is looked up, and what stands behind it is left. */
  lemma ReadsName(env: Env, mark: char, name: string, more: string, op: Operator)
    requires mark in {'@', '%', '?'} && mark !in name
    ensures var r, value := Word(env, [mark] + (name + ([mark] + more)), op), Named(env, mark, name);
            r == if value.Some? then Some((value.value, more)) else None
  {
    FirstMark(name, mark, more);
    CutAt([mark], name + ([mark] + more));
  }

  /** '@' marks a module, '%' a thread and '?' a symbol, of which a '`' in front of the name
      takes the size; address 0 means that there is no such symbol. */
  lemma NamesMean(env: Env, name: string)
    ensures Named(env, '@', name) == env.modaddr(name) && Named(env, '%', name) == env.threadaddr(name)
    ensures var (addr, size) := env.symbol(name);
            && (name == "" || name[0] != '`' ==> Named(env, '?', name) == if addr != 0 then Some(addr) else None)
            && Named(env, '?', "`" + name) == if addr != 0 then Some(size) else None
  {
    CutAt("`", name);
  }

  lemma {:induction false} FirstMark(name: string, mark: char, more: string)
    requires mark !in name
    ensures var s := name + ([mark] + more);
            IndexOf(s, mark) == |name| < |s| && s[..|name|] == name && s[|name| + 1..] == more
    decreases |name|
  {
    var s := name + ([mark] + more);
    if name != "" {
      assert s[1..] == name[1..] + ([mark] + more);
      FirstMark(name[1..], mark, more);
    }
  }

  // ---- the code ----

  /** The characters of a register name, 15 at most. */
  method CopyName(a: array<char>, line: nat, ghost rest: string) returns (buf: string, next: nat)
    requires TextAt(a, line, rest)
    ensures var n := AlnumRun(rest, 15); next == line + n && buf == rest[..n]
  {
    buf, next := "", line;
    ghost var pos := 0;
    while |buf| < 15 && IsAlnum(a[next])
      invariant pos == |buf| <= |rest| && pos <= 15 && next == line + pos && buf == rest[..pos]
      invariant AlnumRun(rest, 15) == pos + AlnumRun(rest[pos..], 15 - pos)
    {
      assert pos < |rest| && a[next] == rest[pos] && rest[pos..][1..] == rest[pos + 1..];
      buf := buf + [a[next]];
      next := next + 1;
      pos := pos + 1;
    }
    assert pos < |rest| ==> a[next] == rest[pos];
  }

  /** The scan for the end of the brackets. */
  method FindClosing(a: array<char>, line: nat, ghost rest: string) returns (pos: nat, depth: nat)
    requires TextAt(a, line, rest)
    ensures pos == line + Closing(rest, 1) && (depth == 0 <==> pos < line + |rest|)
  {
    pos, depth := line, 1;
    ghost var k := 0;
    while a[pos] != NUL
      invariant k <= |rest| && pos == line + k && depth > 0
      invariant Closing(rest, 1) == k + Closing(rest[k..], depth)
      decreases |rest| - k
    {
      assert a[pos] == rest[k] && rest[k..][1..] == rest[k + 1..];
      if a[pos] == '(' {
        depth := depth + 1;
      } else if a[pos] == ')' {
        depth := depth - 1;
        if depth == 0 {
          break;
        }
      }
      pos := pos + 1;
      k := k + 1;
    }
    assert k < |rest| ==> a[pos] == rest[k];
  }

  /** The text at a + at, as a library call is given it. */
  method TextFrom(a: array<char>, at: nat, ghost s: string) returns (t: string)
    requires TextAt(a, at, s)
    ensures t == s
  {
    var n := at;
    while a[n] != NUL
      invariant at <= n <= at + |s| && a[n] == (s + [NUL])[n - at]
      decreases at + |s| - n
    {
      n := n + 1;
      assert n - at < |s| ==> a[n] == s[n - at];
    }
    t := a[at..n];
  }

  /** One atom.  A group's closing bracket and a name's closing mark become NULs; nothing
      outside the text is written. */
  method ReadAtom(env: Env, a: array<char>, line: nat, op: Operator, ghost s: string) returns (r: Option<(u32, nat)>)
    requires TextAt(a, line, s) && s != "" && StartsAtom(s[0])
    modifies a
    ensures var t := Atom(env, s, op);
            && (r.None? <==> t.None?)
            && (r.Some? ==>
                  && r.value.0 == t.value.0 && line <= r.value.1 && r.value.1 + |t.value.1| == line + |s|
                  && TextAt(a, r.value.1, t.value.1))
    ensures forall i :: 0 <= i < a.Length && !(line <= i < line + |s|) ==> a[i] == old(a[i])
    decreases |s|, 0
  {
    ghost var rest := s[1..];
    assert a[line] == s[0];
    if a[line] == '(' {
      Advance(a, line, s, 1);
      r := ReadGroup(env, a, line + 1, rest);
    } else {
      r := ReadWord(env, a, line, op, s);
    }
  }

  /** A word; the closing mark of a name becomes a NUL. */
  method ReadWord(env: Env, a: array<char>, line: nat, op: Operator, ghost s: string) returns (r: Option<(u32, nat)>)
    requires TextAt(a, line, s) && s != "" && StartsAtom(s[0]) && s[0] != '('
    modifies a
    ensures var t := Word(env, s, op);
            && (r.None? <==> t.None?)
            && (r.Some? ==>
                  && r.value.0 == t.value.0 && line <= r.value.1 && r.value.1 + |t.value.1| == line + |s|
                  && TextAt(a, r.value.1, t.value.1))
    ensures forall i :: 0 <= i < a.Length && !(line <= i < line + |s|) ==> a[i] == old(a[i])
  {
    ghost var rest := s[1..];
    assert a[line] == s[0];
    Advance(a, line, s, 1);
    if a[line] == '$' {
      r := ReadRegister(env, a, line + 1, rest);
    } else if IsHex(a[line]) {
      if op == OpNone {
        return None;
      }
      r := ReadNumber(a, line, s);
    } else {
      r := ReadNamed(env, a, a[line], line + 1, rest);
    }
  }

  method ReadRegister(env: Env, a: array<char>, line: nat, ghost rest: string) returns (r: Option<(u32, nat)>)
    requires TextAt(a, line, rest)
    ensures var n := AlnumRun(rest, 15);
            if env.reg(rest[..n]).None? then r.None?
            else r == Some((env.reg(rest[..n]).value, line + n)) && TextAt(a, line + n, rest[n..])
  {
    var buf, next := CopyName(a, line, rest);
    Advance(a, line, rest, next - line);
    var reg := env.reg(buf);
    r := if reg.None? then None else Some((reg.value, next));
  }

  /** strtoul. */
  method ReadNumber(a: array<char>, line: nat, ghost s: string) returns (r: Option<(u32, nat)>)
    requires TextAt(a, line, s)
    ensures var (value, behind) := Number(s);
            && r.Some? && r.value.0 == value && r.value.1 + |behind| == line + |s|
            && TextAt(a, r.value.1, behind)
  {
    var text := TextFrom(a, line, s);
    var (value, behind) := Number(text);
    NumberIsSuffix(s);
    Advance(a, line, s, |text| - |behind|);
    r := Some((value, line + (|text| - |behind|)));
  }

  /** What stands between two marks. */
  method ReadNamed(env: Env, a: array<char>, mark: char, line: nat, ghost rest: string) returns (r: Option<(u32, nat)>)
    requires TextAt(a, line, rest) && mark != NUL
    modifies a
    ensures var k := IndexOf(rest, mark);
            if k == |rest| || Named(env, mark, rest[..k]).None? then r.None?
            else
              && r.Some? && r.value.0 == Named(env, mark, rest[..k]).value
              && r.value.1 == line + k + 1 && TextAt(a, r.value.1, rest[k + 1..])
    ensures forall i :: 0 <= i < a.Length && !(line <= i < line + |rest|) ==> a[i] == old(a[i])
  {
    var endp := StrChr(a, line, mark, rest);
    if endp < 0 {
      return None;
    }
    ghost var k := endp - line;
    Advance(a, line, rest, k + 1);
    a[endp] := NUL;
    assert a[line..endp] == rest[..k];
    var value := Named(env, mark, a[line..endp]);
    r := if value.None? then None else Some((value.value, endp + 1));
  }

  /** The text in brackets is parsed on its own. */
  method ReadGroup(env: Env, a: array<char>, line: nat, ghost rest: string) returns (r: Option<(u32, nat)>)
    requires TextAt(a, line, rest)
    modifies a
    ensures var k := Closing(rest, 1);
            if k == |rest| || Run(env, rest[..k], Fresh).None? then r.None?
            else
              && r.Some? && r.value.0 == Run(env, rest[..k], Fresh).value
              && r.value.1 == line + k + 1 && TextAt(a, r.value.1, rest[k + 1..])
    ensures forall i :: 0 <= i < a.Length && !(line <= i < line + |rest|) ==> a[i] == old(a[i])
    decreases |rest|, 3
  {
    var pos, depth := FindClosing(a, line, rest);
    if depth != 0 {
      return None;
    }
    ghost var k := pos - line;
    Advance(a, line, rest, k + 1);
    a[pos] := NUL;
    var inner := ParseLine(env, a, line, rest[..k]);
    r := if inner.None? then None else Some((inner.value, pos + 1));
  }

  lemma NumberIsSuffix(s: string)
    ensures var behind := Number(s).1; behind == s[|s| - |behind|..]
  {
    var (base, skip) := BaseOf(s);
    var n := DigitRun(s[skip..], base);
    assert s[skip..][n..] == s[skip + n..];
  }

  /** One or two characters of an operator. */
  method ReadOperator(a: array<char>, line: nat, ghost s: string) returns (r: Option<(Operator, nat)>)
    requires TextAt(a, line, s) && s != ""
    ensures r == OperatorAt(s[0], Second(s))
    ensures r.Some? ==> r.value.1 <= |s| && TextAt(a, line + r.value.1, s[r.value.1..])
  {
    assert a[line] == s[0] && a[line + 1] == Second(s);
    r := OperatorAt(a[line], a[line + 1]);
    if r.Some? {
      Advance(a, line, s, r.value.1);
    }
  }

  /** An atom, its dereferences and the pending operator. */
  method TakeOperand(env: Env, a: array<char>, line: nat, op: Operator, deref: nat, nots: nat, val: u32, ghost s: string)
    returns (r: Option<(u32, nat)>)
    requires TextAt(a, line, s) && s != "" && StartsAtom(s[0])
    modifies a
    ensures var t, p := Atom(env, s, op), Pending(op, deref, nots, val);
            if t.None? || Settle(env, p, t.value.0).None? then r.None?
            else
              && r.Some? && Settle(env, p, t.value.0) == Some(Pending(OpNone, 0, 0, r.value.0))
              && line <= r.value.1 && r.value.1 + |t.value.1| == line + |s| && TextAt(a, r.value.1, t.value.1)
    ensures forall i :: 0 <= i < a.Length && !(line <= i < line + |s|) ==> a[i] == old(a[i])
    decreases |s|, 1
  {
    var atom := ReadAtom(env, a, line, op, s);
    if atom.None? {
      return None;
    }
    var temp := DerefAddr(env, atom.value.0, deref);
    if temp.None? {
      return None;
    }
    var result := DoOp(op, nots, val, temp.value);
    r := Some((result, atom.value.1));
  }

  /** parse_line: the value of the text, or failure; only the text itself is written. */
  method ParseLine(env: Env, a: array<char>, start: nat, ghost s: string) returns (r: Option<u32>)
    requires TextAt(a, start, s)
    modifies a
    ensures r == Run(env, s, Fresh)
    ensures forall i :: 0 <= i < a.Length && !(start <= i < start + |s|) ==> a[i] == old(a[i])
    decreases |s|, 2
  {
    var line, op, deref, nots, val: u32 := start, OpStart, 0, 0, 0;
    ghost var rest := s;
    while a[line] != NUL
      invariant start <= line && line + |rest| == start + |s| && TextAt(a, line, rest)
      invariant 0 <= deref && 0 <= nots
      invariant Run(env, s, Fresh) == Run(env, rest, Pending(op, deref, nots, val))
      invariant forall i :: 0 <= i < a.Length && !(start <= i < start + |s|) ==> a[i] == old(a[i])
      decreases |rest|, if op == OpNone then 1 else 2
    {
      ghost var p := Pending(op, deref, nots, val);
      assert rest != "" && a[line] == rest[0];
      if IsSpace(a[line]) || (a[line] == '*' && op != OpNone) || a[line] == '~' {
        deref := if a[line] == '*' then deref + 1 else deref;
        nots := if a[line] == '~' then nots + 1 else nots;
        Advance(a, line, rest, 1);
        line, rest := line + 1, rest[1..];
      } else if StartsAtom(a[line]) {
        AtomStep(env, rest, p);
        ghost var t := Atom(env, rest, op);
        var done := TakeOperand(env, a, line, op, deref, nots, val, rest);
        if done.None? {
          return None;
        }
        val, op, deref, nots := done.value.0, OpNone, 0, 0;
        line, rest := done.value.1, t.value.1;
      } else if op != OpNone {
        return None;
      } else {
        var found := ReadOperator(a, line, rest);
        if found.None? {
          return None;
        }
        op := found.value.0;
        line, rest := line + found.value.1, rest[found.value.1..];
      }
    }
    r := Some(val);
  }

  lemma AtomStep(env: Env, s: string, p: Pending)
    requires s != "" && StartsAtom(s[0])
    ensures var a := Atom(env, s, p.op);
            && (a.None? ==> Run(env, s, p).None?)
            && (a.Some? ==>
                  var q := Settle(env, p, a.value.0);
                  Run(env, s, p) == if q.None? then None else Run(env, a.value.1, q.value))
  {
  }

  /** memDecode: the line is cut to its buffer before it is parsed. */
  method MemDecodeLine(env: Env, line: string) returns (r: Option<u32>)
    requires NUL !in line
    ensures r == MemDecode(env, line)
  {
    var lineBuf := new char[1024];
    var text := if |line| > 1023 then line[..1023] else line;
    StrCpy(lineBuf, text);
    assert "" + text == text;
    HoldsTextAt(lineBuf, "", text);
    r := ParseLine(env, lineBuf, 0, text);
  }

  // ---- expression trees ----

  datatype Expr =
    | One(operand: Operand)
    | Bin(left: Expr, op: Operator, right: Operand)

  /** Signs, outermost first, in front of an atom. */
  datatype Operand = Operand(signs: string, term: Term)

  datatype Term =
    | Num(digits: string)
    | Reg(name: string)
    | Group(e: Expr)

  predicate AllHex(s: string) {
    forall i :: 0 <= i < |s| ==> IsHex(s[i])
  }

  predicate AllAlnum(s: string) {
    forall i :: 0 <= i < |s| ==> IsAlnum(s[i])
  }

  predicate AllSigns(s: string) {
    forall i :: 0 <= i < |s| ==> s[i] == '*' || s[i] == '~'
  }

  predicate WellFormed(e: Expr) {
    match e
    case One(x) => GoodOperand(x)
    case Bin(l, op, r) => WellFormed(l) && op != OpStart && op != OpNone && GoodOperand(r)
  }

  predicate GoodOperand(x: Operand) {
    AllSigns(x.signs) && GoodTerm(x.term)
  }

  predicate GoodTerm(t: Term) {
    match t
    case Num(ds) => ds != "" && AllHex(ds)
    case Reg(name) => |name| <= 15 && AllAlnum(name)
    case Group(e) => WellFormed(e)
  }

  function OpText(op: Operator): string {
    match op
    case OpPlus => "+"
    case OpMinus => "-"
    case OpAnd => "&"
    case OpOr => "|"
    case OpXor => "^"
    case OpShl => "<<"
    case OpShr => ">>"
    case OpLand => "&&"
    case OpLor => "||"
    case OpNeq => "!="
    case OpEq => "=="
    case OpLt => "<"
    case OpLeq => "<="
    case OpGt => ">"
    case OpGeq => ">="
    case OpMul => "*"
    case OpDiv => "/"
    case OpStart => ""
    case OpNone => ""
  }

  /** The text of a tree, with `more` behind it. */
  function Print(e: Expr, more: string): string {
    match e
    case One(x) => PrintOperand(x, more)
    case Bin(l, op, r) => Print(l, OpText(op) + PrintOperand(r, more))
  }

  function PrintOperand(x: Operand, more: string): string {
    x.signs + PrintTerm(x.term, more)
  }

  function PrintTerm(t: Term, more: string): string {
    match t
    case Num(ds) => "0x" + (ds + more)
    case Reg(name) => "$" + (name + more)
    case Group(e) => "(" + Print(e, ")" + more)
  }

  // ---- what a tree means ----

  function Stars(signs: string): nat {
    if signs == "" then 0 else (if signs[0] == '*' then 1 else 0) + Stars(signs[1..])
  }

  function Tildes(signs: string): nat {
    if signs == "" then 0 else (if signs[0] == '~' then 1 else 0) + Tildes(signs[1..])
  }

  /** All dereferences first, then all complements. */
  function Signed(env: Env, signs: string, v: Option<u32>): Option<u32> {
    if v.None? then None
    else
      match Deref(env, Stars(signs), v.value)
      case None => None
      case Some(w) => Some(Flip(Tildes(signs), w))
  }

  function TermMeaning(env: Env, t: Term): Option<u32> {
    match t
    case Num(ds) => Some(Saturate(Digits(ds, 16)))
    case Reg(name) => env.reg(name)
    case Group(e) => Meaning(env, e)
  }

  function OperandMeaning(env: Env, x: Operand): Option<u32> {
    Signed(env, x.signs, TermMeaning(env, x.term))
  }

  function Meaning(env: Env, e: Expr): Option<u32> {
    match e
    case One(x) => OperandMeaning(env, x)
    case Bin(l, op, r) =>
      match (Meaning(env, l), OperandMeaning(env, r))
      case (Some(v), Some(w)) => Some(Combine(op, v, w))
      case _ => None
  }

  // ---- printing and parsing ----

  /** Nothing that would lengthen the name or number in front. */
  predicate Ends(more: string) {
    more == "" || !IsAlnum(more[0])
  }

  lemma {:induction false} AlnumStops(name: string, more: string, most: nat)
    requires AllAlnum(name) && |name| <= most && Ends(more)
    ensures AlnumRun(name + more, most) == |name|
    decreases |name|
  {
    if name == "" {
      assert name + more == more;
    } else {
      assert (name + more)[1..] == name[1..] + more;
      AlnumStops(name[1..], more, most - 1);
    }
  }

  predicate AllDigits(s: string, base: nat) {
    forall i :: 0 <= i < |s| ==> IsDigit(s[i], base)
  }

  lemma {:induction false} DigitsStop(ds: string, more: string, base: nat)
    requires AllDigits(ds, base) && Ends(more)
    ensures DigitRun(ds + more, base) == |ds|
    decreases |ds|
  {
    if ds == "" {
      assert ds + more == more;
    } else {
      assert (ds + more)[1..] == ds[1..] + more;
      DigitsStop(ds[1..], more, base);
    }
  }

  lemma ReadsDigits(ds: string, more: string, base: nat)
    requires AllDigits(ds, base) && Ends(more)
    ensures var s := ds + more; var n := DigitRun(s, base);
            Digits(s[..n], base) == Digits(ds, base) && s[n..] == more
  {
    DigitsStop(ds, more, base);
    CutAt(ds, more);
  }

  lemma CutAt(s: string, t: string)
    ensures (s + t)[..|s|] == s && (s + t)[|s|..] == t
  {
  }

  lemma ReadsNumber(ds: string, more: string)
    requires ds != "" && AllHex(ds) && Ends(more)
    ensures Number("0x" + (ds + more)) == (Saturate(Digits(ds, 16)), more)
  {
    var s := "0x" + (ds + more);
    CutAt("0x", ds + more);
    assert s[2] == ds[0];
    ReadsDigits(ds, more, 16);
  }

  lemma {:induction false} ReadsSigns(env: Env, signs: string, more: string, p: Pending)
    requires AllSigns(signs) && p.op != OpNone
    ensures Run(env, signs + more, p)
            == Run(env, more, p.(deref := p.deref + Stars(signs), nots := p.nots + Tildes(signs)))
    decreases |signs|
  {
    if signs == "" {
      assert signs + more == more;
    } else {
      assert (signs + more)[1..] == signs[1..] + more;
      ReadsSigns(env, signs[1..], more, if signs[0] == '*' then p.(deref := p.deref + 1) else p.(nots := p.nots + 1));
    }
  }

  /** What may follow an operator: none of these makes a longer one of it. */
  predicate StartsOperand(s: string) {
    s != "" && (s[0] == '*' || s[0] == '~' || s[0] == '0' || s[0] == '$' || s[0] == '(')
  }

  lemma OperandStarts(x: Operand, more: string)
    requires GoodOperand(x)
    ensures StartsOperand(PrintOperand(x, more))
  {
  }

  lemma ReadsOperator(env: Env, op: Operator, more: string, v: u32)
    requires op != OpStart && op != OpNone && StartsOperand(more)
    ensures Run(env, OpText(op) + more, Pending(OpNone, 0, 0, v)) == Run(env, more, Pending(op, 0, 0, v))
    ensures Ends(OpText(op) + more)
  {
    FindsOperator(op, more);
    CutAt(OpText(op), more);
  }

  lemma FindsOperator(op: Operator, more: string)
    requires op != OpStart && op != OpNone && StartsOperand(more)
    ensures var s := OpText(op) + more;
            && s != "" && OperatorAt(s[0], Second(s)) == Some((op, |OpText(op)|))
            && !IsSpace(s[0]) && s[0] != '~' && !StartsAtom(s[0]) && !IsAlnum(s[0])
  {
    var s, text := OpText(op) + more, OpText(op);
    assert s[0] == text[0];
    assert s[1] == if |text| == 2 then text[1] else more[0];
  }

  // ---- brackets ----

  lemma {:induction false} ScanPlain(s: string, more: string, depth: nat)
    requires '(' !in s && ')' !in s
    ensures Closing(s + more, depth) == |s| + Closing(more, depth)
    decreases |s|
  {
    if s == "" {
      assert s + more == more;
    } else {
      assert (s + more)[1..] == s[1..] + more;
      ScanPlain(s[1..], more, depth);
    }
  }

  /** The brackets of a printed tree close each other. */
  lemma {:induction false} ScanTree(e: Expr, more: string, depth: nat)
    requires WellFormed(e) && depth > 0
    ensures |more| <= |Print(e, more)|
    ensures Closing(Print(e, more), depth) == |Print(e, more)| - |more| + Closing(more, depth)
    decreases e
  {
    match e
    case One(x) => ScanOperand(x, more, depth);
    case Bin(l, op, r) =>
      ScanTree(l, OpText(op) + PrintOperand(r, more), depth);
      ScanPlain(OpText(op), PrintOperand(r, more), depth);
      ScanOperand(r, more, depth);
  }

  lemma {:induction false} ScanOperand(x: Operand, more: string, depth: nat)
    requires GoodOperand(x) && depth > 0
    ensures |more| <= |PrintOperand(x, more)|
    ensures Closing(PrintOperand(x, more), depth) == |PrintOperand(x, more)| - |more| + Closing(more, depth)
    decreases x
  {
    ScanPlain(x.signs, PrintTerm(x.term, more), depth);
    match x.term
    case Num(ds) =>
      ScanPlain("0x", ds + more, depth);
      ScanPlain(ds, more, depth);
    case Reg(name) =>
      ScanPlain("$", name + more, depth);
      ScanPlain(name, more, depth);
    case Group(e) =>
      var inner := Print(e, ")" + more);
      ScanTree(e, ")" + more, depth + 1);
      assert ("(" + inner)[1..] == inner && (")" + more)[1..] == more;
  }

  /** The text behind a printed tree can be split off. */
  lemma {:induction false} PrintThenMore(e: Expr, more: string)
    ensures Print(e, more) == Print(e, "") + more
    decreases e
  {
    match e
    case One(x) => OperandThenMore(x, more);
    case Bin(l, op, r) =>
      OperandThenMore(r, more);
      var right := PrintOperand(r, "");
      PrintThenMore(l, OpText(op) + PrintOperand(r, more));
      PrintThenMore(l, OpText(op) + right);
      Assoc(OpText(op), right, more);
      Assoc(Print(l, ""), OpText(op) + right, more);
  }

  lemma {:induction false} OperandThenMore(x: Operand, more: string)
    ensures PrintOperand(x, more) == PrintOperand(x, "") + more
    decreases x
  {
    TermThenMore(x.term, more);
    Assoc(x.signs, PrintTerm(x.term, ""), more);
  }

  lemma {:induction false} TermThenMore(t: Term, more: string)
    ensures PrintTerm(t, more) == PrintTerm(t, "") + more
    decreases t
  {
    match t
    case Num(ds) =>
      assert ds + "" == ds;
      Assoc("0x", ds, more);
    case Reg(name) =>
      assert name + "" == name;
      Assoc("$", name, more);
    case Group(e) =>
      PrintThenMore(e, ")" + more);
      PrintThenMore(e, ")");
      assert ")" + "" == ")";
      Assoc(Print(e, ""), ")", more);
      Assoc("(", Print(e, "") + ")", more);
  }

  // ---- the evaluator is right ----

  /** A printed term is read as its meaning, and nothing behind it is touched. */
  lemma {:induction false} ReadsTerm(env: Env, t: Term, more: string, op: Operator)
    requires GoodTerm(t) && Ends(more) && op != OpNone
    ensures var s := PrintTerm(t, more);
            && s != "" && StartsAtom(s[0])
            && Atom(env, s, op) == match TermMeaning(env, t) case None => None case Some(v) => Some((v, more))
    decreases t
  {
    var s := PrintTerm(t, more);
    match t
    case Num(ds) => ReadsNumber(ds, more);
    case Reg(name) =>
      CutAt("$", name + more);
      AlnumStops(name, more, 15);
      CutAt(name, more);
    case Group(e) =>
      FindsGroup(e, more);
      ReadsTree(env, e, "");
  }

  /** The brackets of a group enclose its text. */
  lemma FindsGroup(e: Expr, more: string)
    requires WellFormed(e)
    ensures var rest := PrintTerm(Group(e), more)[1..];
            var k := Closing(rest, 1);
            k < |rest| && rest[..k] == Print(e, "") && rest[k + 1..] == more
  {
    var rest := Print(e, ")" + more);
    CutAt("(", rest);
    ScanTree(e, ")" + more, 1);
    PrintThenMore(e, ")" + more);
    CutAt(Print(e, ""), ")" + more);
    CutAt(")", more);
    assert rest[|Print(e, "")|..][1..] == rest[|Print(e, "")| + 1..];
  }

  lemma {:induction false} ReadsOperand(env: Env, x: Operand, more: string, op: Operator, v: u32)
    requires GoodOperand(x) && Ends(more) && op != OpNone
    ensures Run(env, PrintOperand(x, more), Pending(op, 0, 0, v))
            == match OperandMeaning(env, x)
               case None => None
               case Some(w) => Run(env, more, Pending(OpNone, 0, 0, Combine(op, v, w)))
    decreases x
  {
    var t, p := PrintTerm(x.term, more), Pending(op, Stars(x.signs), Tildes(x.signs), v);
    ReadsSigns(env, x.signs, t, Pending(op, 0, 0, v));
    ReadsTerm(env, x.term, more, op);
    AtomStep(env, t, p);
  }

  /** A printed tree is read as its meaning. */
  lemma {:induction false} ReadsTree(env: Env, e: Expr, more: string)
    requires WellFormed(e) && Ends(more)
    ensures Run(env, Print(e, more), Fresh)
            == match Meaning(env, e)
               case None => None
               case Some(v) => Run(env, more, Pending(OpNone, 0, 0, v))
    decreases e
  {
    match e
    case One(x) => ReadsOperand(env, x, more, OpStart, 0);
    case Bin(l, op, r) =>
      OperandStarts(r, more);
      var right := PrintOperand(r, more);
      ReadsOperator(env, op, right, 0);
      ReadsTree(env, l, OpText(op) + right);
      if Meaning(env, l).Some? {
        var v := Meaning(env, l).value;
        ReadsOperator(env, op, right, v);
        ReadsOperand(env, r, more, op, v);
      }
  }

  /** memDecode of a printed tree gives the tree's meaning, or fails where it has none. */
  lemma DecodesPrinted(env: Env, e: Expr)
    requires WellFormed(e) && |Print(e, "")| <= 1023
    ensures MemDecode(env, Print(e, "")) == Meaning(env, e)
  {
    ReadsTree(env, e, "");
  }

  // ---- signs in their written order ----

  /** The signs applied from the inside out, as they are written. */
  function InsideOut(env: Env, signs: string, v: u32): Option<u32> {
    if signs == "" then Some(v)
    else
      var inner := InsideOut(env, signs[1..], v);
      if signs[0] == '*' then Load(env, inner)
      else if inner.Some? then Some(Not(inner.value))
      else None
  }

  /** How many '~' stand in front. */
  function Lead(signs: string): nat {
    if signs == "" || signs[0] == '*' then 0 else 1 + Lead(signs[1..])
  }

  /** Behind every '*' comes an even number of '~' before the next '*' or the atom. */
  predicate EvenGaps(signs: string) {
    signs == "" || (EvenGaps(signs[1..]) && (signs[0] == '*' ==> Lead(signs[1..]) % 2 == 0))
  }

  lemma {:induction false} FlipParity(n: nat, v: u32)
    ensures n % 2 == 0 ==> Flip(n, v) == v
    ensures n % 2 == 1 ==> Flip(n, v) == Not(v)
  {
    if n >= 2 {
      FlipParity(n - 2, v);
    }
  }

  lemma {:induction false} EvenGapsParity(signs: string)
    requires AllSigns(signs) && EvenGaps(signs)
    ensures Tildes(signs) % 2 == Lead(signs) % 2
  {
    if signs != "" {
      EvenGapsParity(signs[1..]);
    }
  }

  lemma {:induction false} GapsDecide(env: Env, signs: string, v: u32)
    requires AllSigns(signs)
    ensures EvenGaps(signs) ==> InsideOut(env, signs, v) == Signed(env, signs, Some(v))
    ensures !EvenGaps(signs) ==> InsideOut(env, signs, v).None? || Signed(env, signs, Some(v)).None?
    decreases |signs|
  {
    if signs != "" {
      var rest := signs[1..];
      GapsDecide(env, rest, v);
      var w := Deref(env, Stars(rest), v);
      if w.Some? && EvenGaps(rest) {
        FlipParity(Tildes(rest), w.value);
        FlipParity(Tildes(rest), env.lw(w.value));
        EvenGapsParity(rest);
      }
      if signs[0] == '*' {
        assert Stars(signs) == Stars(rest) + 1 && Tildes(signs) == Tildes(rest);
      } else {
        assert Stars(signs) == Stars(rest) && Tildes(signs) == Tildes(rest) + 1;
      }
    }
  }

  /** The parser and the written order agree exactly when no '*' has an odd number of '~'
      behind it, or both fail; otherwise one of them dereferences an unaligned address. */
  lemma WrittenOrderExactly(env: Env, signs: string, v: u32)
    requires AllSigns(signs)
    ensures InsideOut(env, signs, v) == Signed(env, signs, Some(v)) <==>
              EvenGaps(signs) || (InsideOut(env, signs, v).None? && Signed(env, signs, Some(v)).None?)
  {
    GapsDecide(env, signs, v);
  }

  /** "*~3" has a value in the written order where 0xFFFFFFFC can be read, and the parser
      refuses it. */
  lemma ParserRefusesWrittenOrder(env: Env)
    requires Loadable(env, 0xFFFF_FFFC)
    ensures InsideOut(env, "*~", 3).Some? && Signed(env, "*~", Some(3)).None?
  {
    assert "*~"[1..] == "~" && "~"[1..] == "";
    assert Stars("~") == 0 && Stars("*~") == 1;
    assert Deref(env, 0, 3) == Some(3);
    assert InsideOut(env, "", 3) == Some(3) && InsideOut(env, "~", 3) == Some(0xFFFF_FFFC);
  }

  /** A number in octal, decimal or hexadecimal, as a caller would write it. */
  function Numeral(n: nat, base: nat): (ds: string)
    requires base in {8, 10, 16}
    ensures ds != "" && AllDigits(ds, base) && (n > 0 ==> ds[0] != '0')
  {
    if n < base then [DigitFor(n)]
    else
      FewerDigits(n, base);
      Numeral(n / base, base) + [DigitFor(n % base)]
  }

  lemma FewerDigits(n: nat, base: nat)
    requires base in {8, 10, 16} && n >= base
    ensures 0 < n / base < n && n / base * base + n % base == n && n % base < base
  {
    assert n / 8 < n && n / 10 < n && n / 16 < n;
  }

  lemma {:induction false} NumeralsReadBack(n: nat, base: nat)
    requires base in {8, 10, 16}
    ensures Digits(Numeral(n, base), base) == n
  {
    var ds := Numeral(n, base);
    if n < base {
      assert ds[..0] == "";
    } else {
      FewerDigits(n, base);
      NumeralsReadBack(n / base, base);
      assert ds[..|ds| - 1] == Numeral(n / base, base) && ds[|ds| - 1] == DigitFor(n % base);
    }
  }

  /** Decimal and octal texts are read in their base, up to what stands behind them, and
      saturate at 2^32 - 1. */
  lemma OtherBases(n: nat, more: string)
    requires n > 0 && Ends(more)
    ensures Number(Numeral(n, 10) + more) == (Saturate(n), more)
    ensures Number("0" + Numeral(n, 8) + more) == (Saturate(n), more)
  {
    NumeralsReadBack(n, 10);
    NumeralsReadBack(n, 8);
    LeadingZero(Numeral(n, 8), 8);
    ReadsDecimal(Numeral(n, 10), more);
    ReadsOctal("0" + Numeral(n, 8), more);
  }

  lemma ReadsDecimal(ds: string, more: string)
    requires ds != "" && AllDigits(ds, 10) && ds[0] != '0' && Ends(more)
    ensures Number(ds + more) == (Saturate(Digits(ds, 10)), more)
  {
    var s := ds + more;
    assert s[0] == ds[0] && s[0..] == s;
    ReadsDigits(ds, more, 10);
  }

  lemma ReadsOctal(ds: string, more: string)
    requires |ds| > 1 && AllDigits(ds, 8) && ds[0] == '0' && Ends(more)
    ensures Number(ds + more) == (Saturate(Digits(ds, 8)), more)
  {
    var s := ds + more;
    assert s[0] == ds[0] && s[1] == ds[1] && s[0..] == s;
    ReadsDigits(ds, more, 8);
  }

  lemma {:induction false} LeadingZero(ds: string, base: nat)
    ensures Digits("0" + ds, base) == Digits(ds, base)
    decreases |ds|
  {
    if ds == "" {
      assert ("0" + ds)[..0] == "";
    } else {
      assert ("0" + ds)[..|ds|] == "0" + ds[..|ds| - 1];
      LeadingZero(ds[..|ds| - 1], base);
    }
  }

  /** Every 32-bit number can be written and means itself. */
  lemma NumbersMeanThemselves(env: Env, n: u32)
    ensures TermMeaning(env, Num(Numeral(n, 16))) == Some(n) && GoodTerm(Num(Numeral(n, 16)))
  {
    NumeralsReadBack(n, 16);
  }

  /** Registers are known and every dereference meets an aligned, readable word. */
  predicate Reachable(env: Env, e: Expr) {
    match e
    case One(x) => OperandReachable(env, x)
    case Bin(l, _, r) => Reachable(env, l) && OperandReachable(env, r)
  }

  predicate OperandReachable(env: Env, x: Operand) {
    && match x.term {
         case Num(_) => true
         case Reg(name) => env.reg(name).Some?
         case Group(e) => Reachable(env, e)
       }
    && var v := TermMeaning(env, x.term);
       v.Some? ==> AllLoadable(env, Stars(x.signs), v.value)
  }

  /** Each of the n addresses loaded from one after the other can be loaded from. */
  predicate AllLoadable(env: Env, n: nat, v: u32) {
    forall i :: 0 <= i < n ==> Deref(env, i, v).Some? && Loadable(env, Deref(env, i, v).value)
  }

  lemma {:induction false} DerefExactly(env: Env, n: nat, v: u32)
    ensures Deref(env, n, v).Some? <==> AllLoadable(env, n, v)
  {
    if n > 0 {
      DerefExactly(env, n - 1, v);
    }
  }

  /** A tree has a meaning exactly when nothing it looks up is missing. */
  lemma {:induction false} MeaningExactly(env: Env, e: Expr)
    ensures Meaning(env, e).Some? <==> Reachable(env, e)
    decreases e
  {
    match e
    case One(x) => OperandExactly(env, x);
    case Bin(l, _, r) =>
      MeaningExactly(env, l);
      OperandExactly(env, r);
  }

  lemma {:induction false} OperandExactly(env: Env, x: Operand)
    ensures OperandMeaning(env, x).Some? <==> OperandReachable(env, x)
    decreases x
  {
    if x.term.Group? {
      MeaningExactly(env, x.term.e);
    }
    var v := TermMeaning(env, x.term);
    if v.Some? {
      DerefExactly(env, Stars(x.signs), v.value);
      assert Deref(env, Stars(x.signs), v.value).Some? <==> OperandMeaning(env, x).Some?;
    }
  }

  /** The signs alone decide whether the parser and the written order agree everywhere. */
  lemma WrittenOrderEverywhereExactly(signs: string)
    requires AllSigns(signs)
    ensures EvenGaps(signs) <==> forall env: Env, v: u32 :: InsideOut(env, signs, v) == Signed(env, signs, Some(v))
  {
    if EvenGaps(signs) {
      forall env: Env, v: u32 ensures InsideOut(env, signs, v) == Signed(env, signs, Some(v)) {
        GapsDecide(env, signs, v);
      }
    } else {
      var env := ZeroMemory();
      GapsDecide(env, signs, 0);
      DerefZeros(Stars(signs));
      assert InsideOut(env, signs, 0) != Signed(env, signs, Some(0));
    }
  }

  /** Every word can be read and is 0. */
  function ZeroMemory(): Env {
    Env(_ => None, _ => 4, _ => 0, _ => None, _ => None, _ => (0, 0))
  }

  lemma {:induction false} DerefZeros(n: nat)
    ensures Deref(ZeroMemory(), n, 0) == Some(0)
  {
    if n > 0 {
      DerefZeros(n - 1);
    }
  }

  // ---- whole trees in their written order ----

  /** The meaning of a tree with every sign applied where it stands. */
  function WrittenMeaning(env: Env, e: Expr): Option<u32> {
    match e
    case One(x) => WrittenOperand(env, x)
    case Bin(l, op, r) =>
      match (WrittenMeaning(env, l), WrittenOperand(env, r))
      case (Some(v), Some(w)) => Some(Combine(op, v, w))
      case _ => None
  }

  function WrittenOperand(env: Env, x: Operand): Option<u32> {
    var v := match x.term
      case Num(ds) => Some(Saturate(Digits(ds, 16)))
      case Reg(name) => env.reg(name)
      case Group(e) => WrittenMeaning(env, e);
    if v.None? then None else InsideOut(env, x.signs, v.value)
  }

  predicate AllEven(e: Expr) {
    match e
    case One(x) => OperandEven(x)
    case Bin(l, _, r) => AllEven(l) && OperandEven(r)
  }

  predicate OperandEven(x: Operand) {
    EvenGaps(x.signs) && (x.term.Group? ==> AllEven(x.term.e))
  }

  /** A tree all of whose operands have even gaps means what is written. */
  lemma {:induction false} MeaningIsWritten(env: Env, e: Expr)
    requires WellFormed(e) && AllEven(e)
    ensures Meaning(env, e) == WrittenMeaning(env, e)
    decreases e
  {
    match e
    case One(x) => OperandIsWritten(env, x);
    case Bin(l, _, r) =>
      MeaningIsWritten(env, l);
      OperandIsWritten(env, r);
  }

  lemma {:induction false} OperandIsWritten(env: Env, x: Operand)
    requires GoodOperand(x) && OperandEven(x)
    ensures OperandMeaning(env, x) == WrittenOperand(env, x)
    decreases x
  {
    if x.term.Group? {
      MeaningIsWritten(env, x.term.e);
    }
    var v := TermMeaning(env, x.term);
    if v.Some? {
      GapsDecide(env, x.signs, v.value);
    }
  }

  /** So memDecode gives what is written, in every environment. */
  lemma DecodesAsWritten(env: Env, e: Expr)
    requires WellFormed(e) && AllEven(e) && |Print(e, "")| <= 1023
    ensures MemDecode(env, Print(e, "")) == WrittenMeaning(env, e)
  {
    DecodesPrinted(env, e);
    MeaningIsWritten(env, e);
  }
}
