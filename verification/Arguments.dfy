/** The command line and the argument stack of a new process (strtok_r in
    Project 2/src/lib/string.c, setup_stack in Project 2/src/userprog/process.c). */
module Arguments {
  import opened Machine
  import opened FsLayout

  type Text = seq<byte>

  // ----- tokens -----

  function LeadingDelimiters(s: Text, d: Text): (n: nat)
    ensures n <= |s| && (n < |s| ==> s[n] !in d) && forall i | 0 <= i < n :: s[i] in d
  {
    if s == [] || s[0] !in d then 0 else 1 + LeadingDelimiters(s[1..], d)
  }

  function TokenLength(s: Text, d: Text): (n: nat)
    ensures n <= |s| && (n < |s| ==> s[n] in d) && forall i | 0 <= i < n :: s[i] !in d
  {
    if s == [] || s[0] in d then 0 else 1 + TokenLength(s[1..], d)
  }

  /** The first stretch of s without a delimiter, and what follows the delimiter behind it. */
  function First(s: Text, d: Text): Text {
    var t := s[LeadingDelimiters(s, d)..];
    t[..TokenLength(t, d)]
  }

  function Rest(s: Text, d: Text): (r: Text)
    ensures |r| <= |s| && (s != [] ==> |r| < |s|)
  {
    var t := s[LeadingDelimiters(s, d)..];
    var n := TokenLength(t, d);
    if n < |t| then t[n + 1..] else []
  }

  /** All such stretches, in order. */
  function Tokens(s: Text, d: Text): seq<Text>
    decreases |s|
  {
    if LeadingDelimiters(s, d) == |s| then [] else [First(s, d)] + Tokens(Rest(s, d), d)
  }

  predicate Clean(t: Text, s: Text, d: Text) { t != [] && forall c | c in t :: c !in d && c in s }

  lemma FirstIsClean(s: Text, d: Text)
    requires LeadingDelimiters(s, d) < |s|
    ensures Clean(First(s, d), s, d) && forall c | c in Rest(s, d) :: c in s
  {
  }

  /** Tokens are not empty, and hold characters of the string but no delimiter. */
  lemma {:induction false} TokensAreClean(s: Text, d: Text)
    ensures forall t | t in Tokens(s, d) :: Clean(t, s, d)
    decreases |s|
  {
    if LeadingDelimiters(s, d) < |s| {
      FirstIsClean(s, d);
      TokensAreClean(Rest(s, d), d);
      hide First, Rest;
    }
  }

  /** A run of tokens that are separated by single delimiters is taken apart again. */
  lemma {:induction false} TokensOfJoined(t: Text, rest: Text, d: Text, sep: byte)
    requires t != [] && sep in d && forall c | c in t :: c !in d
    ensures Tokens(t + [sep] + rest, d) == [t] + Tokens(rest, d)
    ensures Tokens(t, d) == [t]
  {
    var s := t + [sep] + rest;
    assert s[0] == t[0] && t[0] in t;
    assert forall i | 0 <= i < |t| :: s[i] == t[i] && t[i] in t;
    SameLength(s, d, 0, |t|);
    SameLength(t, d, 0, |t|);
    assert s[0..] == s && t[0..] == t && s[..|t|] == t && t[..|t|] == t && s[|t| + 1..] == rest;
  }

  /** Delimiters in front of a token make no token, however many there are. */
  lemma DelimitersAreSkipped(s: Text, d: Text, sep: byte)
    requires sep in d
    ensures Tokens([sep] + s, d) == Tokens(s, d) && Tokens([], d) == []
  {
    var t := [sep] + s;
    assert t[1..] == s;
    assert LeadingDelimiters(t, d) == 1 + LeadingDelimiters(s, d);
    assert t[LeadingDelimiters(t, d)..] == s[LeadingDelimiters(s, d)..];
  }

  lemma SameLength(s: Text, d: Text, i: nat, n: nat)
    requires i + n <= |s| && (forall k | 0 <= k < i :: s[k] in d) && (i < |s| ==> s[i] !in d)
    requires (forall k | i <= k < i + n :: s[k] !in d) && (i + n < |s| ==> s[i + n] in d)
    ensures LeadingDelimiters(s, d) == i && TokenLength(s[i..], d) == n
  {
  }

  // ----- strings in memory -----

  /** A null-terminated string s at position p. */
  ghost predicate IsString(b: Text, p: nat, s: Text) {
    p + |s| < |b| && b[p + |s|] == 0 && forall k | 0 <= k < |s| :: b[p + k] == s[k] && s[k] != 0
  }

  lemma StringTail(b: Text, p: nat, s: Text, i: nat)
    requires IsString(b, p, s) && i <= |s|
    ensures IsString(b, p + i, s[i..])
  {
  }

  /** Overwriting a character of a string with a null character ends it there. */
  lemma StringCut(b: Text, p: nat, s: Text, i: nat)
    requires IsString(b, p, s) && i <= |s|
    ensures IsString(b[p + i := 0], p, s[..i])
    ensures i < |s| ==> IsString(b[p + i := 0], p + i + 1, s[i + 1..])
  {
  }

  /** A character buffer that holds a null-terminated string, and the position that strtok_r
      saves. */
  class Tokenizer {
    const buf: array<byte>
    var save: nat

    /** rest is the part of the string that has not been taken apart. */
    ghost var rest: Text

    ghost predicate Valid()
      reads this, buf
    {
      IsString(buf[..], save, rest)
    }

    constructor (b: array<byte>, ghost s: Text)
      requires IsString(b[..], 0, s)
      ensures buf == b && Valid() && save == 0 && rest == s
    {
      buf, save, rest := b, 0, s;
    }

    /** strtok_r with a null first argument: the next token, which it terminates in place. */
    method Strtok(d: Text) returns (r: Option<nat>, ghost token: Text)
      requires Valid() && 0 !in d
      modifies this`save, this`rest, buf
      ensures Valid() && save >= old(save) && buf[..old(save)] == old(buf[..save])
      ensures r.None? ==> Tokens(old(rest), d) == [] && Tokens(rest, d) == []
      ensures r.Some? ==> IsString(buf[..], r.value, token) && token != [] && |rest| < |old(rest)|
      ensures r.Some? ==> Tokens(old(rest), d) == [token] + Tokens(rest, d)
    {
      hide Tokens, First, Rest;
      ghost var s := rest;
      var p := SkipDelimiters(d);
      ghost var i := p - save;
      StringTail(buf[..], save, s, i);
      if buf[p] == 0 {
        NoTokens(s, d, i);
        save, rest, token := p, [], [];
        return None, [];
      }
      var start := p;
      ghost var t := s[i..];
      p := SkipToken(d, start, t);
      ghost var n := p - start;
      NextToken(s, d, i, n);
      token := t[..n];
      StringCut(buf[..], start, t, n);
      if buf[p] != 0 {
        buf[p] := 0;
        save, rest := p + 1, t[n + 1..];
      } else {
        StringTail(buf[..], start, t, n);
        assert t[..n] == t && buf[..][start + n := 0] == buf[..];
        save, rest := p, [];
      }
      r := Some(start);
    }

    /** The first loop of strtok_r. */
    method SkipDelimiters(d: Text) returns (p: nat)
      requires Valid() && 0 !in d
      ensures save <= p < buf.Length && p - save <= |rest| && forall k | 0 <= k < p - save :: rest[k] in d
      ensures buf[p] !in d && (buf[p] == 0 <==> p - save == |rest|) && (p - save < |rest| ==> buf[p] == rest[p - save])
    {
      p := save;
      while buf[p] in d
        invariant save <= p < buf.Length && p - save <= |rest| && forall k | 0 <= k < p - save :: rest[k] in d
        decreases buf.Length - p
      {
        p := p + 1;
      }
      assert p - save < |rest| ==> buf[p] == rest[p - save] && rest[p - save] != 0;
    }

    /** The second loop of strtok_r, from the first character of a token. */
    method SkipToken(d: Text, start: nat, ghost t: Text) returns (p: nat)
      requires IsString(buf[..], start, t) && buf[start] !in d && buf[start] != 0
      ensures start < p < buf.Length && p - start <= |t| && forall k | 0 <= k < p - start :: t[k] !in d
      ensures buf[p] in d || buf[p] == 0
      ensures (buf[p] == 0 <==> p - start == |t|) && (p - start < |t| ==> t[p - start] == buf[p])
    {
      p := start;
      while buf[p] !in d && buf[p] != 0
        invariant start <= p < buf.Length && p - start <= |t| && forall k | 0 <= k < p - start :: t[k] !in d
        invariant p == start ==> buf[p] !in d && buf[p] != 0
        decreases buf.Length - p
      {
        p := p + 1;
      }
      assert p - start < |t| ==> buf[p] == t[p - start] && t[p - start] != 0;
    }
  }

  lemma NoTokens(s: Text, d: Text, i: nat)
    requires i == |s| && forall k | 0 <= k < i :: s[k] in d
    ensures Tokens(s, d) == [] && Tokens([], d) == []
  {
    SameLength(s, d, i, 0);
  }

  lemma NextToken(s: Text, d: Text, i: nat, n: nat)
    requires 0 < n && i + n <= |s| && (forall k | 0 <= k < i :: s[k] in d) && s[i] !in d
    requires (forall k | i <= k < i + n :: s[k] !in d) && (i + n < |s| ==> s[i + n] in d)
    ensures var t := s[i..]; Tokens(s, d) == [t[..n]] + Tokens(if n < |t| then t[n + 1..] else [], d)
  {
    SameLength(s, d, i, n);
  }

  // ----- the argument stack -----

  const PGSIZE := 4096
  const STACK_BASE := 0xBFFF_F000    // the page below PHYS_BASE
  const ARGV_COUNTER := 4
  const BLANK: Text := [32]

  function StringsSize(args: seq<Text>): nat {
    if args == [] then 0 else |args[0]| + 1 + StringsSize(args[1..])
  }

  lemma {:induction false} StringsSizeAppend(a: seq<Text>, b: seq<Text>)
    ensures StringsSize(a + b) == StringsSize(a) + StringsSize(b)
  {
    if a == [] {
      assert a + b == b;
    } else {
      assert (a + b)[1..] == a[1..] + b;
      StringsSizeAppend(a[1..], b);
    }
  }

  /** What setup_stack pads: up to a multiple of 5, not of the word size. */
  function Padding(top: nat): nat { (STACK_BASE + top) % 5 }

  /** All of the arguments fit into the page. */
  predicate Fits(args: seq<Text>) {
    var n := StringsSize(args);
    n <= PGSIZE && n + Padding(PGSIZE - n) + 4 * |args| + 16 <= PGSIZE
  }

  /** Where the stack pointer ends up in the page. */
  function StackTop(args: seq<Text>): nat
    requires Fits(args)
  {
    var n := StringsSize(args); PGSIZE - n - Padding(PGSIZE - n) - 4 * |args| - 16
  }

  /** The final stack pointer is word-aligned exactly for some sizes of the strings. */
  lemma AlignedExactlyWhen(args: seq<Text>)
    requires Fits(args)
    ensures (STACK_BASE + StackTop(args)) % 4 == 0 <==> 8 <= StringsSize(args) % 20 <= 12
  {
    var n := StringsSize(args);
    var m := n + Padding(PGSIZE - n);
    TopIs(args);
    hide Fits, StringsSize, StackTop, Padding;
    PaddedTo(n);
    NextTwo(n, m);
    FourLess(0x3000_0000 - |args| - 4, m);
  }

  lemma TopIs(args: seq<Text>)
    requires Fits(args)
    ensures var n := StringsSize(args); n <= PGSIZE && STACK_BASE + StackTop(args) == 4 * (0x3000_0000 - |args| - 4) - (n + Padding(PGSIZE - n))
  {
    hide Padding, StringsSize;
  }

  lemma FourLess(k: int, m: int)
    ensures (4 * k - m) % 4 == 0 <==> m % 4 == 0
  {
  }

  lemma PaddedTo(n: nat)
    requires n <= PGSIZE
    ensures (n + Padding(PGSIZE - n)) % 5 == 2 && 0 <= Padding(PGSIZE - n) < 5
  {
  }

  lemma NextTwo(n: nat, m: nat)
    requires m % 5 == 2 && n <= m < n + 5
    ensures m % 4 == 0 <==> 8 <= n % 20 <= 12
  {
    var q, r := m / 20, m % 20;
    assert m == 4 * (5 * q) + r && m == 5 * (4 * q) + r;
    assert r % 4 == m % 4 && r % 5 == 2;
    assert r in {2, 7, 12, 17};
    var d := m - n;
    assert n % 20 == if r >= d then r - d else r - d + 20 by { assert n == 20 * q + (r - d); }
  }

  /** A program name of one character, without arguments, leaves the stack pointer unaligned. */
  lemma PaddingIsNotAlignment()
    ensures Fits([[97]]) && (STACK_BASE + StackTop([[97]])) % 4 != 0
  {
    assert StringsSize([[97]]) == 2;
    AlignedExactlyWhen([[97]]);
  }

  ghost predicate WordAt(mem: Text, p: nat, v: int) {
    p + 4 <= |mem| && FromWord(mem[p..p + 4]) == v
  }

  /** The word at p is the address of the string s. */
  ghost predicate Points(mem: Text, p: nat, s: Text) {
    p + 4 <= |mem| && var a := FromWord(mem[p..p + 4]); a >= STACK_BASE && IsString(mem, a - STACK_BASE, s)
  }

  /** What the process finds from the stack pointer on: a return address of zero, argc, argv,
      and in argv the arguments followed by a null pointer. */
  ghost predicate StackOk(mem: Text, top: nat, args: seq<Text>) {
    && |mem| == PGSIZE && WordAt(mem, top, 0) && WordAt(mem, top + 4, |args|) && WordAt(mem, top + 8, STACK_BASE + top + 12)
    && (forall k | 0 <= k < |args| :: Points(mem, top + 12 + 4 * k, args[k]))
    && WordAt(mem, top + 12 + 4 * |args|, 0)
  }

  /** Memory from q on is the same. */
  ghost predicate SameAbove(mem: Text, mem': Text, q: nat) {
    |mem'| == |mem| && q <= |mem| && mem'[q..] == mem[q..]
  }

  lemma StringKept(mem: Text, mem': Text, q: nat, p: nat, s: Text)
    requires IsString(mem, p, s) && SameAbove(mem, mem', q) && q <= p
    ensures IsString(mem', p, s)
  {
    forall i | q <= i < |mem| ensures mem'[i] == mem[i] { assert mem'[q..][i - q] == mem[q..][i - q]; }
  }

  lemma WordKept(mem: Text, mem': Text, q: nat, p: nat)
    requires SameAbove(mem, mem', q) && q <= p && p + 4 <= |mem|
    ensures mem'[p..p + 4] == mem[p..p + 4]
  {
    assert mem'[p..p + 4] == mem'[q..][p - q..p - q + 4] && mem[p..p + 4] == mem[q..][p - q..p - q + 4];
  }

  lemma SameAboveTrans(a: Text, b: Text, c: Text, q: nat, p: nat)
    requires SameAbove(a, b, q) && SameAbove(b, c, p) && p <= q
    ensures SameAbove(a, c, q)
  {
    assert b[q..] == b[p..][q - p..] && c[q..] == c[p..][q - p..];
  }

  /** Moving the stack pointer down and copying bytes there. */
  method Push(mem: array<byte>, top: nat, bytes: Text) returns (newTop: nat)
    requires mem.Length == PGSIZE && |bytes| <= top <= PGSIZE
    modifies mem
    ensures newTop == top - |bytes| && mem[newTop..top] == bytes && SameAbove(old(mem[..]), mem[..], top)
  {
    newTop := top - |bytes|;
    for i := 0 to |bytes|
      invariant forall k | 0 <= k < i :: mem[newTop + k] == bytes[k]
      invariant forall k | newTop + i <= k < mem.Length :: mem[k] == old(mem[k])
    {
      mem[newTop + i] := bytes[i];
    }
  }

  method PushWord(mem: array<byte>, top: nat, v: u32) returns (newTop: nat)
    requires mem.Length == PGSIZE && 4 <= top <= PGSIZE
    modifies mem
    ensures newTop == top - 4 && WordAt(mem[..], newTop, v) && SameAbove(old(mem[..]), mem[..], top)
  {
    hide SameAbove;
    newTop := Push(mem, top, Word(v));
    assert mem[..][newTop..newTop + 4] == mem[newTop..top];
    WordRoundTrip(v);
  }

  lemma NullEnds(b: Text, p: nat, s: Text, n: nat)
    requires IsString(b, p, s) && n <= |s|
    ensures b[p + n] == 0 <==> n == |s|
  {
    if n < |s| { assert b[p + n] == s[n]; }
  }

  lemma SliceIsString(b: Text, p: nat, c: Text, q: nat, s: Text)
    requires IsString(b, p, s) && q + |s| + 1 <= |c| && c[q..q + |s| + 1] == b[p..p + |s| + 1]
    ensures IsString(c, q, s)
  {
    forall k | 0 <= k < |s| ensures c[q + k] == s[k] && s[k] != 0 { assert c[q..q + |s| + 1][k] == b[p..p + |s| + 1][k]; }
    assert c[q..q + |s| + 1][|s|] == b[p..p + |s| + 1][|s|];
  }

  method Strlen(buf: array<byte>, p: nat, ghost s: Text) returns (n: nat)
    requires IsString(buf[..], p, s)
    ensures n == |s|
  {
    n := 0;
    while buf[p + n] != 0
      invariant n <= |s| && p + n < buf.Length
      decreases |s| - n
    {
      n := n + 1;
    }
    NullEnds(buf[..], p, s, n);
  }

  /** Copying a string, with its null character, onto the stack. */
  method PushString(mem: array<byte>, top: nat, buf: array<byte>, p: nat, ghost s: Text) returns (newTop: nat)
    requires mem.Length == PGSIZE && mem != buf && IsString(buf[..], p, s) && |s| + 1 <= top <= PGSIZE
    modifies mem
    ensures newTop == top - (|s| + 1) && IsString(mem[..], newTop, s) && SameAbove(old(mem[..]), mem[..], top)
  {
    hide SameAbove;
    var n := Strlen(buf, p, s);
    newTop := Push(mem, top, buf[p..p + n + 1]);
    SliceIsString(buf[..], p, mem[..], newTop, s);
  }

  /** The strings pushed so far, and argv. */
  ghost predicate Pushed(mem: Text, top: nat, argv: seq<u32>, done: seq<Text>) {
    && |mem| == PGSIZE && top <= PGSIZE && |done| <= |argv|
    && forall k | 0 <= k < |done| :: argv[k] >= STACK_BASE + top && IsString(mem, argv[k] - STACK_BASE, done[k])
  }

  lemma PushedMore(mem: Text, mem': Text, top: nat, newTop: nat, argv: seq<u32>, argv': seq<u32>, done: seq<Text>, s: Text)
    requires Pushed(mem, top, argv, done) && SameAbove(mem, mem', top) && newTop <= top && |done| < |argv| <= |argv'|
    requires IsString(mem', newTop, s) && argv'[..|argv|] == argv[|done| := STACK_BASE + newTop]
    ensures Pushed(mem', newTop, argv', done + [s])
  {
    forall k | 0 <= k < |done| + 1
      ensures argv'[k] >= STACK_BASE + newTop && IsString(mem', argv'[k] - STACK_BASE, (done + [s])[k])
    {
      assert argv'[k] == argv'[..|argv|][k];
      if k < |done| { StringKept(mem, mem', top, argv[k] - STACK_BASE, done[k]); }
    }
  }

  lemma PushedKept(mem: Text, mem': Text, top: nat, newTop: nat, argv: seq<u32>, done: seq<Text>)
    requires Pushed(mem, top, argv, done) && SameAbove(mem, mem', top) && newTop <= top
    ensures Pushed(mem', newTop, argv, done)
  {
    forall k | 0 <= k < |done| ensures IsString(mem', argv[k] - STACK_BASE, done[k]) {
      StringKept(mem, mem', top, argv[k] - STACK_BASE, done[k]);
    }
  }

  /** The loop of setup_stack over the tokens. */
  method PushTokens(tok: Tokenizer, fileName: nat, ghost first: Text, mem: array<byte>, ghost args: seq<Text>)
    returns (top: nat, argc: nat, argv: seq<u32>)
    requires tok.Valid() && IsString(tok.buf[..], fileName, first) && mem != tok.buf && mem.Length == PGSIZE
    requires args == [first] + Tokens(tok.rest, BLANK) && Fits(args)
    modifies tok, tok.buf, mem
    ensures argc == |args| < |argv| && Pushed(mem[..], top, argv, args) && top == PGSIZE - StringsSize(args)
  {
    hide Tokens, Pushed, SameAbove, Padding;
    top, argc, argv := PGSIZE, 0, seq(ARGV_COUNTER, _ => 0);
    var token := Some(fileName);
    ghost var cur, done: seq<Text> := first, [];
    assert Pushed(mem[..], top, argv, done) by { NonePushed(mem[..], argv); }
    while token.Some?
      invariant tok.Valid() && argc == |done| < |argv| && Pushed(mem[..], top, argv, done) && top == PGSIZE - StringsSize(done)
      invariant token.Some? ==> IsString(tok.buf[..], token.value, cur) && args == done + [cur] + Tokens(tok.rest, BLANK)
      invariant token.None? ==> args == done
      decreases if token.Some? then |tok.rest| + 1 else 0
    {
      Room(args, done, cur, Tokens(tok.rest, BLANK));
      ghost var mem0, argv0, top0 := mem[..], argv, top;
      top := PushString(mem, top, tok.buf, token.value, cur);
      argv := argv[argc := STACK_BASE + top];
      argc := argc + 1;
      if argc >= |argv| { argv := argv + seq(|argv|, _ => 0); }
      assert argv[..|argv0|] == argv0[argc - 1 := STACK_BASE + top];
      PushedMore(mem0, mem[..], top0, top, argv0, argv, done, cur);
      done := done + [cur];
      ghost var before := tok.rest;
      ghost var stack := mem[..];
      ghost var next;
      token, next := tok.Strtok(BLANK);
      assert mem[..] == stack;
      if token.Some? {
        assert done + ([next] + Tokens(tok.rest, BLANK)) == done + [next] + Tokens(tok.rest, BLANK);
      } else {
        assert done + [] == done;
      }
      cur := next;
    }
  }

  lemma NonePushed(mem: Text, argv: seq<u32>)
    requires |mem| == PGSIZE
    ensures Pushed(mem, PGSIZE, argv, [])
  {
  }

  lemma Room(args: seq<Text>, done: seq<Text>, cur: Text, more: seq<Text>)
    requires args == done + [cur] + more && Fits(args)
    ensures StringsSize(done + [cur]) == StringsSize(done) + |cur| + 1 <= PGSIZE
  {
    StringsSizeAppend(done + [cur], more);
    StringsSizeAppend(done, [cur]);
    assert StringsSize([cur]) == |cur| + 1;
  }

  /** argv as it lies on the stack from p on, as far as entry i. */
  ghost predicate Listed(mem: Text, p: nat, argv: seq<u32>, i: nat, n: nat) {
    forall k | i <= k <= n && k < |argv| :: WordAt(mem, p + 4 * (k - i), argv[k])
  }

  lemma ListedMore(mem: Text, mem': Text, p: nat, q: nat, argv: seq<u32>, i: nat, n: nat)
    requires Listed(mem, p, argv, i + 1, n) && SameAbove(mem, mem', p) && q + 4 == p && i < |argv| && WordAt(mem', q, argv[i])
    ensures Listed(mem', q, argv, i, n)
  {
    forall k | i <= k <= n && k < |argv| ensures WordAt(mem', q + 4 * (k - i), argv[k]) {
      if k > i {
        assert WordAt(mem, p + 4 * (k - (i + 1)), argv[k]);
        WordKept(mem, mem', p, p + 4 * (k - (i + 1)));
      }
    }
  }

  lemma ListedKept(mem: Text, mem': Text, p: nat, argv: seq<u32>, n: nat)
    requires Listed(mem, p, argv, 0, n) && SameAbove(mem, mem', p)
    ensures Listed(mem', p, argv, 0, n)
  {
    forall k | 0 <= k <= n && k < |argv| ensures WordAt(mem', p + 4 * (k - 0), argv[k]) {
      assert WordAt(mem, p + 4 * (k - 0), argv[k]);
      WordKept(mem, mem', p, p + 4 * (k - 0));
    }
  }

  /** The loop of setup_stack over argv, from its null pointer down. */
  method PushArgv(mem: array<byte>, top0: nat, argc: nat, argv: seq<u32>, ghost args: seq<Text>) returns (top: nat)
    requires mem.Length == PGSIZE && argc == |args| < |argv| && Pushed(mem[..], top0, argv, args) && 4 * (argc + 1) <= top0
    modifies mem
    ensures top == top0 - 4 * (argc + 1) && Pushed(mem[..], top, argv, args) && Listed(mem[..], top, argv, 0, argc)
  {
    hide Pushed, SameAbove, WordAt, Listed;
    top := top0;
    PushedTop(mem[..], top0, argv, args);
    var i := argc + 1;
    assert Listed(mem[..], top, argv, argc + 1, argc) by { NoneListed(mem[..], top, argv, argc); }
    while i > 0
      invariant 0 <= i <= argc + 1 && top == top0 - 4 * (argc + 1 - i) && top <= PGSIZE
      invariant Pushed(mem[..], top, argv, args) && Listed(mem[..], top, argv, i, argc)
    {
      i := i - 1;
      ghost var mem0, before := mem[..], top;
      top := PushWord(mem, top, argv[i]);
      PushedKept(mem0, mem[..], before, top, argv, args);
      ListedMore(mem0, mem[..], before, top, argv, i, argc);
    }
  }

  lemma PushedTop(mem: Text, top: nat, argv: seq<u32>, args: seq<Text>)
    requires Pushed(mem, top, argv, args)
    ensures top <= PGSIZE
  {
  }

  lemma NoneListed(mem: Text, p: nat, argv: seq<u32>, argc: nat)
    ensures Listed(mem, p, argv, argc + 1, argc)
  {
  }

  /** setup_stack, when its page and argv can be allocated: whatever the number of arguments,
      the process finds them all, and nothing is written outside the page. */
  method SetupStack(tok: Tokenizer, fileName: nat, ghost first: Text, mem: array<byte>) returns (top: nat)
    requires tok.Valid() && IsString(tok.buf[..], fileName, first) && mem != tok.buf && mem.Length == PGSIZE
    requires Fits([first] + Tokens(tok.rest, BLANK))
    modifies tok, tok.buf, mem
    ensures StackOk(mem[..], top, old([first] + Tokens(tok.rest, BLANK)))
    ensures top == StackTop(old([first] + Tokens(tok.rest, BLANK)))
  {
    hide Tokens, Pushed, SameAbove, WordAt, Listed, StackOk, StringsSize;
    ghost var args := [first] + Tokens(tok.rest, BLANK);
    var argc, argv;
    top, argc, argv := PushTokens(tok, fileName, first, mem, args);
    ghost var argv0 := argv;
    argv := argv[argc := 0];
    SameArgv(mem[..], top, argv0, argv, args);
    var i := (STACK_BASE + top) % 5;
    if i != 0 {
      ghost var mem0, before := mem[..], top;
      top := Push(mem, top, Word(argv[argc])[..i]);
      PushedKept(mem0, mem[..], before, top, argv, args);
    }
    top := PushArgv(mem, top, argc, argv, args);
    ghost var mem1, p := mem[..], top;
    top := PushWord(mem, top, STACK_BASE + top);
    ghost var mem2 := mem[..];
    top := PushWord(mem, top, argc);
    ghost var mem3 := mem[..];
    top := PushWord(mem, top, argv[argc]);
    Finished(mem1, mem2, mem3, mem[..], p, argv, args);
  }

  lemma SameArgv(mem: Text, top: nat, argv: seq<u32>, argv': seq<u32>, args: seq<Text>)
    requires Pushed(mem, top, argv, args) && |args| < |argv| && argv' == argv[|args| := 0]
    ensures Pushed(mem, top, argv', args)
  {
  }

  lemma Finished(m1: Text, m2: Text, m3: Text, m4: Text, p: nat, argv: seq<u32>, args: seq<Text>)
    requires |m1| == PGSIZE && p >= 12 && |args| < |argv| && argv[|args|] == 0 && Pushed(m1, p, argv, args) && Listed(m1, p, argv, 0, |args|)
    requires SameAbove(m1, m2, p) && SameAbove(m2, m3, p - 4) && SameAbove(m3, m4, p - 8)
    requires WordAt(m2, p - 4, STACK_BASE + p) && WordAt(m3, p - 8, |args|) && WordAt(m4, p - 12, 0)
    ensures StackOk(m4, p - 12, args)
  {
    hide WordAt, Pushed, Listed, SameAbove;
    SameAboveTrans(m1, m2, m3, p, p - 4);
    SameAboveTrans(m1, m3, m4, p, p - 8);
    SameAboveTrans(m2, m3, m4, p - 4, p - 8);
    KeptWord(m2, m4, p - 4, STACK_BASE + p);
    KeptWord(m3, m4, p - 8, |args|);
    ListedKept(m1, m4, p, argv, |args|);
    PushedKept(m1, m4, p, p, argv, args);
    forall k | 0 <= k < |args| ensures Points(m4, p + 4 * k, args[k]) { PointsIs(m4, p, argv, args, k); }
    LastListed(m4, p, argv, |args|);
    SameLengths(m1, m4, p);
  }

  lemma SameLengths(m: Text, m': Text, p: nat)
    requires SameAbove(m, m', p)
    ensures |m'| == |m|
  {
  }

  lemma KeptWord(m: Text, m': Text, p: nat, v: int)
    requires WordAt(m, p, v) && SameAbove(m, m', p)
    ensures WordAt(m', p, v)
  {
    WordKept(m, m', p, p);
  }

  lemma LastListed(m: Text, p: nat, argv: seq<u32>, n: nat)
    requires Listed(m, p, argv, 0, n) && n < |argv|
    ensures WordAt(m, p + 4 * n, argv[n])
  {
    assert WordAt(m, p + 4 * (n - 0), argv[n]);
  }

  lemma PointsIs(m: Text, p: nat, argv: seq<u32>, args: seq<Text>, k: nat)
    requires k < |args| < |argv| && Listed(m, p, argv, 0, |args|) && Pushed(m, p, argv, args)
    ensures Points(m, p + 4 * k, args[k])
  {
    assert WordAt(m, p + 4 * (k - 0), argv[k]);
  }
}
