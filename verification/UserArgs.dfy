/** Argument passing: the words of a command line end up, in order, as strings
    on the new program's stack with the table that names them
    (src/kernel/task/task.c, src/userland/programs/shell.c; section 3.4.1 of the
    System V AMD64 ABI). */
module UserArgs {
  import opened PageTable
  import opened Pmm
  import opened Vmm
  import opened Uaccess
  import opened UserImage

  const STACK_SIZE: nat := 32 * 4096
  const STACK_TOP: nat := 0x80_0200_0000
  const ARG_MAX: nat := 32
  const CMDLINE_MAX: nat := 512
  const REGION_GAP: nat := 4096
  const SPACE: Byte := 32

  predicate IsSpace(b: Byte) {
    b == 32 || b == 9 || b == 10 || b == 13
  }

  // ----- words -----

  function SkipSpaces(s: seq<Byte>, i: nat): (k: nat)
    requires i <= |s|
    ensures i <= k <= |s| && (k < |s| ==> !IsSpace(s[k]))
    ensures forall j :: i <= j < k ==> IsSpace(s[j])
    decreases |s| - i
  {
    if i < |s| && IsSpace(s[i]) then SkipSpaces(s, i + 1) else i
  }

  function WordEnd(s: seq<Byte>, i: nat): (k: nat)
    requires i <= |s|
    ensures i <= k <= |s| && (k < |s| ==> IsSpace(s[k]))
    ensures forall j :: i <= j < k ==> !IsSpace(s[j])
    decreases |s| - i
  {
    if i < |s| && !IsSpace(s[i]) then WordEnd(s, i + 1) else i
  }

  /** The maximal runs without white space. */
  function Words(s: seq<Byte>, i: nat): seq<seq<Byte>>
    requires i <= |s|
    decreases |s| - i
  {
    var a := SkipSpaces(s, i);
    if a == |s| then [] else
      var b := WordEnd(s, a);
      [s[a..b]] + Words(s, b)
  }

  predicate Word(w: seq<Byte>) {
    w != [] && forall i :: 0 <= i < |w| ==> !IsSpace(w[i])
  }

  lemma {:induction false} SkipIs(s: seq<Byte>, i: nat, k: nat)
    requires i <= k <= |s| && (forall j :: i <= j < k ==> IsSpace(s[j])) && (k < |s| ==> !IsSpace(s[k]))
    ensures SkipSpaces(s, i) == k
    decreases k - i
  {
    if i < k {
      SkipIs(s, i + 1, k);
    }
  }

  lemma {:induction false} EndIs(s: seq<Byte>, i: nat, k: nat)
    requires i <= k <= |s| && (forall j :: i <= j < k ==> !IsSpace(s[j])) && (k < |s| ==> IsSpace(s[k]))
    ensures WordEnd(s, i) == k
    decreases k - i
  {
    if i < k {
      EndIs(s, i + 1, k);
    }
  }

  // ----- the shell's command line -----

  /** The path, then each argument that is not empty behind a blank. */
  function Joined(path: seq<Byte>, args: seq<seq<Byte>>): seq<Byte>
  {
    if args == [] then path
    else
      var front, last := Joined(path, args[..|args| - 1]), args[|args| - 1];
      if last == [] then front else front + [SPACE] + last
  }

  function NonEmpty(args: seq<seq<Byte>>): seq<seq<Byte>>
  {
    if args == [] then []
    else NonEmpty(args[..|args| - 1]) + (if args[|args| - 1] == [] then [] else [args[|args| - 1]])
  }

  lemma {:induction false} JoinedGrows(path: seq<Byte>, args: seq<seq<Byte>>, i: nat)
    requires i <= |args|
    ensures |Joined(path, args[..i])| <= |Joined(path, args)|
    decreases |args|
  {
    if i < |args| {
      assert args[..|args| - 1][..i] == args[..i];
      JoinedGrows(path, args[..|args| - 1], i);
    } else {
      assert args[..i] == args;
    }
  }

  /** build_exec_cmdline: the joined words, or -1 when they do not fit. */
  method BuildExecCmdline(path: seq<Byte>, args: seq<seq<Byte>>, outSize: nat) returns (status: int, out: seq<Byte>)
    ensures status == if path != [] && |Joined(path, args)| < outSize then 0 else -1
    ensures status == 0 ==> out == Joined(path, args)
  {
    JoinedGrows(path, args, 0);
    assert args[..0] == [];
    if path == [] || |path| >= outSize { return -1, []; }
    out := path;
    for i := 0 to |args|
      invariant out == Joined(path, args[..i]) && |out| < outSize
    {
      assert args[..i + 1][..i] == args[..i];
      JoinedGrows(path, args, i + 1);
      var arg := args[i];
      if arg != [] {
        if |out| + 1 + |arg| >= outSize { return -1, []; }
        out := out + [SPACE] + arg;
      }
    }
    assert args[..|args|] == args;
    status := 0;
  }

  lemma {:induction false} WordsSnoc(s: seq<Byte>, x: seq<Byte>, i: nat)
    requires i <= |s| && Word(x)
    ensures Words(s + [SPACE] + x, i) == Words(s, i) + [x]
    decreases |s| - i
  {
    var t := s + [SPACE] + x;
    var a := SkipSpaces(s, i);
    if a == |s| {
      assert t[|s|] == SPACE && t[|s| + 1] == x[0];
      SkipIs(t, i, |s| + 1);
      assert forall j :: |s| + 1 <= j < |t| ==> t[j] == x[j - |s| - 1];
      EndIs(t, |s| + 1, |t|);
      assert t[|s| + 1..|t|] == x;
      assert Words(t, |t|) == [];
    } else {
      var b := WordEnd(s, a);
      SkipIs(t, i, a);
      EndIs(t, a, b);
      assert t[a..b] == s[a..b];
      WordsSnoc(s, x, b);
    }
  }

  /** Splitting the command line gives back the words it was joined from. */
  lemma {:induction false} WordsOfJoined(path: seq<Byte>, args: seq<seq<Byte>>)
    requires Word(path) && forall i :: 0 <= i < |args| ==> args[i] == [] || Word(args[i])
    ensures Words(Joined(path, args), 0) == [path] + NonEmpty(args)
    decreases |args|
  {
    if args == [] {
      SkipIs(path, 0, 0);
      EndIs(path, 0, |path|);
      assert path[0..|path|] == path;
      assert Words(path, |path|) == [];
    } else {
      var n := |args| - 1;
      WordsOfJoined(path, args[..n]);
      if args[n] != [] {
        WordsSnoc(Joined(path, args[..n]), args[n], 0);
      }
    }
  }

  // ----- the kernel's tokenizer -----

  function Cut(s: seq<Byte>, n: nat): (r: seq<Byte>)
    ensures |r| <= n
  {
    if |s| <= n then s else s[..n]
  }

  /** The arguments: up to 32 words of a command line cut to its buffer, or the
      fallback name when there is none. */
  function ArgsOf(cmdline: seq<Byte>, fallback: seq<Byte>): seq<seq<Byte>>
  {
    var source := Cut(if cmdline != [] then cmdline else fallback, CMDLINE_MAX - 1);
    var words := Words(source, 0);
    if words == [] then [Cut(fallback, CMDLINE_MAX - 1)]
    else if |words| <= ARG_MAX then words else words[..ARG_MAX]
  }

  /** A string with its terminator, at a place in a buffer. */
  predicate StringAt(buf: seq<Byte>, p: nat, w: seq<Byte>) {
    p + |w| < |buf| && buf[p..p + |w|] == w && buf[p + |w|] == 0 && 0 !in w
  }

  /** strlen from a place in a buffer. */
  method StrLen(buf: array<Byte>, p: nat, ghost w: seq<Byte>) returns (n: nat)
    requires StringAt(buf[..], p, w)
    ensures n == |w|
  {
    n := 0;
    while buf[p + n] != 0
      invariant n <= |w|
      decreases |w| - n
    {
      assert n < |w| ==> w[n] == buf[..][p + n];
      n := n + 1;
    }
  }

  method Fill(buf: array<Byte>, s: seq<Byte>)
    requires |s| < buf.Length
    modifies buf
    ensures buf[..|s|] == s && buf[|s|] == 0
  {
    for i := 0 to |s|
      invariant buf[..i] == s[..i]
    {
      buf[i] := s[i];
    }
    buf[|s|] := 0;
  }

  /** The strings found so far, and the rest of the buffer still as it was. */
  ghost predicate Scanned(buf: seq<Byte>, args: seq<nat>, words: seq<seq<Byte>>, s: seq<Byte>, i: nat) {
    && |buf| > |s| >= i && |args| == |words|
    && (forall j :: 0 <= j < |args| ==> StringAt(buf, args[j], words[j]) && args[j] + |words[j]| < (if i < |s| then i else |s| + 1))
    && buf[i..|s|] == s[i..] && buf[|s|] == 0
  }

  /** A word from `start` to `e`, ended by a terminator there. */
  lemma ScannedNext(buf: seq<Byte>, args: seq<nat>, words: seq<seq<Byte>>, s: seq<Byte>, start: nat, e: nat)
    requires Scanned(buf, args, words, s, start) && start < e <= |s| && 0 !in s
    ensures Scanned(if e < |s| then buf[e := 0] else buf, args + [start], words + [s[start..e]], s, if e < |s| then e + 1 else e)
  {
    var after := if e < |s| then buf[e := 0] else buf;
    forall k | start <= k < |s|
      ensures buf[k] == s[k]
    {
      assert buf[k] == buf[start..|s|][k - start];
    }
    forall j | 0 <= j < |args|
      ensures StringAt(after, args[j], words[j])
    {
      assert after[args[j]..args[j] + |words[j]|] == buf[args[j]..args[j] + |words[j]|];
    }
    assert forall x :: x in s[start..e] ==> x in s;
  }

  /** Past the word that starts here and the blank that ends it. */
  function AfterWord(s: seq<Byte>, start: nat): (i: nat)
    requires start <= |s|
    ensures i <= |s|
  {
    var e := WordEnd(s, start);
    if e < |s| then e + 1 else e
  }

  lemma WordsAfter(s: seq<Byte>, start: nat)
    requires start <= |s|
    ensures Words(s, AfterWord(s, start)) == Words(s, WordEnd(s, start))
  {
    var e := WordEnd(s, start);
    if e < |s| {
      SameWords(s, e, e + 1);
    }
  }

  /** Words depend only on where the next one starts. */
  lemma SameWords(s: seq<Byte>, i: nat, j: nat)
    requires i <= |s| && j <= |s| && SkipSpaces(s, i) == SkipSpaces(s, j)
    ensures Words(s, i) == Words(s, j)
  {
  }

  /** One word: its start is noted, its end becomes a terminator. */
  method NextWord(buf: array<Byte>, start: nat, ghost s: seq<Byte>, ghost args: seq<nat>, ghost words: seq<seq<Byte>>)
    returns (i: nat)
    requires start < |s| && Scanned(buf[..], args, words, s, start) && !IsSpace(s[start]) && 0 !in s
    modifies buf
    ensures i <= |s| && Scanned(buf[..], args + [start], words + [s[start..WordEnd(s, start)]], s, i)
    ensures start < i == AfterWord(s, start)
  {
    i := start;
    ghost var was := buf[..];
    while buf[i] != 0 && !IsSpace(buf[i])
      invariant start <= i <= |s| && buf[..] == was
      invariant WordEnd(s, start) == WordEnd(s, i)
      decreases |s| - i
    {
      assert buf[i] == was[i];
      assert i < |s| ==> was[i] == was[start..|s|][i - start];
      i := i + 1;
    }
    assert i < |s| ==> buf[i] == was[start..|s|][i - start] == s[i] && s[i] in s;
    ScannedNext(was, args, words, s, start, i);
    if buf[i] != 0 {
      buf[i] := 0;
      assert buf[..] == was[i := 0];
      i := i + 1;
    }
  }

  method NextStart(buf: array<Byte>, p: nat, ghost s: seq<Byte>, ghost args: seq<nat>, ghost words: seq<seq<Byte>>)
    returns (start: nat)
    requires p <= |s| && Scanned(buf[..], args, words, s, p) && 0 !in s
    ensures start == SkipSpaces(s, p) && Scanned(buf[..], args, words, s, start)
    ensures start < |s| <==> buf[start] != 0
    ensures Words(s, p) == if start == |s| then [] else [s[start..WordEnd(s, start)]] + Words(s, WordEnd(s, start))
  {
    start := p;
    while IsSpace(buf[start])
      invariant p <= start <= |s| && SkipSpaces(s, p) == SkipSpaces(s, start)
      decreases |s| - start
    {
      assert start < |s| ==> buf[start] == buf[p..|s|][start - p];
      start := start + 1;
    }
    assert start < |s| ==> buf[start] == buf[p..|s|][start - p] == s[start] && s[start] in s;
    assert buf[start..|s|] == buf[p..|s|][start - p..];
  }

  lemma Appended(words: seq<seq<Byte>>, w: seq<Byte>, rest: seq<seq<Byte>>)
    ensures words + ([w] + rest) == words + [w] + rest
  {
  }

  lemma AllScanned(buf: seq<Byte>, args: seq<nat>, words: seq<seq<Byte>>, s: seq<Byte>, p: nat)
    requires Scanned(buf, args, words, s, p) && 0 !in s
    ensures buf[p] == 0 ==> p == |s| && Words(s, p) == []
  {
    assert p < |s| ==> buf[p] == buf[p..|s|][0] == s[p] && s[p] in s;
  }

  /** The tokenizer loop over a buffer that holds `s`. */
  method Split(buf: array<Byte>, ghost s: seq<Byte>) returns (args: seq<nat>, ghost words: seq<seq<Byte>>)
    requires |s| < buf.Length && buf[..|s|] == s && buf[|s|] == 0 && 0 !in s
    modifies buf
    ensures words == (if |Words(s, 0)| <= ARG_MAX then Words(s, 0) else Words(s, 0)[..ARG_MAX])
    ensures |args| == |words| && forall j :: 0 <= j < |args| ==> StringAt(buf[..], args[j], words[j])
  {
    args, words := [], [];
    var p := 0;
    while |args| < ARG_MAX && buf[p] != 0
      invariant p <= |s| && |args| <= ARG_MAX && Scanned(buf[..], args, words, s, p)
      invariant Words(s, 0) == words + Words(s, p)
      decreases |s| - p
    {
      p := NextStart(buf, p, s, args, words);
      if buf[p] == 0 { break; }
      p, args, words := TakeWord(buf, p, s, args, words);
    }
    AllScanned(buf[..], args, words, s, p);
  }

  method TakeWord(buf: array<Byte>, p: nat, ghost s: seq<Byte>, args: seq<nat>, ghost words: seq<seq<Byte>>)
    returns (next: nat, args': seq<nat>, ghost words': seq<seq<Byte>>)
    requires p < |s| && Scanned(buf[..], args, words, s, p) && !IsSpace(s[p]) && 0 !in s
    modifies buf
    ensures p < next <= |s| && |args'| == |args| + 1 && Scanned(buf[..], args', words', s, next)
    ensures words' + Words(s, next) == words + ([s[p..WordEnd(s, p)]] + Words(s, WordEnd(s, p)))
  {
    next := NextWord(buf, p, s, args, words);
    ghost var w := s[p..WordEnd(s, p)];
    WordsAfter(s, p);
    Appended(words, w, Words(s, next));
    args', words' := args + [p], words + [w];
  }

  /** The first half of task_build_user_args: the argument strings, in a buffer. */
  method Tokenize(cmdline: seq<Byte>, fallback: seq<Byte>) returns (buf: array<Byte>, args: seq<nat>)
    requires 0 !in cmdline && 0 !in fallback
    ensures fresh(buf) && |args| == |ArgsOf(cmdline, fallback)|
    ensures forall j :: 0 <= j < |args| ==> StringAt(buf[..], args[j], ArgsOf(cmdline, fallback)[j])
  {
    buf := new Byte[CMDLINE_MAX](_ => 0);
    var source := Cut(if cmdline != [] then cmdline else fallback, CMDLINE_MAX - 1);
    Fill(buf, source);
    ghost var words;
    args, words := Split(buf, source);
    if |args| == 0 {
      var name := Cut(fallback, CMDLINE_MAX - 1);
      Fill(buf, name);
      args := [0];
      assert buf[..][0..0 + |name|] == name;
    }
  }

  // ----- the layout on the stack -----

  /** All strings one after the other, each with its terminator. */
  function Flat(args: seq<seq<Byte>>): seq<Byte>
  {
    if args == [] then [] else args[0] + [0] + Flat(args[1..])
  }

  /** The eight bytes of a number, lowest first. */
  function Le(v: nat, n: nat): (r: seq<Byte>)
    ensures |r| == n
  {
    if n == 0 then [] else [v % 256] + Le(v / 256, n - 1)
  }

  const QUAD: nat := 8

  /** A 64-bit number in memory. */
  function Quad(v: nat): (r: seq<Byte>)
    ensures |r| == 8
  {
    Le(v, QUAD)
  }

  function FromLe(bytes: seq<Byte>): nat
  {
    if bytes == [] then 0 else bytes[0] + 256 * FromLe(bytes[1..])
  }

  function Power256(n: nat): nat
  {
    if n == 0 then 1 else 256 * Power256(n - 1)
  }

  lemma {:induction false} LeRoundTrip(v: nat, n: nat)
    requires v < Power256(n)
    ensures FromLe(Le(v, n)) == v
    decreases n
  {
    if n > 0 {
      LeRoundTrip(v / 256, n - 1);
    }
  }

  function Pointer(args: seq<seq<Byte>>, start: nat, i: nat): nat
    requires i <= |args|
  {
    start + |Flat(args[..i])|
  }

  function PointersOf(args: seq<seq<Byte>>, start: nat): seq<nat>
  {
    seq(|args|, i requires 0 <= i < |args| => Pointer(args, start, i))
  }

  function Numbers(ptrs: seq<nat>): seq<Byte>
  {
    if ptrs == [] then [] else Numbers(ptrs[..|ptrs| - 1]) + Quad(ptrs[|ptrs| - 1])
  }

  /** What lies at the new stack pointer: argc, the pointers, NULL. */
  function Table(ptrs: seq<nat>): seq<Byte>
  {
    Quad(|ptrs|) + Numbers(ptrs) + Quad(0)
  }

  function ArgsEnd(stackTop: nat): nat
    requires stackTop >= STACK_SIZE
  {
    (stackTop - REGION_GAP) - (stackTop - REGION_GAP) % 16
  }

  function TableSize(argc: nat): nat
  {
    (argc + 2) * 8
  }

  /** Where the table starts: below the strings, aligned to 16. */
  function TableBase(argc: nat, start: nat): (base: int)
    ensures base % 16 == 0 && base + TableSize(argc) <= start < base + 16 + TableSize(argc)
  {
    var sp := start - start % 8;
    (if (sp - TableSize(argc)) % 16 != 0 then sp - 8 else sp) - TableSize(argc)
  }

  function StringsStart(args: seq<seq<Byte>>, stackTop: nat): int
    requires stackTop >= STACK_SIZE
  {
    ArgsEnd(stackTop) - |Flat(args)|
  }

  /** Strings and table fit above the stack's lower end. */
  predicate Room(args: seq<seq<Byte>>, stackTop: nat)
    requires stackTop >= STACK_SIZE
  {
    var bottom := stackTop - STACK_SIZE;
    StringsStart(args, stackTop) >= bottom && TableBase(|args|, StringsStart(args, stackTop)) >= bottom
  }

  lemma {:induction false} FlatLength(words: seq<seq<Byte>>, n: nat)
    requires n <= |words|
    ensures |Flat(words[..n])| <= |Flat(words)|
    decreases |words|
  {
    if n > 0 {
      assert words[..n][1..] == words[1..][..n - 1];
      FlatLength(words[1..], n - 1);
    }
  }

  lemma {:induction false} WordsLength(s: seq<Byte>, i: nat)
    requires i <= |s|
    ensures |Flat(Words(s, i))| <= |s| - i + 1 && (i < |s| && IsSpace(s[i]) ==> |Flat(Words(s, i))| <= |s| - i)
    ensures i == |s| ==> Words(s, i) == []
    decreases |s| - i
  {
    var a := SkipSpaces(s, i);
    if a < |s| {
      WordsLength(s, WordEnd(s, a));
    }
  }

  /** On the stack the kernel gives a program the arguments of any command line fit. */
  lemma ArgsAlwaysFit(cmdline: seq<Byte>, fallback: seq<Byte>)
    ensures 1 <= |ArgsOf(cmdline, fallback)| <= ARG_MAX && Room(ArgsOf(cmdline, fallback), STACK_TOP)
  {
    var source := Cut(if cmdline != [] then cmdline else fallback, CMDLINE_MAX - 1);
    var args := ArgsOf(cmdline, fallback);
    WordsLength(source, 0);
    if Words(source, 0) == [] {
      assert args[1..] == [];
      assert Flat(args) == args[0] + [0] + Flat([]);
    } else if |Words(source, 0)| > ARG_MAX {
      FlatLength(Words(source, 0), ARG_MAX);
    }
    assert |Flat(args)| <= CMDLINE_MAX;
  }

  // ----- building it -----

  lemma {:induction false} FlatSplit(args: seq<seq<Byte>>, i: nat)
    requires i <= |args|
    ensures Flat(args) == Flat(args[..i]) + Flat(args[i..])
    decreases i
  {
    if i == 0 {
      assert args[0..] == args;
    } else {
      FlatSplit(args[1..], i - 1);
      assert args[..i][1..] == args[1..][..i - 1] && args[1..][i - 1..] == args[i..];
    }
  }

  /** One more string below the others. */
  lemma StringBelow(w: seq<Byte>, rest: seq<seq<Byte>>, sp: nat)
    ensures var all := [w] + rest;
            && Flat(all) == w + [0] + Flat(rest)
            && PointersOf(all, sp) == [sp] + PointersOf(rest, sp + |w| + 1)
  {
    var all := [w] + rest;
    assert all[1..] == rest;
    var longer, shorter := PointersOf(all, sp), PointersOf(rest, sp + |w| + 1);
    forall i | 0 <= i < |rest|
      ensures shorter[i] == longer[i + 1]
    {
      assert all[..i + 1][1..] == rest[..i] && all[..i + 1][0] == w;
    }
  }

  lemma PatchedBelow(img: nat -> Byte, p: nat, x: seq<Byte>, rest: seq<Byte>, a: nat)
    ensures Patched(Patched(img, p + |x|, rest), p, x)(a) == Patched(img, p, x + rest)(a)
  {
  }

  lemma PatchedAbove(img: nat -> Byte, p: nat, x: seq<Byte>, more: seq<Byte>, a: nat)
    ensures Patched(Patched(img, p, x), p + |x|, more)(a) == Patched(img, p, x + more)(a)
  {
  }

  /** The stack lies in the user half; its pages may be mapped or not. */
  predicate OnStack(stackTop: nat) {
    stackTop >= STACK_SIZE && stackTop - STACK_SIZE >= FIRST_PAGE * PAGE_SIZE && stackTop <= END_PAGE * PAGE_SIZE
  }

  lemma SpansPart(pages: Pages, a: nat, n: nat, b: nat, m: nat)
    requires a <= b && b + m <= a + n
    ensures Spans(pages, a, n) ==> Spans(pages, b, m)
  {
  }

  lemma SpansJoin(pages: Pages, a: nat, m: nat, n: nat)
    ensures Spans(pages, a, m + n) <==> Spans(pages, a, m) && Spans(pages, a + m, n)
  {
    SpansPart(pages, a, m + n, a, m);
    SpansPart(pages, a, m + n, a + m, n);
  }

  /** task_write_user to the stack, below what is already there. */
  method PushBelow(u: UserMemory, dir: PageDirectory, sp: nat, x: seq<Byte>, ghost rest: seq<Byte>, ghost top: nat,
                   ghost stackTop: nat, ghost pages: Pages, ghost img: nat -> Byte)
    returns (ok: bool)
    requires OnStack(stackTop) && Sound(u, dir, pages, Patched(img, top, rest)) && top == sp + |x|
    requires x != [] && stackTop - STACK_SIZE <= sp && top <= stackTop
    modifies u`ram
    ensures ok <==> Spans(pages, sp, |x|)
    ensures ok ==> Sound(u, dir, pages, Patched(img, sp, x + rest))
  {
    ghost var now := Patched(img, top, rest);
    ok := PutBytes(u, dir, sp, x, pages, now);
    if !ok { return; }
    forall a: nat
      ensures Patched(now, sp, x)(a) == Patched(img, sp, x + rest)(a)
    {
      PatchedBelow(img, sp, x, rest, a);
    }
    SameHolding(u.ram, pages, Patched(now, sp, x), Patched(img, sp, x + rest));
  }

  /** task_write_user_u64 behind what is already there. */
  method PutNumber(u: UserMemory, dir: PageDirectory, base: nat, ghost before: seq<Byte>, at: nat, v: nat, ghost stackTop: nat,
                   ghost pages: Pages, ghost img: nat -> Byte)
    returns (ok: bool)
    requires OnStack(stackTop) && Sound(u, dir, pages, Patched(img, base, before)) && at == base + |before|
    requires stackTop - STACK_SIZE <= base && at + 8 <= stackTop
    modifies u`ram
    ensures ok <==> Spans(pages, at, 8)
    ensures ok ==> Sound(u, dir, pages, Patched(img, base, before + Quad(v)))
  {
    ghost var now := Patched(img, base, before);
    ok := PutBytes(u, dir, at, Quad(v), pages, now);
    if !ok { return; }
    forall a: nat
      ensures Patched(now, at, Quad(v))(a) == Patched(img, base, before + Quad(v))(a)
    {
      PatchedAbove(img, base, before, Quad(v), a);
    }
    SameHolding(u.ram, pages, Patched(now, at, Quad(v)), Patched(img, base, before + Quad(v)));
  }

  /** A string with its terminator. */
  method TakeString(buf: array<Byte>, arg: nat, ghost w: seq<Byte>) returns (x: seq<Byte>)
    requires StringAt(buf[..], arg, w)
    ensures x == w + [0]
  {
    var len := StrLen(buf, arg, w);
    x := buf[arg..arg + len + 1];
    assert buf[..][arg..arg + len] == w;
  }

  /** One string below the others. */
  method PushOne(u: UserMemory, dir: PageDirectory, buf: array<Byte>, arg: nat, sp: nat, ptrs: seq<nat>, stackTop: nat,
                 ghost w: seq<Byte>, ghost rest: seq<seq<Byte>>, ghost pages: Pages, ghost img: nat -> Byte)
    returns (ok: bool, sp': nat, ptrs': seq<nat>)
    requires OnStack(stackTop) && Sound(u, dir, pages, Patched(img, sp, Flat(rest)))
    requires StringAt(buf[..], arg, w) && stackTop - STACK_SIZE <= sp <= stackTop && ptrs == PointersOf(rest, sp)
    modifies u`ram
    ensures ok <==> sp - (|w| + 1) >= stackTop - STACK_SIZE && Spans(pages, sp - (|w| + 1), |w| + 1)
    ensures ok ==>
              && sp' == sp - (|w| + 1) && ptrs' == PointersOf([w] + rest, sp')
              && Sound(u, dir, pages, Patched(img, sp', Flat([w] + rest)))
  {
    var x := TakeString(buf, arg, w);
    sp', ptrs' := sp, ptrs;
    if sp < stackTop - STACK_SIZE + |x| { return false, sp', ptrs'; }
    sp' := sp - |x|;
    StringBelow(w, rest, sp');
    ok := PushBelow(u, dir, sp', x, Flat(rest), sp, stackTop, pages, img);
    if !ok { return; }
    ptrs' := [sp'] + ptrs;
  }

  /** The strings, last one first. */
  method PushStrings(u: UserMemory, dir: PageDirectory, buf: array<Byte>, args: seq<nat>, ghost words: seq<seq<Byte>>,
                     stackTop: nat, ghost pages: Pages, ghost img: nat -> Byte)
    returns (ok: bool, sp: nat, ptrs: seq<nat>)
    requires OnStack(stackTop) && Sound(u, dir, pages, img)
    requires |args| == |words| && forall j :: 0 <= j < |args| ==> StringAt(buf[..], args[j], words[j])
    modifies u`ram
    ensures ok <==> StringsFit(words, stackTop, pages)
    ensures ok ==>
              && sp == StringsStart(words, stackTop) && ptrs == PointersOf(words, sp)
              && Sound(u, dir, pages, Patched(img, sp, Flat(words)))
  {
    sp, ptrs := ArgsEnd(stackTop), [];
    SameHolding(u.ram, pages, img, Patched(img, sp, []));
    var i := |args|;
    while i > 0
      invariant 0 <= i <= |args| && stackTop - STACK_SIZE <= sp == ArgsEnd(stackTop) - |Flat(words[i..])|
      invariant ptrs == PointersOf(words[i..], sp) && Spans(pages, sp, |Flat(words[i..])|)
      invariant Sound(u, dir, pages, Patched(img, sp, Flat(words[i..])))
    {
      i := i - 1;
      StringFits(words, i, sp, stackTop, pages);
      ok, sp, ptrs := PushOne(u, dir, buf, args[i], sp, ptrs, stackTop, words[i], words[i + 1..], pages, img);
      if !ok { return; }
    }
    assert words[0..] == words;
    ok := true;
  }

  /** The strings fit above the stack's lower end, on mapped pages. */
  ghost predicate StringsFit(words: seq<seq<Byte>>, stackTop: nat, pages: Pages)
    requires stackTop >= STACK_SIZE
  {
    StringsStart(words, stackTop) >= stackTop - STACK_SIZE && Spans(pages, StringsStart(words, stackTop), |Flat(words)|)
  }

  /** One more string below those from i + 1 on. */
  lemma StringFits(words: seq<seq<Byte>>, i: nat, sp: nat, stackTop: nat, pages: Pages)
    requires i < |words| && stackTop >= STACK_SIZE && Spans(pages, sp, |Flat(words[i + 1..])|)
    requires stackTop - STACK_SIZE <= sp == ArgsEnd(stackTop) - |Flat(words[i + 1..])|
    ensures words[i..] == [words[i]] + words[i + 1..] && |Flat(words[i..])| == |words[i]| + 1 + |Flat(words[i + 1..])|
    ensures var at := sp - (|words[i]| + 1);
            if at >= stackTop - STACK_SIZE && Spans(pages, at, |words[i]| + 1) then Spans(pages, at, |Flat(words[i..])|)
            else !StringsFit(words, stackTop, pages)
  {
    FlatSplit(words, i);
    StringBelow(words[i], words[i + 1..], 0);
    assert words[i..] == [words[i]] + words[i + 1..];
    var at := sp - (|words[i]| + 1);
    if at >= stackTop - STACK_SIZE {
      SpansJoin(pages, at, |words[i]| + 1, |Flat(words[i + 1..])|);
      if StringsStart(words, stackTop) >= 0 {
        SpansPart(pages, StringsStart(words, stackTop), |Flat(words)|, at, |words[i]| + 1);
      }
    }
  }

  lemma {:induction false} NumbersLength(ptrs: seq<nat>)
    ensures |Numbers(ptrs)| == 8 * |ptrs|
    decreases |ptrs|
  {
    if ptrs != [] {
      NumbersLength(ptrs[..|ptrs| - 1]);
    }
  }

  /** The table up to the i-th pointer. */
  function Listed(ptrs: seq<nat>, i: nat): seq<Byte>
    requires i <= |ptrs|
  {
    Quad(|ptrs|) + Numbers(ptrs[..i])
  }

  lemma NumbersNext(ptrs: seq<nat>, i: nat)
    requires i < |ptrs|
    ensures |Listed(ptrs, i)| == 8 * (i + 1) && Listed(ptrs, i + 1) == Listed(ptrs, i) + Quad(ptrs[i])
  {
    assert ptrs[..i + 1][..i] == ptrs[..i];
    NumbersLength(ptrs[..i]);
  }

  lemma ListedAll(ptrs: seq<nat>)
    ensures |Listed(ptrs, |ptrs|)| == 8 * (|ptrs| + 1) && Listed(ptrs, |ptrs|) + Quad(0) == Table(ptrs)
  {
    assert ptrs[..|ptrs|] == ptrs;
    NumbersLength(ptrs);
  }

  method WritePointer(u: UserMemory, dir: PageDirectory, base: nat, ptrs: seq<nat>, i: nat, ghost stackTop: nat,
                      ghost pages: Pages, ghost img: nat -> Byte)
    returns (ok: bool)
    requires OnStack(stackTop) && i < |ptrs| && Sound(u, dir, pages, Patched(img, base, Listed(ptrs, i)))
    requires stackTop - STACK_SIZE <= base && base + (|ptrs| + 2) * 8 <= stackTop
    modifies u`ram
    ensures ok <==> Spans(pages, base + 8 * (i + 1), 8)
    ensures ok ==> Sound(u, dir, pages, Patched(img, base, Listed(ptrs, i + 1)))
  {
    NumbersNext(ptrs, i);
    ok := PutNumber(u, dir, base, Listed(ptrs, i), base + 8 * (i + 1), ptrs[i], stackTop, pages, img);
  }

  method WriteCount(u: UserMemory, dir: PageDirectory, base: nat, ptrs: seq<nat>, ghost stackTop: nat,
                    ghost pages: Pages, ghost img: nat -> Byte)
    returns (ok: bool)
    requires OnStack(stackTop) && Sound(u, dir, pages, img)
    requires stackTop - STACK_SIZE <= base && base + (|ptrs| + 2) * 8 <= stackTop
    modifies u`ram
    ensures ok <==> Spans(pages, base, 8)
    ensures ok ==> Sound(u, dir, pages, Patched(img, base, Listed(ptrs, 0)))
  {
    SameHolding(u.ram, pages, img, Patched(img, base, []));
    ok := PutNumber(u, dir, base, [], base, |ptrs|, stackTop, pages, img);
    assert [] + Quad(|ptrs|) == Listed(ptrs, 0);
  }

  method WriteNull(u: UserMemory, dir: PageDirectory, base: nat, ptrs: seq<nat>, ghost stackTop: nat,
                   ghost pages: Pages, ghost img: nat -> Byte)
    returns (ok: bool)
    requires OnStack(stackTop) && Sound(u, dir, pages, Patched(img, base, Listed(ptrs, |ptrs|)))
    requires stackTop - STACK_SIZE <= base && base + (|ptrs| + 2) * 8 <= stackTop
    modifies u`ram
    ensures ok <==> Spans(pages, base + 8 * (|ptrs| + 1), 8)
    ensures ok ==> Sound(u, dir, pages, Patched(img, base, Table(ptrs)))
  {
    ListedAll(ptrs);
    ok := PutNumber(u, dir, base, Listed(ptrs, |ptrs|), base + 8 * (|ptrs| + 1), 0, stackTop, pages, img);
  }

  /** The table's pages are mapped as far as entry k, exactly when they are before it and on it. */
  lemma EntrySpans(pages: Pages, base: nat, n: nat, k: nat)
    requires k < n
    ensures Spans(pages, base, 8 * (k + 1)) <==> Spans(pages, base, 8 * k) && Spans(pages, base + 8 * k, 8)
    ensures Spans(pages, base, n * 8) ==> Spans(pages, base + 8 * k, 8)
    ensures k == 0 ==> Spans(pages, base, 8 * k)
  {
    SpansJoin(pages, base, 8 * k, 8);
    SpansPart(pages, base, n * 8, base + 8 * k, 8);
  }

  /** argc, the pointers and NULL. */
  method WriteTable(u: UserMemory, dir: PageDirectory, base: nat, ptrs: seq<nat>, ghost stackTop: nat,
                    ghost pages: Pages, ghost img: nat -> Byte)
    returns (ok: bool)
    requires OnStack(stackTop) && Sound(u, dir, pages, img)
    requires stackTop - STACK_SIZE <= base && base + (|ptrs| + 2) * 8 <= stackTop
    modifies u`ram
    ensures ok <==> Spans(pages, base, (|ptrs| + 2) * 8)
    ensures ok ==> Sound(u, dir, pages, Patched(img, base, Table(ptrs)))
  {
    ok := WriteCount(u, dir, base, ptrs, stackTop, pages, img);
    EntrySpans(pages, base, |ptrs| + 2, 0);
    if !ok { return; }
    for i := 0 to |ptrs|
      invariant Sound(u, dir, pages, Patched(img, base, Listed(ptrs, i))) && Spans(pages, base, 8 * (i + 1))
    {
      EntrySpans(pages, base, |ptrs| + 2, i + 1);
      ok := WritePointer(u, dir, base, ptrs, i, stackTop, pages, img);
      if !ok { return; }
    }
    EntrySpans(pages, base, |ptrs| + 2, |ptrs| + 1);
    ok := WriteNull(u, dir, base, ptrs, stackTop, pages, img);
  }

  /** The new stack's image: the strings, and the table below them. */
  ghost function Laid(img: nat -> Byte, args: seq<seq<Byte>>, stackTop: nat): nat -> Byte
    requires stackTop >= STACK_SIZE && Room(args, stackTop)
  {
    var start := StringsStart(args, stackTop);
    Patched(Patched(img, start, Flat(args)), TableBase(|args|, start), Table(PointersOf(args, start)))
  }

  /** The place for the table below the strings. */
  method PlaceTable(start: nat, argc: nat, bottom: nat) returns (ok: bool, base: nat)
    requires bottom <= start
    ensures ok <==> TableBase(argc, start) >= bottom
    ensures ok ==> base == TableBase(argc, start)
  {
    var sp := start - start % 8;
    var tableSize := (argc + 2) * 8;
    if (sp - tableSize) % 16 != 0 {
      if sp < bottom + 8 { return false, 0; }
      sp := sp - 8;
    }
    if sp < bottom + tableSize { return false, 0; }
    return true, sp - tableSize;
  }

  /** The strings and the table lie on mapped pages. */
  ghost predicate OnPages(args: seq<seq<Byte>>, stackTop: nat, pages: Pages)
    requires stackTop >= STACK_SIZE && Room(args, stackTop)
  {
    var start := StringsStart(args, stackTop);
    Spans(pages, start, |Flat(args)|) && Spans(pages, TableBase(|args|, start), TableSize(|args|))
  }

  /** task_build_user_args */
  method BuildUserArgs(u: UserMemory, dir: PageDirectory, fallback: seq<Byte>, cmdline: seq<Byte>, stackTop: nat,
                       ghost pages: Pages, ghost img: nat -> Byte)
    returns (ok: bool, rsp: nat, argc: nat, argv: nat)
    requires 0 !in cmdline && 0 !in fallback
    requires OnStack(stackTop) && Sound(u, dir, pages, img)
    modifies u`ram
    ensures ok <==> Room(ArgsOf(cmdline, fallback), stackTop) && OnPages(ArgsOf(cmdline, fallback), stackTop, pages)
    ensures ok ==>
              && rsp == TableBase(|ArgsOf(cmdline, fallback)|, StringsStart(ArgsOf(cmdline, fallback), stackTop))
              && argc == |ArgsOf(cmdline, fallback)| && argv == rsp + 8
              && Sound(u, dir, pages, Laid(img, ArgsOf(cmdline, fallback), stackTop))
  {
    rsp, argc, argv := 0, 0, 0;
    ghost var words := ArgsOf(cmdline, fallback);
    var buf, args := Tokenize(cmdline, fallback);
    var sp, ptrs;
    ok, sp, ptrs := PushStrings(u, dir, buf, args, words, stackTop, pages, img);
    if !ok { return; }
    var found, base := PlaceTable(sp, |args|, stackTop - STACK_SIZE);
    if !found { ok := false; return; }
    ok := WriteTable(u, dir, base, ptrs, stackTop, pages, Patched(img, sp, Flat(words)));
    if !ok { return; }
    rsp, argc, argv := base, |args|, base + 8;
  }

  // ----- what the program finds -----

  /** The n bytes of memory from an address on. */
  function BytesAt(img: nat -> Byte, a: nat, n: nat): (r: seq<Byte>)
  {
    seq(n, i requires 0 <= i < n => img(a + i))
  }

  /** The eight bytes from an address on are this number's. */
  ghost predicate HoldsNumber(img: nat -> Byte, a: nat, v: nat) {
    BytesAt(img, a, 8) == Quad(v)
  }

  ghost predicate ReadsString(img: nat -> Byte, a: nat, w: seq<Byte>) {
    BytesAt(img, a, |w| + 1) == w + [0]
  }

  /** Reading inside what was written, or outside it. */
  lemma PatchedBytes(img: nat -> Byte, base: nat, x: seq<Byte>, i: nat, n: nat)
    requires i + n <= |x|
    ensures BytesAt(Patched(img, base, x), base + i, n) == x[i..i + n]
  {
  }

  lemma UnpatchedBytes(img: nat -> Byte, base: nat, x: seq<Byte>, a: nat, n: nat)
    requires base + |x| <= a
    ensures BytesAt(Patched(img, base, x), a, n) == BytesAt(img, a, n)
  {
  }

  lemma {:induction false} NumbersAt(ptrs: seq<nat>, i: nat)
    requires i < |ptrs|
    ensures |Numbers(ptrs)| == 8 * |ptrs| && Numbers(ptrs)[8 * i..8 * i + 8] == Quad(ptrs[i])
    decreases |ptrs|
  {
    NumbersLength(ptrs);
    NumbersLength(ptrs[..|ptrs| - 1]);
    if i < |ptrs| - 1 {
      NumbersAt(ptrs[..|ptrs| - 1], i);
      assert Numbers(ptrs)[8 * i..8 * i + 8] == Numbers(ptrs[..|ptrs| - 1])[8 * i..8 * i + 8];
    }
  }

  lemma Middle(a: seq<Byte>, b: seq<Byte>, c: seq<Byte>, i: nat, n: nat)
    requires i + n <= |b|
    ensures (a + b + c)[|a| + i..|a| + i + n] == b[i..i + n]
  {
  }

  /** What the k-th number of the table is. */
  function Entry(ptrs: seq<nat>, k: nat): nat
  {
    if k == 0 then |ptrs| else if k <= |ptrs| then ptrs[k - 1] else 0
  }

  lemma FirstEntry(ptrs: seq<nat>)
    ensures |Table(ptrs)| == 8 * (|ptrs| + 2) && Table(ptrs)[..8] == Quad(|ptrs|)
  {
    NumbersLength(ptrs);
    FirstOf(Quad(|ptrs|), Numbers(ptrs), Quad(0));
  }

  lemma FirstOf(a: seq<Byte>, b: seq<Byte>, c: seq<Byte>)
    ensures (a + b + c)[..|a|] == a && (a + b + c)[|a| + |b|..] == c
  {
  }

  lemma PointerEntry(ptrs: seq<nat>, i: nat)
    requires i < |ptrs|
    ensures |Table(ptrs)| == 8 * (|ptrs| + 2) && Table(ptrs)[8 + 8 * i..8 + 8 * i + 8] == Quad(ptrs[i])
  {
    NumbersLength(ptrs);
    NumbersAt(ptrs, i);
    Middle(Quad(|ptrs|), Numbers(ptrs), Quad(0), 8 * i, 8);
  }

  lemma LastEntry(ptrs: seq<nat>)
    ensures |Table(ptrs)| == 8 * (|ptrs| + 2) && Table(ptrs)[8 * (|ptrs| + 1)..] == Quad(0)
  {
    NumbersLength(ptrs);
    FirstOf(Quad(|ptrs|), Numbers(ptrs), Quad(0));
  }

  lemma TableAt(ptrs: seq<nat>, k: nat)
    requires k <= |ptrs| + 1
    ensures |Table(ptrs)| == 8 * (|ptrs| + 2) && Table(ptrs)[8 * k..8 * k + 8] == Quad(Entry(ptrs, k))
  {
    if k == 0 {
      FirstEntry(ptrs);
    } else if k <= |ptrs| {
      PointerEntry(ptrs, k - 1);
    } else {
      LastEntry(ptrs);
    }
  }

  lemma TableReads(img: nat -> Byte, base: nat, ptrs: seq<nat>, k: nat)
    requires k <= |ptrs| + 1
    ensures HoldsNumber(Patched(img, base, Table(ptrs)), base + 8 * k, Entry(ptrs, k))
  {
    TableAt(ptrs, k);
    PatchedBytes(img, base, Table(ptrs), 8 * k, 8);
  }

  /** Each string lies whole between its pointer and the next. */
  lemma FlatAt(args: seq<seq<Byte>>, i: nat)
    requires i < |args|
    ensures var p := |Flat(args[..i])|;
            && p + |args[i]| + 1 <= |Flat(args)|
            && |Flat(args[..i + 1])| == p + |args[i]| + 1
            && Flat(args)[p..p + |args[i]|] == args[i] && Flat(args)[p + |args[i]|] == 0
  {
    FlatSplit(args, i);
    assert args[i..] == [args[i]] + args[i + 1..];
    StringBelow(args[i], args[i + 1..], 0);
    FlatSplit(args[..i + 1], i);
    assert args[..i + 1][..i] == args[..i] && args[..i + 1][i..] == [args[i]];
    StringBelow(args[i], [], 0);
    assert [args[i]] + [] == [args[i]];
  }

  /** The stack of the new program: the table is aligned and inside the stack;
      it holds argc, the pointers and NULL. */
  lemma ProgramTable(img: nat -> Byte, args: seq<seq<Byte>>, stackTop: nat, k: nat)
    requires STACK_SIZE <= stackTop && Room(args, stackTop) && k <= |args| + 1
    ensures var start := StringsStart(args, stackTop);
            var rsp := TableBase(|args|, start);
            && rsp % 16 == 0 && stackTop - STACK_SIZE <= rsp && rsp + TableSize(|args|) <= start < rsp + 16 + TableSize(|args|)
            && HoldsNumber(Laid(img, args, stackTop), rsp + 8 * k,
                           if k == 0 then |args| else if k <= |args| then Pointer(args, start, k - 1) else 0)
  {
    var start := StringsStart(args, stackTop);
    TableHolds(Patched(img, start, Flat(args)), TableBase(|args|, start), args, start, k);
  }

  lemma TableHolds(below: nat -> Byte, base: nat, args: seq<seq<Byte>>, start: nat, k: nat)
    requires k <= |args| + 1
    ensures HoldsNumber(Patched(below, base, Table(PointersOf(args, start))), base + 8 * k,
                        if k == 0 then |args| else if k <= |args| then Pointer(args, start, k - 1) else 0)
  {
    TableReads(below, base, PointersOf(args, start), k);
  }

  /** Each word stands behind its pointer with its terminator, each string right
      before the next, all of them above the table and inside the stack. */
  lemma ProgramString(img: nat -> Byte, args: seq<seq<Byte>>, stackTop: nat, i: nat)
    requires STACK_SIZE <= stackTop && Room(args, stackTop) && i < |args|
    ensures var start := StringsStart(args, stackTop);
            && Pointer(args, start, i) + |args[i]| + 1 == Pointer(args, start, i + 1) <= stackTop - REGION_GAP
            && ReadsString(Laid(img, args, stackTop), Pointer(args, start, i), args[i])
  {
    var start := StringsStart(args, stackTop);
    FlatAt(args, i);
    FlatLength(args, i + 1);
    NumbersLength(PointersOf(args, start));
    FlatFrom(args, start, i);
    ReadAbove(img, Flat(args), start, Pointer(args, start, i), TableBase(|args|, start), Table(PointersOf(args, start)), args[i]);
  }

  lemma FlatFrom(args: seq<seq<Byte>>, start: nat, i: nat)
    requires i < |args|
    ensures var at := Pointer(args, start, i);
            && start <= at && at - start + |args[i]| < |Flat(args)|
            && Flat(args)[at - start..at - start + |args[i]|] == args[i] && Flat(args)[at - start + |args[i]|] == 0
  {
    var p := |Flat(args[..i])|;
    FlatAt(args, i);
    assert Pointer(args, start, i) - start == p;
  }

  /** What lies below the strings does not touch them. */
  lemma ReadAbove(img: nat -> Byte, flat: seq<Byte>, start: nat, at: nat, base: nat, table: seq<Byte>, w: seq<Byte>)
    requires base + |table| <= start <= at && at - start + |w| < |flat|
    requires flat[at - start..at - start + |w|] == w && flat[at - start + |w|] == 0
    ensures ReadsString(Patched(Patched(img, start, flat), base, table), at, w)
  {
    var n := |w| + 1;
    UnpatchedBytes(Patched(img, start, flat), base, table, at, n);
    PatchedBytes(img, start, flat, at - start, n);
    WithEnd(flat, at - start, w);
  }

  lemma WithEnd(s: seq<Byte>, p: nat, w: seq<Byte>)
    requires p + |w| < |s| && s[p..p + |w|] == w && s[p + |w|] == 0
    ensures s[p..p + (|w| + 1)] == w + [0]
  {
  }

  /** The round trip: what the shell joins, the program finds, whenever the words
      fit the shell's buffer and the kernel's table. */
  lemma ArgumentsRoundTrip(path: seq<Byte>, args: seq<seq<Byte>>, fallback: seq<Byte>)
    requires Word(path) && forall i :: 0 <= i < |args| ==> args[i] == [] || Word(args[i])
    requires |Joined(path, args)| < CMDLINE_MAX && 1 + |NonEmpty(args)| <= ARG_MAX
    ensures ArgsOf(Joined(path, args), fallback) == [path] + NonEmpty(args)
    ensures Room([path] + NonEmpty(args), STACK_TOP)
  {
    WordsOfJoined(path, args);
    JoinedGrows(path, args, 0);
    assert args[..0] == [];
    ArgsAlwaysFit(Joined(path, args), fallback);
  }
}
