/** Paths: the shell's normal form of a path and the walk of the virtual file
    system along one agree (src/userland/programs/shell.c, src/kernel/fs/vfs.c). */
module Paths {

  const MAX_PATH := 256
  const MAX_FILENAME := 256
  const VFS_MAX_PATH := 1024

  // ----- segments -----

  function SkipSlashes(s: string, i: nat): (k: nat)
    requires i <= |s|
    ensures i <= k <= |s| && (k < |s| ==> s[k] != '/')
    ensures forall j :: i <= j < k ==> s[j] == '/'
    decreases |s| - i
  {
    if i < |s| && s[i] == '/' then SkipSlashes(s, i + 1) else i
  }

  function SegmentEnd(s: string, i: nat): (k: nat)
    requires i <= |s|
    ensures i <= k <= |s| && (k < |s| ==> s[k] == '/')
    ensures forall j :: i <= j < k ==> s[j] != '/'
    decreases |s| - i
  {
    if i < |s| && s[i] != '/' then SegmentEnd(s, i + 1) else i
  }

  /** The segments of a path from an index on: maximal runs without a slash. */
  function Segments(s: string, i: nat): seq<string>
    requires i <= |s|
    decreases |s| - i
  {
    var a := SkipSlashes(s, i);
    if a == |s| then [] else
      var b := SegmentEnd(s, a);
      [s[a..b]] + Segments(s, b)
  }

  predicate Segment(x: string) {
    x != "" && '/' !in x
  }

  /** A segment that names a child. */
  predicate Plain(x: string) {
    Segment(x) && x != "." && x != ".."
  }

  predicate AllPlain(segs: seq<string>) {
    forall i :: 0 <= i < |segs| ==> Plain(segs[i])
  }

  // ----- the normal form -----

  /** What one segment does to the path so far. */
  function Push(path: seq<string>, x: string): (r: seq<string>)
    requires AllPlain(path) && Segment(x)
    ensures AllPlain(r)
  {
    if x == "." then path
    else if x == ".." then (if path == [] then [] else path[..|path| - 1])
    else path + [x]
  }

  predicate AllSegments(segs: seq<string>) {
    forall i :: 0 <= i < |segs| ==> Segment(segs[i])
  }

  function Fold(path: seq<string>, segs: seq<string>): (r: seq<string>)
    requires AllPlain(path) && AllSegments(segs)
    ensures AllPlain(r)
    decreases |segs|
  {
    if segs == [] then path else Fold(Push(path, segs[0]), segs[1..])
  }

  /** The path written out: a slash before each segment, or one slash alone. */
  function Body(path: seq<string>): string
  {
    if path == [] then "" else Body(path[..|path| - 1]) + "/" + path[|path| - 1]
  }

  function Render(path: seq<string>): string
  {
    if path == [] then "/" else Body(path)
  }

  function Normal(s: string): string
  {
    SegmentsAre(s, 0);
    Render(Fold([], Segments(s, 0)))
  }

  lemma {:induction false} SegmentsAre(s: string, i: nat)
    requires i <= |s|
    ensures AllSegments(Segments(s, i))
    decreases |s| - i
  {
    var a := SkipSlashes(s, i);
    if a < |s| {
      SegmentsAre(s, SegmentEnd(s, a));
    }
  }

  // ----- reading a written path back -----

  lemma {:induction false} SkipIs(s: string, i: nat, k: nat)
    requires i <= k <= |s| && (forall j :: i <= j < k ==> s[j] == '/') && (k < |s| ==> s[k] != '/')
    ensures SkipSlashes(s, i) == k
    decreases k - i
  {
    if i < k {
      SkipIs(s, i + 1, k);
    }
  }

  lemma {:induction false} EndIs(s: string, i: nat, k: nat)
    requires i <= k <= |s| && (forall j :: i <= j < k ==> s[j] != '/') && (k < |s| ==> s[k] == '/')
    ensures SegmentEnd(s, i) == k
    decreases k - i
  {
    if i < k {
      EndIs(s, i + 1, k);
    }
  }

  lemma BodyShape(path: seq<string>)
    requires AllPlain(path)
    ensures Body(path) != "" <==> path != []
    ensures path != [] ==> Body(path)[0] == '/'
    ensures |Body(path)| != 1
  {
  }

  /** One more segment at the end of a string that ends in one. */
  lemma {:induction false} SegmentsSnoc(s: string, x: string, i: nat)
    requires i <= |s| && Segment(x)
    ensures Segments(s + "/" + x, i) == Segments(s, i) + [x]
    decreases |s| - i
  {
    var t := s + "/" + x;
    var a := SkipSlashes(s, i);
    if a == |s| {
      assert t[|s|] == '/' && t[|s| + 1] == x[0];
      SkipIs(t, i, |s| + 1);
      assert forall j :: |s| + 1 <= j < |t| ==> t[j] == x[j - |s| - 1];
      EndIs(t, |s| + 1, |t|);
      assert t[|s| + 1..|t|] == x;
      assert Segments(t, |t|) == [];
    } else {
      var b := SegmentEnd(s, a);
      SkipIs(t, i, a);
      EndIs(t, a, b);
      assert t[a..b] == s[a..b];
      SegmentsSnoc(s, x, b);
    }
  }

  lemma {:induction false} SegmentsOfBody(path: seq<string>)
    requires AllPlain(path)
    ensures Segments(Body(path), 0) == path
    decreases |path|
  {
    if path != [] {
      var n := |path| - 1;
      SegmentsOfBody(path[..n]);
      SegmentsSnoc(Body(path[..n]), path[n], 0);
      assert path[..n] + [path[n]] == path;
    }
  }

  /** Reading a written path back gives its segments. */
  lemma SegmentsOfRender(path: seq<string>)
    requires AllPlain(path)
    ensures Segments(Render(path), 0) == path
  {
    if path == [] {
      SkipIs("/", 0, 1);
    } else {
      SegmentsOfBody(path);
    }
  }

  lemma {:induction false} FoldPlain(path: seq<string>, segs: seq<string>)
    requires AllPlain(path) && AllPlain(segs)
    ensures Fold(path, segs) == path + segs
    decreases |segs|
  {
    if segs != [] {
      FoldPlain(path + [segs[0]], segs[1..]);
    }
  }

  /** The normal form of a normal form is itself. */
  lemma NormalIdempotent(s: string)
    ensures Normal(Normal(s)) == Normal(s)
  {
    SegmentsAre(s, 0);
    var path := Fold([], Segments(s, 0));
    SegmentsOfRender(path);
    FoldPlain([], path);
    assert [] + path == path;
  }

  /** No empty, "." or ".." segment, and no slash at the end but the root's. */
  predicate Canonical(s: string) {
    && s != "" && s[0] == '/'
    && (|s| > 1 ==> s[|s| - 1] != '/')
    && (forall i :: 0 <= i < |s| - 1 ==> !(s[i] == '/' && s[i + 1] == '/'))
    && AllPlain(Segments(s, 0))
  }

  lemma {:induction false} BodySlashes(path: seq<string>)
    requires AllPlain(path)
    ensures path != [] ==> Body(path)[|Body(path)| - 1] != '/'
    ensures forall i :: 0 <= i < |Body(path)| - 1 ==> !(Body(path)[i] == '/' && Body(path)[i + 1] == '/')
    decreases |path|
  {
    if path != [] {
      var n := |path| - 1;
      BodySlashes(path[..n]);
      var b, x := Body(path[..n]), path[n];
      forall i | 0 <= i < |b| + |x|
        ensures !(Body(path)[i] == '/' && Body(path)[i + 1] == '/')
      {
        assert Body(path)[i + 1] == if i + 1 < |b| then b[i + 1] else if i + 1 == |b| then '/' else x[i - |b|];
        assert Body(path)[i] == if i < |b| then b[i] else if i == |b| then '/' else x[i - |b| - 1];
      }
    }
  }

  lemma NormalIsCanonical(s: string)
    ensures Canonical(Normal(s))
  {
    SegmentsAre(s, 0);
    var path := Fold([], Segments(s, 0));
    SegmentsOfRender(path);
    BodyShape(path);
    BodySlashes(path);
  }

  // ----- the shell's normalize_path -----

  predicate Absolute(s: string)
  {
    s != "" && s[0] == '/'
  }

  /** The path the segments of an input lead to, from the root or from the current directory. */
  function Target(cwd: string, input: string): (path: seq<string>)
    ensures AllPlain(path)
  {
    SegmentsAre(cwd, 0);
    SegmentsAre(input, 0);
    Fold(if Absolute(input) then [] else Fold([], Segments(cwd, 0)), Segments(input, 0))
  }

  /** All segments on the way. */
  function Way(cwd: string, input: string): (segs: seq<string>)
    ensures AllSegments(segs)
  {
    SegmentsAre(cwd, 0);
    SegmentsAre(input, 0);
    if Absolute(input) then Segments(input, 0) else Segments(cwd, 0) + Segments(input, 0)
  }

  /** How long the two are together, with a slash where one is needed. */
  function JoinedLength(cwd: string, input: string): nat
  {
    if Absolute(input) then |input|
    else |cwd| + (if cwd != "" && cwd[|cwd| - 1] != '/' then 1 else 0) + |input|
  }

  /** The string normalize_path works on. */
  function Combined(cwd: string, input: string): string
  {
    if Absolute(input) then input
    else cwd + (if cwd != "" && cwd[|cwd| - 1] != '/' then "/" else "") + input
  }

  lemma SameSlice(t: string, rest: string, a: nat, b: nat)
    requires a <= b <= |t|
    ensures (t + rest)[a..b] == t[a..b]
  {
  }

  lemma {:induction false} TrailingSlashes(s: string, n: nat, i: nat)
    requires i <= n <= |s| && forall j :: n <= j < |s| ==> s[j] == '/'
    ensures Segments(s, i) == Segments(s[..n], i)
    decreases n - i
  {
    var t := s[..n];
    var a := SkipSlashes(t, i);
    if a == n {
      SkipIs(s, i, |s|);
    } else {
      var b := SegmentEnd(t, a);
      SkipIs(s, i, a);
      EndIs(s, a, b);
      assert s == t + s[n..];
      SameSlice(t, s[n..], a, b);
      TrailingSlashes(s, n, b);
    }
  }

  /** t continues with b from index n on. */
  predicate Continues(t: string, n: nat, b: string)
  {
    |t| == n + |b| && forall j :: 0 <= j < |b| ==> t[n + j] == b[j]
  }

  lemma SliceShift(t: string, n: nat, b: string, k: nat, e: nat)
    requires Continues(t, n, b) && k <= e <= |b|
    ensures t[n + k..n + e] == b[k..e]
  {
  }

  lemma SkipShift(t: string, n: nat, b: string, j: nat)
    requires Continues(t, n, b) && j <= |b|
    ensures SkipSlashes(t, n + j) == n + SkipSlashes(b, j)
  {
    var k := SkipSlashes(b, j);
    forall i | n + j <= i < n + k
      ensures t[i] == '/'
    {
      assert b[i - n] == '/';
    }
    assert k < |b| ==> t[n + k] == b[k];
    SkipIs(t, n + j, n + k);
  }

  lemma EndShift(t: string, n: nat, b: string, k: nat)
    requires Continues(t, n, b) && k <= |b|
    ensures SegmentEnd(t, n + k) == n + SegmentEnd(b, k)
  {
    var e := SegmentEnd(b, k);
    forall i | n + k <= i < n + e
      ensures t[i] != '/'
    {
      assert b[i - n] != '/';
    }
    assert e < |b| ==> t[n + e] == b[e];
    EndIs(t, n + k, n + e);
  }

  lemma OneMore(s: string, i: nat, a: nat, b: nat, x: string, rest: seq<string>)
    requires i <= |s| && a == SkipSlashes(s, i) && a < |s| && b == SegmentEnd(s, a) && s[a..b] == x && Segments(s, b) == rest
    ensures Segments(s, i) == [x] + rest
  {
  }

  lemma NoMore(s: string, i: nat)
    requires i <= |s| && SkipSlashes(s, i) == |s|
    ensures Segments(s, i) == []
  {
  }

  lemma SameStart(s: string, i: nat, j: nat)
    requires i <= |s| && j <= |s| && SkipSlashes(s, i) == SkipSlashes(s, j)
    ensures Segments(s, i) == Segments(s, j)
  {
  }

  lemma {:induction false} SegmentsShift(t: string, n: nat, b: string, j: nat, i: nat)
    requires Continues(t, n, b) && j <= |b| && i == n + j
    ensures Segments(t, i) == Segments(b, j)
    decreases |b| - j
  {
    SkipShift(t, n, b, j);
    if SkipSlashes(b, j) < |b| {
      var k', e', k, e := ShiftFacts(t, n, b, j, i);
      SegmentsShift(t, n, b, e, e');
      SameNext(t, i, k', e', b, j, k, e);
    } else {
      NoMore(t, i);
      NoMore(b, j);
    }
  }

  lemma ShiftFacts(t: string, n: nat, b: string, j: nat, i: nat) returns (k': nat, e': nat, k: nat, e: nat)
    requires Continues(t, n, b) && j <= |b| && i == n + j && SkipSlashes(b, j) < |b|
    ensures k == SkipSlashes(b, j) < |b| && e == SegmentEnd(b, k) && k < e
    ensures k' == SkipSlashes(t, i) < |t| && e' == SegmentEnd(t, k') == n + e && t[k'..e'] == b[k..e]
  {
    k, k' := SkipSlashes(b, j), n + SkipSlashes(b, j);
    e, e' := SegmentEnd(b, k), n + SegmentEnd(b, k);
    SkipShift(t, n, b, j);
    EndShift(t, n, b, k);
    SliceShift(t, n, b, k, e);
  }

  lemma SameNext(t: string, i: nat, k': nat, e': nat, b: string, j: nat, k: nat, e: nat)
    requires i <= |t| && k' == SkipSlashes(t, i) && k' < |t| && e' == SegmentEnd(t, k')
    requires j <= |b| && k == SkipSlashes(b, j) && k < |b| && e == SegmentEnd(b, k)
    requires t[k'..e'] == b[k..e] && Segments(t, e') == Segments(b, e)
    ensures Segments(t, i) == Segments(b, j)
  {
  }

  /** Before the end of a, where a string begins with it the walk is the same. */
  lemma SkipFront(a: string, b: string, i: nat)
    requires i <= |a| && SkipSlashes(a, i) < |a|
    ensures SkipSlashes(a + b, i) == SkipSlashes(a, i)
  {
    SkipIs(a + b, i, SkipSlashes(a, i));
  }

  lemma EndFront(a: string, b: string, k: nat)
    requires k <= |a| && SegmentEnd(a, k) < |a|
    ensures SegmentEnd(a + b, k) == SegmentEnd(a, k)
  {
    EndIs(a + b, k, SegmentEnd(a, k));
  }

  lemma SkipOn(a: string, b: string, i: nat)
    requires i <= |a| == SkipSlashes(a, i)
    ensures Segments(a + b, i) == Segments(b, 0)
  {
    var t, n := a + b, |a|;
    SkipShift(t, n, b, 0);
    var k := n + SkipSlashes(b, 0);
    forall j | i <= j < k
      ensures t[j] == '/'
    {
      assert j >= n ==> b[j - n] == '/';
    }
    SkipIs(t, i, k);
    SameStart(t, i, n);
    SegmentsShift(t, n, b, 0, n);
  }

  /** What follows a slash starts a new segment. */
  lemma {:induction false} SegmentsConcat(a: string, b: string, i: nat)
    requires i <= |a| && (a != "" ==> a[|a| - 1] == '/')
    ensures Segments(a + b, i) == Segments(a, i) + Segments(b, 0)
    decreases |a| - i
  {
    var k := SkipSlashes(a, i);
    if k == |a| {
      SkipOn(a, b, i);
      NoMore(a, i);
    } else {
      LastInside(a, k);
      SegmentsConcat(a, b, SegmentEnd(a, k));
      ConcatNext(a, b, i, k, SegmentEnd(a, k));
    }
  }

  lemma LastInside(a: string, k: nat)
    requires k < |a| && a[|a| - 1] == '/' && a[k] != '/'
    ensures k < SegmentEnd(a, k) < |a|
  {
  }

  lemma ConcatNext(a: string, b: string, i: nat, k: nat, e: nat)
    requires i <= |a| && k == SkipSlashes(a, i) && k < |a| && e == SegmentEnd(a, k) && e < |a|
    requires Segments(a + b, e) == Segments(a, e) + Segments(b, 0)
    ensures Segments(a + b, i) == Segments(a, i) + Segments(b, 0)
  {
    SkipFront(a, b, i);
    EndFront(a, b, k);
    SameSlice(a, b, k, e);
    OneMore(a, i, k, e, a[k..e], Segments(a, e));
    OneMore(a + b, i, k, e, a[k..e], Segments(a, e) + Segments(b, 0));
  }

  lemma CombinedSegments(cwd: string, input: string)
    ensures Segments(Combined(cwd, input), 0) == Way(cwd, input) && |Combined(cwd, input)| == JoinedLength(cwd, input)
  {
    if !Absolute(input) {
      if cwd != "" && cwd[|cwd| - 1] != '/' {
        var a := cwd + "/";
        TrailingSlashes(a, |cwd|, 0);
        assert a[..|cwd|] == cwd;
        SegmentsConcat(a, input, 0);
      } else {
        SegmentsConcat(cwd, input, 0);
        assert cwd + "" + input == cwd + input;
      }
    }
  }

  lemma {:induction false} FoldConcat(path: seq<string>, a: seq<string>, b: seq<string>)
    requires AllPlain(path) && AllSegments(a) && AllSegments(b)
    ensures Fold(path, a + b) == Fold(Fold(path, a), b)
    decreases |a|
  {
    if a == [] {
      assert a + b == b;
    } else {
      assert (a + b)[1..] == a[1..] + b;
      FoldConcat(Push(path, a[0]), a[1..], b);
    }
  }

  lemma NormalOfCombined(cwd: string, input: string)
    ensures Normal(Combined(cwd, input)) == Render(Target(cwd, input))
  {
    SegmentsAre(cwd, 0);
    SegmentsAre(input, 0);
    CombinedSegments(cwd, input);
    if !Absolute(input) {
      FoldConcat([], Segments(cwd, 0), Segments(input, 0));
    }
  }

  /** Every path written on the way leaves room for the end of the string. */
  predicate Fits(path: seq<string>, segs: seq<string>, size: nat)
    requires AllPlain(path) && AllSegments(segs)
    decreases |segs|
  {
    segs == [] ||
    var next := Push(path, segs[0]);
    (Plain(segs[0]) ==> |Render(next)| < size) && Fits(next, segs[1..], size)
  }

  function Total(segs: seq<string>): nat
  {
    if segs == [] then 0 else 1 + |segs[0]| + Total(segs[1..])
  }

  lemma {:induction false} TotalBound(s: string, i: nat)
    requires i <= |s| && (i < |s| ==> s[i] == '/')
    ensures Total(Segments(s, i)) <= |s| - i
    decreases |s| - i
  {
    var a := SkipSlashes(s, i);
    if a < |s| {
      TotalBound(s, SegmentEnd(s, a));
    }
  }

  lemma {:induction false} FitsInRoom(path: seq<string>, segs: seq<string>, size: nat)
    requires AllPlain(path) && AllSegments(segs) && |Body(path)| + Total(segs) < size
    ensures Fits(path, segs, size)
    decreases |segs|
  {
    if segs != [] {
      var next := Push(path, segs[0]);
      if segs[0] == ".." && path != [] {
        assert |Body(path)| == |Body(next)| + 1 + |path[|path| - 1]|;
      } else if Plain(segs[0]) {
        assert next[..|path|] == path;
      }
      FitsInRoom(next, segs[1..], size);
    }
  }

  predicate Normalizes(cwd: string, input: string, size: nat) {
    size >= 2 && JoinedLength(cwd, input) < MAX_PATH && Fits([], Way(cwd, input), size)
  }

  /** With the shell's own buffers only the length of the joined path decides. */
  lemma NormalizesIffShort(cwd: string, input: string, size: nat)
    requires cwd != "" && cwd[0] == '/' && size >= MAX_PATH
    ensures Normalizes(cwd, input, size) <==> JoinedLength(cwd, input) < MAX_PATH
  {
    var s := Combined(cwd, input);
    CombinedSegments(cwd, input);
    TotalBound(s, 0);
    if |s| < MAX_PATH {
      FitsInRoom([], Segments(s, 0), size);
    }
  }

  /** The next segment, copied out; its buffer is as long as the joined path's,
      so it cannot overflow. */
  method NextSegment(s: string, start: nat) returns (segment: string, i: nat)
    requires start < |s| < MAX_PATH && s[start] != '/'
    ensures i == SegmentEnd(s, start) && segment == s[start..i] && start < i
  {
    i, segment := start, "";
    while i < |s| && s[i] != '/'
      invariant start <= i <= |s| && segment == s[start..i]
      invariant SegmentEnd(s, start) == SegmentEnd(s, i)
    {
      assert |segment| + 1 < MAX_PATH;
      segment := segment + [s[i]];
      i := i + 1;
    }
  }

  /** Over the slashes at the end. */
  method SkipBack(out: array<char>, outLen: nat) returns (p: nat)
    requires outLen <= out.Length
    ensures p <= outLen && (p < outLen ==> out[outLen - 1] == '/')
  {
    p := outLen;
    while p > 1 && out[p - 1] == '/'
      invariant p <= outLen && (p < outLen ==> out[outLen - 1] == '/')
    {
      p := p - 1;
    }
  }

  /** Where the path before the last segment ends. */
  method ParentEnd(out: array<char>, outLen: nat, ghost path: seq<string>) returns (n: nat)
    requires AllPlain(path) && path != [] && outLen <= out.Length && out[..outLen] == Render(path)
    ensures n <= outLen && out[..n] == Render(path[..|path| - 1])
  {
    ghost var b, x := Body(path[..|path| - 1]), path[|path| - 1];
    var p := SkipBack(out, outLen);
    assert out[..outLen] == b + "/" + x;
    assert out[outLen - 1] == x[|x| - 1];
    while p > 1 && out[p - 1] != '/'
      invariant |b| + 1 <= p <= outLen
    {
      assert out[p - 1] == (b + "/" + x)[p - 1];
      p := p - 1;
    }
    assert out[|b|] == (b + "/" + x)[|b|];
    assert p == |b| + 1;
    n := if p > 1 then p - 1 else 1;
    BodyShape(path[..|path| - 1]);
  }

  method Append(out: array<char>, outLen: nat, segment: string) returns (n: nat)
    requires outLen + |segment| < out.Length
    modifies out
    ensures n == outLen + |segment| && out[..n] == old(out[..outLen]) + segment && out[n] == '\0'
  {
    n := outLen;
    for j := 0 to |segment|
      invariant n == outLen + j && out[..n] == old(out[..outLen]) + segment[..j]
    {
      out[n] := segment[j];
      n := n + 1;
    }
    out[n] := '\0';
    assert out[..n] == old(out[..outLen]) + segment;
  }

  /** One more name, written out. */
  lemma RenderPush(path: seq<string>, x: string)
    requires AllPlain(path) && Plain(x)
    ensures AllPlain(path + [x]) && |Render(path)| >= 1 && (|Render(path)| == 1 <==> path == [])
    ensures Render(path + [x]) == (if path == [] then "/" else Render(path) + "/") + x
  {
    BodyShape(path);
    assert (path + [x])[..|path|] == path;
  }

  /** A name at the end of the output buffer. */
  method PushName(out: array<char>, outLen: nat, segment: string, ghost path: seq<string>) returns (ok: bool, n: nat)
    requires AllPlain(path) && Plain(segment)
    requires outLen < out.Length && out[..outLen] == Render(path)
    modifies out
    ensures ok <==> |Render(path + [segment])| < out.Length
    ensures ok ==> n < out.Length && out[..n] == Render(path + [segment]) && out[n] == '\0'
  {
    RenderPush(path, segment);
    n := outLen;
    ghost var front := Render(path);
    if n > 1 {
      if n + 1 >= out.Length { return false, n; }
      out[n] := '/';
      n := n + 1;
      front := Render(path) + "/";
      assert out[..n] == front;
    }
    if n + |segment| >= out.Length { return false, n; }
    n := Append(out, n, segment);
    assert out[..n] == front + segment;
    return true, n;
  }

  /** What one segment does to the output buffer. */
  method PushSegment(out: array<char>, outLen: nat, segment: string, ghost path: seq<string>)
    returns (ok: bool, n: nat)
    requires AllPlain(path) && Segment(segment)
    requires outLen < out.Length && out[..outLen] == Render(path) && out[outLen] == '\0'
    modifies out
    ensures ok <==> (Plain(segment) ==> |Render(Push(path, segment))| < out.Length)
    ensures ok ==> n < out.Length && out[..n] == Render(Push(path, segment)) && out[n] == '\0'
  {
    if segment == "." { return true, outLen; }
    if segment == ".." {
      n := PopSegment(out, outLen, path);
      return true, n;
    }
    ok, n := PushName(out, outLen, segment, path);
  }

  /** ".." takes the last name off, unless there is none. */
  method PopSegment(out: array<char>, outLen: nat, ghost path: seq<string>) returns (n: nat)
    requires AllPlain(path) && outLen < out.Length && out[..outLen] == Render(path) && out[outLen] == '\0'
    modifies out
    ensures n < out.Length && out[..n] == Render(Push(path, "..")) && out[n] == '\0'
  {
    BodyShape(path);
    n := outLen;
    if n > 1 {
      n := ParentEnd(out, n, path);
      out[n] := '\0';
    }
  }

  /** normalize_path: 0 and the path the input leads to from the current directory, or -1. */
  method NormalizePath(cwd: string, input: string, out: array<char>) returns (status: int, n: nat)
    modifies out
    ensures status == if Normalizes(cwd, input, out.Length) then 0 else -1
    ensures status == 0 ==> n < out.Length && out[n] == '\0' && out[..n] == Render(Target(cwd, input))
  {
    var s := Combined(cwd, input);
    SegmentsAre(s, 0);
    CombinedSegments(cwd, input);
    NormalOfCombined(cwd, input);
    if out.Length < 2 { return -1, 0; }
    if |s| >= MAX_PATH { return -1, 0; }
    n := 1;
    out[0], out[1] := '/', '\0';
    var i := 0;
    ghost var path: seq<string> := [];
    assert out[..1] == "/";
    while i < |s|
      invariant i <= |s| && AllPlain(path) && AllSegments(Segments(s, i))
      invariant n < out.Length && out[..n] == Render(path) && out[n] == '\0'
      invariant Fold(path, Segments(s, i)) == Fold([], Segments(s, 0))
      invariant Fits(path, Segments(s, i), out.Length) == Fits([], Segments(s, 0), out.Length)
    {
      var start := NextStart(s, i);
      if start == |s| { break; }
      var segment, next := NextSegment(s, start);
      assert Segments(s, i) == [segment] + Segments(s, next);
      var ok, m := PushSegment(out, n, segment, path);
      if !ok { return -1, n; }
      path := Push(path, segment);
      i, n := next, m;
    }
    return 0, n;
  }

  method NextStart(s: string, start: nat) returns (i: nat)
    requires start <= |s|
    ensures i == SkipSlashes(s, start)
  {
    i := start;
    while i < |s| && s[i] == '/'
      invariant start <= i <= |s| && SkipSlashes(s, start) == SkipSlashes(s, i)
    {
      i := i + 1;
    }
  }

  // ----- the file system tree -----

  datatype VNode = VNode(name: string, directory: bool, parent: int, children: seq<nat>)

  const NULL := -1

  /** The part of memory that hangs below a root: the children of a directory
      name it as their parent. */
  ghost predicate Linked(nodes: map<nat, VNode>, live: set<nat>) {
    forall p :: p in live ==> p in nodes && LinkedAt(nodes, live, p)
  }

  ghost predicate LinkedAt(nodes: map<nat, VNode>, live: set<nat>, p: nat)
    requires p in nodes
  {
    && (nodes[p].parent == NULL || (nodes[p].parent >= 0 && nodes[p].parent in live))
    && forall i :: 0 <= i < |nodes[p].children| ==>
         var c := nodes[p].children[i];
         c in live && c in nodes && nodes[c].parent == p
  }

  function UpperAscii(c: char): char
  {
    if 'a' <= c <= 'z' then c - 'a' + 'A' else c
  }

  /** Two letters of the alphabet that differ in case only. */
  predicate OneLetter(small: char, capital: char)
  {
    exists i :: 0 <= i < 26 && small == "abcdefghijklmnopqrstuvwxyz"[i] && capital == "ABCDEFGHIJKLMNOPQRSTUVWXYZ"[i]
  }

  lemma UpperMeans(a: char, b: char)
    ensures UpperAscii(a) == UpperAscii(b) <==> SameLetter(a, b)
  {
    LetterMeans(a, b);
    LetterMeans(b, a);
  }

  lemma LetterMeans(a: char, b: char)
    ensures OneLetter(a, b) <==> 'a' <= a <= 'z' && b as int == a as int - 32
  {
    var small, capital := "abcdefghijklmnopqrstuvwxyz", "ABCDEFGHIJKLMNOPQRSTUVWXYZ";
    assert forall i :: 0 <= i < 26 ==> small[i] as int == 97 + i && capital[i] as int == 65 + i;
    if 'a' <= a <= 'z' && b as int == a as int - 32 {
      assert small[a as int - 97] == a && capital[a as int - 97] == b;
    }
  }

  predicate SameLetter(a: char, b: char)
  {
    a == b || OneLetter(a, b) || OneLetter(b, a)
  }

  /** Names match without regard to case exactly when they do letter by letter. */
  lemma MatchesLetters(have: string, want: string)
    ensures Matches(have, want, true) <==> |have| == |want| && forall i :: 0 <= i < |have| ==> SameLetter(have[i], want[i])
  {
    var a, b := Upper(have), Upper(want);
    if |have| == |want| {
      forall i | 0 <= i < |have|
        ensures a[i] == b[i] <==> SameLetter(have[i], want[i])
      {
        UpperMeans(have[i], want[i]);
      }
      assert a == b <==> forall i :: 0 <= i < |have| ==> a[i] == b[i];
    } else {
      assert |a| != |b|;
    }
  }

  function Upper(s: string): string
  {
    seq(|s|, i requires 0 <= i < |s| => UpperAscii(s[i]))
  }

  predicate Matches(have: string, want: string, nocase: bool)
  {
    if nocase then Upper(have) == Upper(want) else have == want
  }

  predicate Known(kids: seq<nat>, nodes: map<nat, VNode>) {
    forall i :: 0 <= i < |kids| ==> kids[i] in nodes
  }

  /** The first child of that name, exactly or, when `nocase`, but for case. */
  function Find(nodes: map<nat, VNode>, kids: seq<nat>, name: string, nocase: bool): (r: int)
    requires Known(kids, nodes)
    ensures r == NULL || (r >= 0 && r in kids)
  {
    if kids == [] then NULL
    else if Matches(nodes[kids[0]].name, name, nocase) then kids[0]
    else Find(nodes, kids[1..], name, nocase)
  }

  ghost predicate FirstMatch(nodes: map<nat, VNode>, kids: seq<nat>, name: string, nocase: bool, i: nat)
    requires Known(kids, nodes) && i < |kids|
  {
    && Matches(nodes[kids[i]].name, name, nocase)
    && forall j :: 0 <= j < i ==> !Matches(nodes[kids[j]].name, name, nocase)
  }

  /** The child found has the name and no earlier one has; none is found only when none has it. */
  ghost predicate IsFirst(nodes: map<nat, VNode>, kids: seq<nat>, name: string, nocase: bool, r: int)
    requires Known(kids, nodes)
  {
    if r == NULL then forall j :: 0 <= j < |kids| ==> !Matches(nodes[kids[j]].name, name, nocase)
    else exists i: nat :: i < |kids| && kids[i] == r && FirstMatch(nodes, kids, name, nocase, i)
  }

  lemma {:induction false} FindIsFirst(nodes: map<nat, VNode>, kids: seq<nat>, name: string, nocase: bool)
    requires Known(kids, nodes)
    ensures IsFirst(nodes, kids, name, nocase, Find(nodes, kids, name, nocase))
    decreases |kids|
  {
    if kids != [] {
      var rest := kids[1..];
      if Matches(nodes[kids[0]].name, name, nocase) {
        assert FirstMatch(nodes, kids, name, nocase, 0);
      } else {
        FindIsFirst(nodes, rest, name, nocase);
        var r := Find(nodes, rest, name, nocase);
        if r == NULL {
          assert forall j :: 0 < j < |kids| ==> kids[j] == rest[j - 1];
        } else {
          var i: nat :| i < |rest| && rest[i] == r && FirstMatch(nodes, rest, name, nocase, i);
          assert forall j :: 0 < j < |kids| ==> kids[j] == rest[j - 1];
          assert kids[i + 1] == r && FirstMatch(nodes, kids, name, nocase, i + 1);
        }
      }
    }
  }

  function Lookup(nodes: map<nat, VNode>, p: nat, name: string): (r: int)
    requires p in nodes && Known(nodes[p].children, nodes)
    ensures r == NULL || (r >= 0 && r in nodes[p].children)
  {
    if !nodes[p].directory then NULL
    else
      var exact := Find(nodes, nodes[p].children, name, false);
      if exact != NULL then exact else Find(nodes, nodes[p].children, name, true)
  }

  /** The walk's lookup prefers an exact match, and finds something exactly when a
      child's name matches letter by letter. */
  lemma LookupMeans(nodes: map<nat, VNode>, p: nat, name: string)
    requires p in nodes && Known(nodes[p].children, nodes)
    ensures var kids, r := nodes[p].children, Lookup(nodes, p, name);
            && (r != NULL <==> nodes[p].directory && exists i :: 0 <= i < |kids| && Matches(nodes[kids[i]].name, name, true))
            && (r != NULL ==> Matches(nodes[r].name, name, true))
            && (r != NULL && (exists i :: 0 <= i < |kids| && nodes[kids[i]].name == name) ==> nodes[r].name == name)
  {
    FindIsFirst(nodes, nodes[p].children, name, false);
    FindIsFirst(nodes, nodes[p].children, name, true);
  }

  ghost predicate Whole(nodes: map<nat, VNode>) {
    forall p :: p in nodes ==> Known(nodes[p].children, nodes) && (nodes[p].parent == NULL || (nodes[p].parent >= 0 && nodes[p].parent in nodes))
  }

  /** One segment of a walk. */
  ghost function Enter(nodes: map<nat, VNode>, p: nat, x: string): (r: int)
    requires Whole(nodes) && p in nodes
    ensures r == NULL || (r >= 0 && r in nodes)
  {
    if |x| >= MAX_FILENAME then NULL
    else if x == "." then p
    else if x == ".." then (if nodes[p].parent != NULL then nodes[p].parent else p)
    else Lookup(nodes, p, x)
  }

  ghost function Walk(nodes: map<nat, VNode>, p: nat, segs: seq<string>): (r: int)
    requires Whole(nodes) && p in nodes
    ensures r == NULL || (r >= 0 && r in nodes)
    decreases |segs|
  {
    if segs == [] then p
    else
      var next := Enter(nodes, p, segs[0]);
      if next == NULL then NULL else Walk(nodes, next, segs[1..])
  }

  ghost function Resolve(nodes: map<nat, VNode>, root: int, s: string): (r: int)
    requires Whole(nodes) && (root == NULL || (root >= 0 && root in nodes))
  {
    if root == NULL || s == "" || s[0] != '/' then NULL else Walk(nodes, root, Segments(s, 0))
  }

  // ----- agreement -----

  lemma {:induction false} WalkStays(nodes: map<nat, VNode>, live: set<nat>, p: nat, segs: seq<string>)
    requires Whole(nodes) && Linked(nodes, live) && p in live
    ensures Walk(nodes, p, segs) != NULL ==> Walk(nodes, p, segs) in live
    decreases |segs|
  {
    if segs != [] {
      var next := Enter(nodes, p, segs[0]);
      assert LinkedAt(nodes, live, p);
      if next != NULL {
        WalkStays(nodes, live, next, segs[1..]);
      }
    }
  }

  lemma {:induction false} WalkSnoc(nodes: map<nat, VNode>, p: nat, path: seq<string>, x: string)
    requires Whole(nodes) && p in nodes && Walk(nodes, p, path) != NULL
    ensures Walk(nodes, p, path + [x]) == Enter(nodes, Walk(nodes, p, path), x)
    decreases |path|
  {
    if path == [] {
      assert [x][1..] == [];
    } else {
      WalkSnoc(nodes, Enter(nodes, p, path[0]), path[1..], x);
      assert (path + [x])[1..] == path[1..] + [x];
    }
  }

  lemma {:induction false} WalkPrefix(nodes: map<nat, VNode>, p: nat, path: seq<string>, x: string)
    requires Whole(nodes) && p in nodes && Walk(nodes, p, path + [x]) != NULL
    ensures Walk(nodes, p, path) != NULL
    decreases |path|
  {
    if path != [] {
      assert (path + [x])[1..] == path[1..] + [x];
      WalkPrefix(nodes, Enter(nodes, p, path[0]), path[1..], x);
    }
  }

  /** Following the segments from where the path so far leads is following the
      path they turn it into from the root. */
  lemma {:induction false} WalkFold(nodes: map<nat, VNode>, live: set<nat>, root: nat, path: seq<string>, segs: seq<string>)
    requires Whole(nodes) && Linked(nodes, live) && root in live && nodes[root].parent == NULL
    requires AllPlain(path) && AllSegments(segs)
    requires Walk(nodes, root, path) != NULL && Walk(nodes, Walk(nodes, root, path), segs) != NULL
    ensures Walk(nodes, root, Fold(path, segs)) == Walk(nodes, Walk(nodes, root, path), segs)
    decreases |segs|
  {
    if segs != [] {
      var x, cur := segs[0], Walk(nodes, root, path);
      var next := Push(path, x);
      if Plain(x) {
        WalkSnoc(nodes, root, path, x);
      } else if x == ".." && path != [] {
        var front, last := path[..|path| - 1], path[|path| - 1];
        assert path == front + [last];
        WalkPrefix(nodes, root, front, last);
        WalkSnoc(nodes, root, front, last);
        WalkStays(nodes, live, root, front);
        assert LinkedAt(nodes, live, Walk(nodes, root, front));
      }
      WalkFold(nodes, live, root, next, segs[1..]);
    }
  }

  /** Whenever an absolute path leads somewhere, its normal form leads there. */
  lemma NormalLeadsThere(nodes: map<nat, VNode>, live: set<nat>, root: nat, s: string)
    requires Whole(nodes) && Linked(nodes, live) && root in live && nodes[root].parent == NULL
    requires Resolve(nodes, root, s) != NULL
    ensures Resolve(nodes, root, Normal(s)) == Resolve(nodes, root, s)
  {
    SegmentsAre(s, 0);
    var path := Fold([], Segments(s, 0));
    WalkFold(nodes, live, root, [], Segments(s, 0));
    SegmentsOfRender(path);
    BodyShape(path);
  }

  lemma {:induction false} FoldSnoc(path: seq<string>, segs: seq<string>, x: string)
    requires AllPlain(path) && AllSegments(segs) && Segment(x)
    ensures Fold(path, segs + [x]) == Push(Fold(path, segs), x)
    decreases |segs|
  {
    if segs == [] {
      assert [x][1..] == [];
    } else {
      FoldSnoc(Push(path, segs[0]), segs[1..], x);
      assert (segs + [x])[1..] == segs[1..] + [x];
    }
  }

  /** Where each ".." steps back from, the normal form so far leads somewhere. */
  ghost predicate BackFromNodes(nodes: map<nat, VNode>, root: nat, segs: seq<string>)
    requires Whole(nodes) && root in nodes && AllSegments(segs)
  {
    forall k :: 0 <= k < |segs| && segs[k] == ".." ==> Walk(nodes, root, Fold([], segs[..k])) != NULL
  }

  lemma BackSnoc(nodes: map<nat, VNode>, root: nat, segs: seq<string>, x: string)
    requires Whole(nodes) && root in nodes && AllSegments(segs) && Segment(x)
    ensures BackFromNodes(nodes, root, segs + [x]) <==>
              BackFromNodes(nodes, root, segs) && (x == ".." ==> Walk(nodes, root, Fold([], segs)) != NULL)
  {
    var all := segs + [x];
    assert forall k :: 0 <= k < |segs| ==> all[..k] == segs[..k] && all[k] == segs[k];
    assert all[..|segs|] == segs && all[|segs|] == x;
  }

  /** A walk succeeds exactly when its normal form does and no ".." steps back
      over a name that does not exist. */
  lemma {:induction false} WalkIffFold(nodes: map<nat, VNode>, live: set<nat>, root: nat, segs: seq<string>)
    requires Whole(nodes) && Linked(nodes, live) && root in live && nodes[root].parent == NULL && AllSegments(segs)
    ensures Walk(nodes, root, segs) != NULL <==>
              Walk(nodes, root, Fold([], segs)) != NULL && BackFromNodes(nodes, root, segs)
    decreases |segs|
  {
    if segs != [] {
      var pre, x := segs[..|segs| - 1], segs[|segs| - 1];
      assert segs == pre + [x];
      WalkIffFold(nodes, live, root, pre);
      BackSnoc(nodes, root, pre, x);
      FoldSnoc([], pre, x);
      if Walk(nodes, root, segs) != NULL {
        WalkPrefix(nodes, root, pre, x);
        WalkFold(nodes, live, root, [], pre);
        WalkFold(nodes, live, root, [], segs);
      } else if Walk(nodes, root, Fold([], segs)) != NULL && BackFromNodes(nodes, root, segs) {
        FoldBack(nodes, live, root, pre, x);
        assert false;
      }
    }
  }

  /** The step back to the walk, for the last segment. */
  lemma FoldBack(nodes: map<nat, VNode>, live: set<nat>, root: nat, pre: seq<string>, x: string)
    requires Whole(nodes) && Linked(nodes, live) && root in live && nodes[root].parent == NULL
    requires AllSegments(pre) && Segment(x)
    requires Walk(nodes, root, Fold([], pre)) != NULL ==> Walk(nodes, root, pre) != NULL
    requires x == ".." ==> Walk(nodes, root, Fold([], pre)) != NULL
    requires Walk(nodes, root, Push(Fold([], pre), x)) != NULL
    ensures Walk(nodes, root, pre + [x]) != NULL
  {
    var path := Fold([], pre);
    if Plain(x) {
      WalkPrefix(nodes, root, path, x);
      WalkSnoc(nodes, root, path, x);
    }
    WalkFold(nodes, live, root, [], pre);
    WalkSnoc(nodes, root, pre, x);
  }

  /** An absolute path leads somewhere exactly when its normal form does and
      every ".." in it steps back from a path whose normal form leads somewhere. */
  lemma LeadsIffNormal(nodes: map<nat, VNode>, live: set<nat>, root: nat, s: string)
    requires Whole(nodes) && Linked(nodes, live) && root in live && nodes[root].parent == NULL
    requires s != "" && s[0] == '/'
    ensures AllSegments(Segments(s, 0))
    ensures Resolve(nodes, root, s) != NULL <==>
              Resolve(nodes, root, Normal(s)) != NULL && BackFromNodes(nodes, root, Segments(s, 0))
  {
    SegmentsAre(s, 0);
    var path := Fold([], Segments(s, 0));
    WalkIffFold(nodes, live, root, Segments(s, 0));
    SegmentsOfRender(path);
    BodyShape(path);
  }

  /** Without ".." a path and its normal form are the same to the walk. */
  lemma LeadsWithoutBack(nodes: map<nat, VNode>, live: set<nat>, root: nat, s: string)
    requires Whole(nodes) && Linked(nodes, live) && root in live && nodes[root].parent == NULL
    requires s != "" && s[0] == '/' && ".." !in Segments(s, 0)
    ensures Resolve(nodes, root, s) == Resolve(nodes, root, Normal(s))
  {
    LeadsIffNormal(nodes, live, root, s);
    if Resolve(nodes, root, s) != NULL {
      NormalLeadsThere(nodes, live, root, s);
    }
  }

  lemma {:induction false} WalkConcat(nodes: map<nat, VNode>, p: nat, a: seq<string>, b: seq<string>)
    requires Whole(nodes) && p in nodes
    ensures Walk(nodes, p, a + b) == if Walk(nodes, p, a) == NULL then NULL else Walk(nodes, Walk(nodes, p, a), b)
    decreases |a|
  {
    if a == [] {
      assert a + b == b;
    } else {
      assert (a + b)[1..] == a[1..] + b;
      var next := Enter(nodes, p, a[0]);
      if next != NULL { WalkConcat(nodes, next, a[1..], b); }
    }
  }

  /** Walking a relative input from the current directory arrives where the
      normalised path leads, and arrives at all exactly when that path leads
      somewhere and every ".." on the way steps back from a node. */
  lemma TargetIsReached(nodes: map<nat, VNode>, live: set<nat>, root: nat, cwd: string, input: string)
    requires Whole(nodes) && Linked(nodes, live) && root in live && nodes[root].parent == NULL
    requires Absolute(cwd) && !Absolute(input)
    ensures var here, there := Resolve(nodes, root, cwd), Resolve(nodes, root, Render(Target(cwd, input)));
            && (here != NULL && Walk(nodes, here, Segments(input, 0)) != NULL ==> there == Walk(nodes, here, Segments(input, 0)))
            && (here != NULL && Walk(nodes, here, Segments(input, 0)) != NULL <==>
                  there != NULL && BackFromNodes(nodes, root, Way(cwd, input)))
  {
    var s := Combined(cwd, input);
    CombinedSegments(cwd, input);
    NormalOfCombined(cwd, input);
    assert s[0] == '/';
    WalkConcat(nodes, root, Segments(cwd, 0), Segments(input, 0));
    LeadsIffNormal(nodes, live, root, s);
    if Resolve(nodes, root, s) != NULL {
      NormalLeadsThere(nodes, live, root, s);
    }
  }

  lemma BackSegments()
    ensures Segments("/a/..", 0) == ["a", ".."]
  {
    var s := "/a/..";
    SkipIs(s, 0, 1);
    EndIs(s, 1, 2);
    SkipIs(s, 2, 3);
    EndIs(s, 3, 5);
    assert s[1..2] == "a" && s[3..5] == "..";
    assert Segments(s, 5) == [];
  }

  lemma BackFolds()
    ensures AllSegments(["a", ".."]) && Fold([], ["a", ".."]) == []
  {
    var a, back := "a", "..";
    assert Segment(a) && Segment(back);
    FoldSnoc([], [a], back);
    assert Fold([], [a]) == Fold([a], []) == [a];
    assert [a] + [back] == [a, back];
  }

  /** The normal form of a path that leads nowhere may lead somewhere: a step
      back over a name that does not exist is forgotten. */
  lemma NormalLeadsFurther()
    ensures var nodes: map<nat, VNode> := map[0 := VNode("/", true, NULL, [])];
            Whole(nodes) && Resolve(nodes, 0, "/a/..") == NULL && Resolve(nodes, 0, Normal("/a/..")) == 0
  {
    var nodes: map<nat, VNode> := map[0 := VNode("/", true, NULL, [])];
    BackSegments();
    BackFolds();
    SkipIs("/", 0, 1);
    assert Enter(nodes, 0, "a") == NULL;
  }

  // ----- the file system in memory -----

  class Vfs {
    var nodes: map<nat, VNode>
    var root: int

    ghost predicate Valid()
      reads this
    {
      Whole(nodes) && (root == NULL || (root >= 0 && root in nodes))
    }

    /** vfs_init */
    constructor ()
      ensures Valid() && root == NULL && nodes == map[]
    {
      nodes, root := map[], NULL;
    }

    /** vfs_find_child and vfs_find_child_nocase */
    method FindChild(parent: nat, name: string, nocase: bool) returns (r: int)
      requires Valid() && parent in nodes
      ensures r == if nodes[parent].directory then Find(nodes, nodes[parent].children, name, nocase) else NULL
      ensures nodes[parent].directory ==> IsFirst(nodes, nodes[parent].children, name, nocase, r)
    {
      if !nodes[parent].directory { return NULL; }
      var kids := nodes[parent].children;
      FindIsFirst(nodes, kids, name, nocase);
      var i := 0;
      while i < |kids|
        invariant i <= |kids|
        invariant Find(nodes, kids, name, nocase) == Find(nodes, kids[i..], name, nocase)
      {
        assert kids[i..][1..] == kids[i + 1..];
        if nocase {
          if Upper(nodes[kids[i]].name) == Upper(name) { return kids[i]; }
        } else {
          if nodes[kids[i]].name == name { return kids[i]; }
        }
        i := i + 1;
      }
      return NULL;
    }

    /** The token of vfs_resolve_path, or nothing when it is too long. */
    method NextToken(path: string, start: nat) returns (fits: bool, token: string, i: nat)
      requires start < |path| && path[start] != '/'
      ensures fits <==> SegmentEnd(path, start) - start < MAX_FILENAME
      ensures fits ==> i == SegmentEnd(path, start) && token == path[start..i]
    {
      i, token := start, "";
      while i < |path| && path[i] != '/'
        invariant start <= i <= |path| && token == path[start..i] && |token| < MAX_FILENAME
        invariant SegmentEnd(path, start) == SegmentEnd(path, i)
      {
        if |token| + 1 >= MAX_FILENAME { return false, token, i; }
        token := token + [path[i]];
        i := i + 1;
      }
      return true, token, i;
    }

    /** vfs_resolve_path */
    method ResolvePath(path: string) returns (r: int)
      requires Valid()
      ensures r == Resolve(nodes, root, path)
    {
      if root == NULL || path == "" || path[0] != '/' { return NULL; }
      if path == "/" {
        SkipIs(path, 0, 1);
        return root;
      }
      var current, i := root, 1;
      assert SkipSlashes(path, 0) == SkipSlashes(path, 1);
      while i < |path|
        invariant i <= |path| && current >= 0 && current in nodes
        invariant Walk(nodes, current, Segments(path, i)) == Walk(nodes, root, Segments(path, 0))
      {
        var start := NextStart(path, i);
        if start == |path| { break; }
        var fits, token, next := NextToken(path, start);
        assert Segments(path, i)[0] == path[start..SegmentEnd(path, start)];
        if !fits { return NULL; }
        assert Segments(path, i) == [token] + Segments(path, next);
        i := next;
        if token == "." { continue; }
        if token == ".." {
          if nodes[current].parent != NULL { current := nodes[current].parent; }
          continue;
        }
        var child := FindChild(current, token, false);
        if child == NULL { child := FindChild(current, token, true); }
        if child == NULL { return NULL; }
        current := child;
      }
      return current;
    }

    /** The end of vfs_mount_at: the children of a file system's root move under
        the mount point. */
    method MountOn(point: nat, fsRoot: nat)
      requires Valid() && point in nodes && fsRoot in nodes
      modifies this`nodes
      ensures Valid() && nodes == Mounted(old(nodes), point, fsRoot)
    {
      var kids := nodes[fsRoot].children;
      nodes := nodes[point := nodes[point].(children := kids)];
      Reparent(kids, point);
      MountedWhole(old(nodes), point, fsRoot);
      assert nodes == Mounted(old(nodes), point, fsRoot);
    }

    /** vfs_mount_at below a resolved parent: the child of that name, or a new
        directory at the free place `id`, becomes the mount point. `memory` says
        whether kmalloc had room for a new directory. */
    method MountUnder(parent: nat, name: string, fsRoot: nat, id: nat, memory: bool) returns (ok: bool)
      requires Valid() && parent in nodes && fsRoot in nodes && id !in nodes
      modifies this`nodes
      ensures Valid()
      ensures ok <==> old(nodes)[parent].directory && var found := old(Lookup(nodes, parent, name));
                      if found == NULL then memory else old(nodes)[found].directory
      ensures nodes == if ok then MountedUnder(old(nodes), parent, name, id, fsRoot) else old(nodes)
    {
      if !nodes[parent].directory { return false; }
      var point := FindChild(parent, name, false);
      if point == NULL { point := FindChild(parent, name, true); }
      if point == NULL {
        if !memory { return false; }
        CreatedWhole(nodes, parent, id, name);
        nodes := Created(nodes, parent, id, name);
        point := id;
      } else if !nodes[point].directory {
        return false;
      }
      MountOn(point, fsRoot);
      ok := true;
    }

    /** How vfs_mount_at divides an absolute path: trailing slashes fall away,
        and the last slash before them parts the name from its parent's path. */
    method SplitMount(path: string) returns (split: bool, stem: string, name: string)
      requires path != "" && path[0] == '/'
      ensures split <==> Segments(path, 0) != []
      ensures split ==> Splits(path, stem, name)
    {
      var len := |path|;
      while len > 1 && path[len - 1] == '/'
        invariant 1 <= len <= |path| && forall j :: len <= j < |path| ==> path[j] == '/'
      {
        len := len - 1;
      }
      if len <= 1 {
        SkipIs(path, 0, |path|);
        return false, "", "";
      }
      var slash := len - 1;
      while slash > 0 && path[slash] != '/'
        invariant slash < len && forall j :: slash < j < len ==> path[j] != '/'
      {
        slash := slash - 1;
      }
      split, stem, name := true, path[..slash], path[slash + 1..len];
      assert path[..len] == stem + "/" + name;
      SplitSegments(path, stem, name);
    }

    /** vfs_mount_at: "/" gives way to the new root, any other path is divided
        and mounted under its parent. */
    method MountAt(path: string, fsRoot: nat, id: nat, memory: bool) returns (ok: bool)
      requires Valid() && fsRoot in nodes && id !in nodes
      modifies this
      ensures Valid()
      ensures ok <==> old(root) != NULL && (path == "/" || MountsAt(old(nodes), old(root), path, memory))
      ensures root == if ok && path == "/" then fsRoot else old(root)
      ensures nodes == if ok && path != "/" then MountedAt(old(nodes), old(root), path, id, fsRoot) else old(nodes)
    {
      if root == NULL { return false; }
      if path == "/" {
        root := fsRoot;
        return true;
      }
      if path == "" || path[0] != '/' { return false; }
      ok := MountBelow(path, fsRoot, id, memory);
    }

    method MountBelow(path: string, fsRoot: nat, id: nat, memory: bool) returns (ok: bool)
      requires Valid() && root != NULL && fsRoot in nodes && id !in nodes
      requires path != "" && path[0] == '/'
      modifies this`nodes
      ensures Valid()
      ensures ok <==> MountsAt(old(nodes), root, path, memory)
      ensures nodes == if ok then MountedAt(old(nodes), root, path, id, fsRoot) else old(nodes)
    {
      var split, stem, name := SplitMount(path);
      if !split { return false; }
      StemResolves(nodes, root, path, stem, name);
      if |name| >= MAX_FILENAME || name == "." || name == ".." { return false; }
      if stem != "" && |stem| >= VFS_MAX_PATH { return false; }
      var parent := ResolvePath(if stem == "" then "/" else stem);
      if parent == NULL || !nodes[parent].directory { return false; }
      ok := MountUnder(parent, name, fsRoot, id, memory);
    }

    method Reparent(kids: seq<nat>, point: nat)
      requires Known(kids, nodes)
      modifies this`nodes
      ensures nodes == map p | p in old(nodes) :: if p in kids then old(nodes)[p].(parent := point) else old(nodes)[p]
    {
      for i := 0 to |kids|
        invariant nodes == map p | p in old(nodes) :: if p in kids[..i] then old(nodes)[p].(parent := point) else old(nodes)[p]
      {
        nodes := nodes[kids[i] := nodes[kids[i]].(parent := point)];
        assert kids[..i + 1] == kids[..i] + [kids[i]];
      }
      assert kids[..|kids|] == kids;
    }
  }

  /** A new empty directory, first among its parent's children. */
  function Created(nodes: map<nat, VNode>, parent: nat, id: nat, name: string): map<nat, VNode>
    requires parent in nodes
  {
    nodes[id := VNode(name, true, parent, [])][parent := nodes[parent].(children := [id] + nodes[parent].children)]
  }

  lemma CreatedWhole(nodes: map<nat, VNode>, parent: nat, id: nat, name: string)
    requires Whole(nodes) && parent in nodes && id !in nodes
    ensures Whole(Created(nodes, parent, id, name))
  {
    var m := Created(nodes, parent, id, name);
    forall p | p in m
      ensures Known(m[p].children, m)
    {
      assert p in nodes ==> Known(nodes[p].children, nodes);
    }
  }

  /** A new directory keeps the links. */
  lemma CreatedLinked(nodes: map<nat, VNode>, live: set<nat>, parent: nat, id: nat, name: string)
    requires Linked(nodes, live) && parent in live && id !in nodes
    ensures Linked(Created(nodes, parent, id, name), live + {id})
  {
    var m := Created(nodes, parent, id, name);
    forall p | p in live + {id}
      ensures p in m && LinkedAt(m, live + {id}, p)
    {
      assert p == id || LinkedAt(nodes, live, p);
    }
  }

  lemma MountedWhole(nodes: map<nat, VNode>, point: nat, fsRoot: nat)
    requires Whole(nodes) && point in nodes && fsRoot in nodes
    ensures Whole(Mounted(nodes, point, fsRoot))
  {
  }

  ghost function Mounted(nodes: map<nat, VNode>, point: nat, fsRoot: nat): map<nat, VNode>
    requires point in nodes && fsRoot in nodes
  {
    var kids := nodes[fsRoot].children;
    map p | p in nodes ::
      var n := if p == point then nodes[p].(children := kids) else nodes[p];
      if p in kids then n.(parent := point) else n
  }

  /** Mounting keeps the links: what hung below the root and below the file
      system's root hangs together below the root. */
  lemma MountedLinked(nodes: map<nat, VNode>, live: set<nat>, fs: set<nat>, point: nat, fsRoot: nat)
    requires Linked(nodes, live) && Linked(nodes, fs) && live !! fs
    requires point in live && fsRoot in fs && nodes[fsRoot].parent == NULL
    requires forall p :: p in fs && nodes[p].parent == fsRoot ==> p in nodes[fsRoot].children
    ensures Linked(Mounted(nodes, point, fsRoot), live + (fs - {fsRoot}))
  {
    var m, all := Mounted(nodes, point, fsRoot), live + (fs - {fsRoot});
    assert LinkedAt(nodes, fs, fsRoot);
    forall p | p in all
      ensures p in m && LinkedAt(m, all, p)
    {
      assert if p in live then LinkedAt(nodes, live, p) else LinkedAt(nodes, fs, p);
    }
  }

  // ----- where a mount path leads -----

  /** The path is a stem, a slash, a name and perhaps further slashes. */
  predicate Splits(path: string, stem: string, name: string)
  {
    && Segment(name)
    && stem + "/" + name <= path
    && forall j :: |stem| + 1 + |name| <= j < |path| ==> path[j] == '/'
  }

  /** The name is the path's last segment, and the stem has the others. */
  lemma SplitSegments(path: string, stem: string, name: string)
    requires Splits(path, stem, name)
    ensures Segments(path, 0) == Segments(stem, 0) + [name]
  {
    var n := |stem| + 1 + |name|;
    assert path[..n] == stem + "/" + name;
    TrailingSlashes(path, n, 0);
    SegmentsSnoc(stem, name, 0);
  }

  function MountName(path: string): string
    requires Segments(path, 0) != []
  {
    var segs := Segments(path, 0);
    segs[|segs| - 1]
  }

  /** The directory all segments but the last lead to. */
  ghost function MountParent(nodes: map<nat, VNode>, root: nat, path: string): (r: int)
    requires Whole(nodes) && root in nodes && Segments(path, 0) != []
    ensures r == NULL || (r >= 0 && r in nodes)
  {
    var segs := Segments(path, 0);
    Walk(nodes, root, segs[..|segs| - 1])
  }

  /** The path without its name and what follows fits its buffer. */
  ghost predicate StemFits(path: string)
    requires Segments(path, 0) != []
  {
    exists stem: string :: Splits(path, stem, MountName(path)) && |stem| < VFS_MAX_PATH
  }

  lemma SplitUnique(path: string, stem: string, stem': string, name: string)
    requires Splits(path, stem, name) && Splits(path, stem', name)
    ensures stem == stem'
  {
    var last := name[|name| - 1];
    assert last in name && stem == path[..|stem|] && stem' == path[..|stem'|];
    assert (stem + "/" + name)[|stem| + |name|] == last && (stem' + "/" + name)[|stem'| + |name|] == last;
    assert path[|stem| + |name|] == last && path[|stem'| + |name|] == last;
    assert |stem| == |stem'|;
  }

  lemma StemResolves(nodes: map<nat, VNode>, root: nat, path: string, stem: string, name: string)
    requires Whole(nodes) && root in nodes && path != "" && path[0] == '/' && Splits(path, stem, name)
    ensures Segments(path, 0) != [] && MountName(path) == name
    ensures StemFits(path) <==> |stem| < VFS_MAX_PATH
    ensures Resolve(nodes, root, if stem == "" then "/" else stem) == MountParent(nodes, root, path)
  {
    SplitSegments(path, stem, name);
    assert (Segments(stem, 0) + [name])[..|Segments(stem, 0)|] == Segments(stem, 0);
    if stem == "" {
      SkipIs("/", 0, 1);
    } else {
      assert stem[0] == (stem + "/" + name)[0] == path[0];
    }
    if StemFits(path) {
      var stem': string :| Splits(path, stem', name) && |stem'| < VFS_MAX_PATH;
      SplitUnique(path, stem, stem', name);
    }
  }

  /** When a mount succeeds below the root. */
  ghost predicate MountsAt(nodes: map<nat, VNode>, root: nat, path: string, memory: bool)
    requires Whole(nodes) && root in nodes
  {
    && path != "" && path[0] == '/' && Segments(path, 0) != []
    && var name, parent := MountName(path), MountParent(nodes, root, path);
    && |name| < MAX_FILENAME && name != "." && name != ".." && StemFits(path)
    && parent != NULL && nodes[parent].directory
    && (if Lookup(nodes, parent, name) == NULL then memory else nodes[Lookup(nodes, parent, name)].directory)
  }

  /** The mount point: the child of that name or the new directory. */
  ghost function MountPoint(nodes: map<nat, VNode>, parent: nat, name: string, id: nat): nat
    requires parent in nodes && Known(nodes[parent].children, nodes)
  {
    var found := Lookup(nodes, parent, name);
    if found == NULL then id else found
  }

  ghost function MountedUnder(nodes: map<nat, VNode>, parent: nat, name: string, id: nat, fsRoot: nat): map<nat, VNode>
    requires parent in nodes && Known(nodes[parent].children, nodes) && fsRoot in nodes
  {
    var found := Lookup(nodes, parent, name);
    if found == NULL then Mounted(Created(nodes, parent, id, name), id, fsRoot) else Mounted(nodes, found, fsRoot)
  }

  ghost function MountedAt(nodes: map<nat, VNode>, root: nat, path: string, id: nat, fsRoot: nat): map<nat, VNode>
    requires Whole(nodes) && root in nodes && fsRoot in nodes
    requires Segments(path, 0) != [] && MountParent(nodes, root, path) != NULL
  {
    MountedUnder(nodes, MountParent(nodes, root, path), MountName(path), id, fsRoot)
  }

  // ----- a mounted file system is found at its path -----

  /** The k-th directory above. */
  ghost function Up(nodes: map<nat, VNode>, p: int, k: nat): (r: int)
    requires Whole(nodes) && (p == NULL || (p >= 0 && p in nodes))
    ensures r == NULL || (r >= 0 && r in nodes)
    decreases k
  {
    if k == 0 || p == NULL then p else Up(nodes, nodes[p].parent, k - 1)
  }

  lemma {:induction false} UpUp(nodes: map<nat, VNode>, p: int, k: nat, n: nat)
    requires Whole(nodes) && (p == NULL || (p >= 0 && p in nodes))
    ensures Up(nodes, p, k + n) == Up(nodes, Up(nodes, p, k), n)
    decreases k
  {
    if k > 0 && p != NULL {
      UpUp(nodes, nodes[p].parent, k - 1, n);
    }
  }

  /** Below a root without a parent every node has one depth. */
  lemma OneDepth(nodes: map<nat, VNode>, root: nat, p: int, a: nat, b: nat)
    requires Whole(nodes) && root in nodes && nodes[root].parent == NULL && (p == NULL || (p >= 0 && p in nodes))
    requires Up(nodes, p, a) == root == Up(nodes, p, b)
    ensures a == b
  {
    if a < b { DeeperIsNull(nodes, root, p, a, b); }
    if b < a { DeeperIsNull(nodes, root, p, b, a); }
  }

  lemma DeeperIsNull(nodes: map<nat, VNode>, root: nat, p: int, a: nat, b: nat)
    requires Whole(nodes) && root in nodes && nodes[root].parent == NULL && (p == NULL || (p >= 0 && p in nodes))
    requires Up(nodes, p, a) == root && a < b
    ensures Up(nodes, p, b) == NULL
  {
    UpUp(nodes, p, a, b - a);
    assert Up(nodes, NULL, b - a - 1) == NULL;
  }

  /** A walk along plain segments goes down one level with each. */
  lemma {:induction false} WalkDepth(nodes: map<nat, VNode>, live: set<nat>, root: nat, path: seq<string>)
    requires Whole(nodes) && Linked(nodes, live) && root in live && AllPlain(path) && Walk(nodes, root, path) != NULL
    ensures Up(nodes, Walk(nodes, root, path), |path|) == root
    decreases |path|
  {
    if path != [] {
      var n := |path| - 1;
      var front, x := path[..n], path[n];
      assert path == front + [x];
      WalkPrefix(nodes, root, front, x);
      WalkSnoc(nodes, root, front, x);
      WalkDepth(nodes, live, root, front);
      WalkStays(nodes, live, root, front);
      assert LinkedAt(nodes, live, Walk(nodes, root, front));
    }
  }

  /** The lookup sees a directory's children and their names only. */
  lemma {:induction false} FindSame(nodes: map<nat, VNode>, m: map<nat, VNode>, kids: seq<nat>, name: string, nocase: bool)
    requires Known(kids, nodes) && Known(kids, m) && forall i :: 0 <= i < |kids| ==> m[kids[i]].name == nodes[kids[i]].name
    ensures Find(m, kids, name, nocase) == Find(nodes, kids, name, nocase)
    decreases |kids|
  {
    if kids != [] {
      FindSame(nodes, m, kids[1..], name, nocase);
    }
  }

  ghost predicate SameDirectory(nodes: map<nat, VNode>, m: map<nat, VNode>, p: nat)
  {
    p in nodes && p in m && m[p].directory == nodes[p].directory && m[p].children == nodes[p].children
  }

  ghost predicate SameNames(nodes: map<nat, VNode>, m: map<nat, VNode>)
  {
    forall p :: p in nodes ==> p in m && m[p].name == nodes[p].name
  }

  lemma LookupSame(nodes: map<nat, VNode>, m: map<nat, VNode>, p: nat, name: string)
    requires Whole(nodes) && Whole(m) && SameDirectory(nodes, m, p) && SameNames(nodes, m)
    ensures Lookup(m, p, name) == Lookup(nodes, p, name)
  {
    FindSame(nodes, m, nodes[p].children, name, false);
    FindSame(nodes, m, nodes[p].children, name, true);
  }

  /** Neither where a walk along plain segments ends nor a child of that lies on the way. */
  lemma NotOnTheWay(nodes: map<nat, VNode>, live: set<nat>, root: nat, path: seq<string>, point: nat, j: nat)
    requires Whole(nodes) && Linked(nodes, live) && root in live && nodes[root].parent == NULL
    requires AllPlain(path) && j < |path| && Walk(nodes, root, path) != NULL
    requires point in live ==> Up(nodes, point, |path| + 1) == root
    ensures var p := Walk(nodes, root, path[..j]); p >= 0 && p in live && p != Walk(nodes, root, path) && p != point
  {
    WalkFront(nodes, root, path, j);
    var p := Walk(nodes, root, path[..j]);
    WalkDepth(nodes, live, root, path[..j]);
    WalkDepth(nodes, live, root, path);
    WalkStays(nodes, live, root, path[..j]);
    if p == Walk(nodes, root, path) {
      OneDepth(nodes, root, p, j, |path|);
      assert false;
    }
    if p == point {
      OneDepth(nodes, root, p, j, |path| + 1);
      assert false;
    }
  }

  /** So a change of those two is not seen on the way. */
  lemma {:induction false} WalkSame(nodes: map<nat, VNode>, m: map<nat, VNode>, live: set<nat>, root: nat,
                                    path: seq<string>, point: nat, j: nat)
    requires Whole(nodes) && Whole(m) && Linked(nodes, live) && root in live && nodes[root].parent == NULL && root in m
    requires AllPlain(path) && j <= |path| && Walk(nodes, root, path) != NULL && SameNames(nodes, m)
    requires point in live ==> Up(nodes, point, |path| + 1) == root
    requires forall p :: p in live && p != Walk(nodes, root, path) && p != point ==> SameDirectory(nodes, m, p)
    ensures Walk(nodes, root, path[..j]) != NULL && Walk(m, root, path[..j]) == Walk(nodes, root, path[..j])
    decreases j
  {
    WalkFront(nodes, root, path, j);
    if j > 0 {
      var front, x := path[..j - 1], path[j - 1];
      assert path[..j] == front + [x];
      WalkSame(nodes, m, live, root, path, point, j - 1);
      NotOnTheWay(nodes, live, root, path, point, j - 1);
      WalkSnoc(nodes, root, front, x);
      WalkSnoc(m, root, front, x);
      LookupSame(nodes, m, Walk(nodes, root, front), x);
    }
  }

  lemma {:induction false} WalkFront(nodes: map<nat, VNode>, p: nat, path: seq<string>, j: nat)
    requires Whole(nodes) && p in nodes && j <= |path| && Walk(nodes, p, path) != NULL
    ensures Walk(nodes, p, path[..j]) != NULL
    decreases |path|
  {
    if j < |path| {
      var n := |path| - 1;
      assert path == path[..n] + [path[n]];
      WalkPrefix(nodes, p, path[..n], path[n]);
      WalkFront(nodes, p, path[..n], j);
      assert path[..n][..j] == path[..j];
    } else {
      assert path[..j] == path;
    }
  }

  /** Where the mount happens: its directory and the mount point change, no name does. */
  ghost predicate OnlyPlace(nodes: map<nat, VNode>, m: map<nat, VNode>, live: set<nat>, parent: nat, name: string,
                            point: nat, fsRoot: nat)
    requires Whole(nodes) && parent in nodes && fsRoot in nodes
  {
    && Whole(m) && SameNames(nodes, m) && parent in m && point in m
    && m[point].children == nodes[fsRoot].children && Lookup(m, parent, name) == point
    && forall p :: p in live && p != parent && p != point ==> SameDirectory(nodes, m, p)
  }

  lemma NewPlace(nodes: map<nat, VNode>, live: set<nat>, parent: nat, name: string, id: nat, fsRoot: nat)
    requires Whole(nodes) && Linked(nodes, live) && parent in live && nodes[parent].directory
    requires fsRoot in nodes && fsRoot !in live && id !in nodes
    ensures OnlyPlace(nodes, Mounted(Created(nodes, parent, id, name), id, fsRoot), live, parent, name, id, fsRoot)
  {
    var c := Created(nodes, parent, id, name);
    var m := Mounted(c, id, fsRoot);
    CreatedWhole(nodes, parent, id, name);
    MountedWhole(c, id, fsRoot);
    assert m[parent].children[0] == id && m[parent].directory && m[id].name == name;
    assert Find(m, m[parent].children, name, false) == id;
  }

  lemma OldPlace(nodes: map<nat, VNode>, live: set<nat>, parent: nat, name: string, fsRoot: nat)
    requires Whole(nodes) && Linked(nodes, live) && parent in live && fsRoot in nodes && fsRoot !in live
    requires var found := Lookup(nodes, parent, name); found != NULL && found != parent
    ensures var found := Lookup(nodes, parent, name);
            OnlyPlace(nodes, Mounted(nodes, found, fsRoot), live, parent, name, found, fsRoot)
  {
    var found := Lookup(nodes, parent, name);
    var m := Mounted(nodes, found, fsRoot);
    MountedWhole(nodes, found, fsRoot);
    assert SameDirectory(nodes, m, parent);
    LookupSame(nodes, m, parent, name);
  }

  lemma MountedUnderPlace(nodes: map<nat, VNode>, live: set<nat>, parent: nat, name: string, id: nat, fsRoot: nat)
    requires Whole(nodes) && Linked(nodes, live) && parent in live && nodes[parent].directory
    requires fsRoot in nodes && fsRoot !in live && id !in nodes && Lookup(nodes, parent, name) != parent
    ensures OnlyPlace(nodes, MountedUnder(nodes, parent, name, id, fsRoot), live, parent, name, MountPoint(nodes, parent, name, id), fsRoot)
  {
    if Lookup(nodes, parent, name) == NULL {
      NewPlace(nodes, live, parent, name, id, fsRoot);
    } else {
      OldPlace(nodes, live, parent, name, fsRoot);
    }
  }

  /** The tree stays one tree, with what was mounted in it. */
  lemma MountedUnderLinked(nodes: map<nat, VNode>, live: set<nat>, parent: nat, name: string, id: nat, fs: set<nat>, fsRoot: nat)
    requires Whole(nodes) && Linked(nodes, live) && Linked(nodes, fs) && live !! fs
    requires parent in live && fsRoot in fs && nodes[fsRoot].parent == NULL && id !in nodes
    requires forall p :: p in fs && nodes[p].parent == fsRoot ==> p in nodes[fsRoot].children
    ensures var m, point := MountedUnder(nodes, parent, name, id, fsRoot), MountPoint(nodes, parent, name, id);
            Linked(m, live + {point} + (fs - {fsRoot})) && forall p :: p in live ==> m[p].parent == nodes[p].parent
  {
    assert LinkedAt(nodes, fs, fsRoot);
    var found := Lookup(nodes, parent, name);
    assert LinkedAt(nodes, live, parent);
    if found == NULL {
      var m := Created(nodes, parent, id, name);
      CreatedLinked(nodes, live, parent, id, name);
      forall p | p in fs
        ensures p in m && LinkedAt(m, fs, p)
      {
        assert LinkedAt(nodes, fs, p);
      }
      MountedLinked(m, live + {id}, fs, id, fsRoot);
    } else {
      assert live + {found} == live;
      MountedLinked(nodes, live, fs, found, fsRoot);
    }
  }

  /** Mounting under the directory a walk leads to, on values. */
  lemma WalkToMount(nodes: map<nat, VNode>, live: set<nat>, root: nat, way: seq<string>, name: string, id: nat, fsRoot: nat)
    requires Whole(nodes) && Linked(nodes, live) && root in live && nodes[root].parent == NULL
    requires AllPlain(way) && Plain(name) && |name| < MAX_FILENAME && fsRoot in nodes && fsRoot !in live && id !in nodes
    requires Walk(nodes, root, way) != NULL && nodes[Walk(nodes, root, way)].directory
    ensures var parent := Walk(nodes, root, way);
            var m, point := MountedUnder(nodes, parent, name, id, fsRoot), MountPoint(nodes, parent, name, id);
            && Whole(m) && root in m && point in m && m[point].children == nodes[fsRoot].children
            && Walk(m, root, way + [name]) == point
  {
    var parent := Walk(nodes, root, way);
    var m, point := MountedUnder(nodes, parent, name, id, fsRoot), MountPoint(nodes, parent, name, id);
    WalkStays(nodes, live, root, way);
    WalkDepth(nodes, live, root, way);
    assert LinkedAt(nodes, live, parent);
    assert point in live ==> nodes[point].parent == parent && Up(nodes, point, |way| + 1) == root;
    if Lookup(nodes, parent, name) == parent {
      OneDepth(nodes, root, parent, |way|, |way| + 1);
      assert false;
    }
    MountedUnderPlace(nodes, live, parent, name, id, fsRoot);
    assert SameNames(nodes, m);
    WalkSame(nodes, m, live, root, way, point, |way|);
    assert way[..|way|] == way;
    WalkSnoc(m, root, way, name);
  }

  /** What the segments before the name make of the root's path. */
  function FoldedStem(path: string): (way: seq<string>)
    requires Segments(path, 0) != []
    ensures AllSegments(Segments(path, 0)) && AllPlain(way)
    ensures Plain(MountName(path)) ==> Fold([], Segments(path, 0)) == way + [MountName(path)]
  {
    var segs := Segments(path, 0);
    var front := segs[..|segs| - 1];
    SegmentsAre(path, 0);
    assert segs == front + [MountName(path)];
    FoldSnoc([], front, MountName(path));
    Fold([], front)
  }

  lemma ReachedByPath(m: map<nat, VNode>, all: set<nat>, root: nat, path: string, point: nat)
    requires Whole(m) && Linked(m, all) && root in all && m[root].parent == NULL
    requires path != "" && path[0] == '/' && Segments(path, 0) != [] && Plain(MountName(path))
    requires Walk(m, root, FoldedStem(path) + [MountName(path)]) == point
    ensures Resolve(m, root, Normal(path)) == point && AllSegments(Segments(path, 0))
    ensures Resolve(m, root, path) == point <==> BackFromNodes(m, root, Segments(path, 0))
  {
    var way := FoldedStem(path) + [MountName(path)];
    SegmentsOfRender(way);
    BodyShape(way);
    LeadsIffNormal(m, all, root, path);
    if Resolve(m, root, path) != NULL { NormalLeadsThere(m, all, root, path); }
  }

  /** After a mount the normal form of its path leads to the mount point, which
      has the file system's children; the path itself leads there exactly when
      each ".." in it steps back from what the new tree still has. */
  lemma MountIsReached(nodes: map<nat, VNode>, live: set<nat>, root: nat, path: string, memory: bool,
                       id: nat, fs: set<nat>, fsRoot: nat)
    requires Whole(nodes) && Linked(nodes, live) && Linked(nodes, fs) && live !! fs
    requires root in live && nodes[root].parent == NULL && fsRoot in fs && nodes[fsRoot].parent == NULL && id !in nodes
    requires forall p :: p in fs && nodes[p].parent == fsRoot ==> p in nodes[fsRoot].children
    requires MountsAt(nodes, root, path, memory)
    ensures var m := MountedAt(nodes, root, path, id, fsRoot);
            var point := MountPoint(nodes, MountParent(nodes, root, path), MountName(path), id);
            && Whole(m) && point in m && root in m && m[point].children == nodes[fsRoot].children
            && Linked(m, live + {point} + (fs - {fsRoot}))
            && Resolve(m, root, Normal(path)) == point && AllSegments(Segments(path, 0))
            && (Resolve(m, root, path) == point <==> BackFromNodes(m, root, Segments(path, 0)))
  {
    var segs, name := Segments(path, 0), MountName(path);
    var front := segs[..|segs| - 1];
    var way, parent := FoldedStem(path), MountParent(nodes, root, path);
    var m, point := MountedAt(nodes, root, path, id, fsRoot), MountPoint(nodes, parent, name, id);
    SegmentsAre(path, 0);
    WalkFold(nodes, live, root, [], front);
    WalkStays(nodes, live, root, front);
    WalkToMount(nodes, live, root, way, name, id, fsRoot);
    MountedUnderLinked(nodes, live, parent, name, id, fs, fsRoot);
    ReachedByPath(m, live + {point} + (fs - {fsRoot}), root, path, point);
  }
}
