/** Unix paths as component lists, and the lexical `normalize_path`. */
module Paths {
  import opened Prelude
  import opened Utf8

  const DOT: byte := 0x2E

  /** A file name: not empty, no slash, and neither "." nor "..". */
  predicate IsName(n: Bytes) {
    n != [] && SLASH !in n && n != [DOT] && n != [DOT, DOT]
  }

  type Name = n: Bytes | IsName(n) witness [0x61]

  predicate Hidden(name: Bytes) {
    [DOT] <= name && name != [DOT]
  }

  datatype Component = RootDir | CurDir | ParentDir | Normal(name: Name)

  type Path = seq<Component>

  /** As every list of components: the root can only come first. */
  predicate RootFirst(p: Path) {
    forall i :: 0 < i < |p| ==> p[i] != RootDir
  }

  predicate IsAbsolute(p: Path) {
    p != [] && p[0] == RootDir
  }

  /** The absolute path with the given names below the root. */
  function Absolute(names: seq<Name>): (p: Path)
    ensures |p| == |names| + 1 && p[0] == RootDir
    ensures forall i :: 0 <= i < |names| ==> p[i + 1] == Normal(names[i])
  {
    [RootDir] + Normals(names)
  }

  function Normals(names: seq<Name>): (p: Path)
    ensures |p| == |names| && forall i :: 0 <= i < |names| ==> p[i] == Normal(names[i])
  {
    if names == [] then [] else [Normal(names[0])] + Normals(names[1..])
  }

  lemma AbsoluteAppend(names: seq<Name>, n: Name)
    ensures Absolute(names + [n]) == Absolute(names) + [Normal(n)]
  {
  }

  lemma AbsolutePrefix(names: seq<Name>, k: nat)
    requires k <= |names|
    ensures Absolute(names)[..k + 1] == Absolute(names[..k])
  {
  }

  lemma AbsoluteInjective(a: seq<Name>, b: seq<Name>)
    ensures Absolute(a) == Absolute(b) <==> a == b
  {
    if Absolute(a) == Absolute(b) {
      forall i | 0 <= i < |a|
        ensures a[i] == b[i]
      {
        assert Absolute(a)[i + 1] == Absolute(b)[i + 1];
      }
    }
  }

  // ------------------------------------------------- growing and shrinking

  /** Adding one component; the root replaces everything before it. */
  function Push(p: Path, c: Component): Path {
    if c == RootDir then [RootDir] else p + [c]
  }

  /** Dropping the last component; the root and the empty path stay as they are. */
  function Pop(p: Path): Path {
    if p == [] || p[|p| - 1] == RootDir then p else p[..|p| - 1]
  }

  /** `p` joined with `q`: an absolute `q` replaces `p`, a leading "." is dropped. */
  function Join(p: Path, q: Path): Path {
    if IsAbsolute(q) then q
    else if p != [] && q != [] && q[0] == CurDir then p + q[1..]
    else p + q
  }

  // --------------------------------------------------------- normalization

  function Step(acc: Path, c: Component): Path {
    match c
    case ParentDir => Pop(acc)
    case CurDir => acc
    case _ => Push(acc, c)
  }

  function NormalizeFrom(acc: Path, p: Path): Path
    decreases |p|
  {
    if p == [] then acc else NormalizeFrom(Step(acc, p[0]), p[1..])
  }

  function Normalize(p: Path): Path {
    NormalizeFrom([], p)
  }

  method NormalizePath(path: Path) returns (result: Path)
    ensures result == Normalize(path)
  {
    result := [];
    for k := 0 to |path|
      invariant Normalize(path) == NormalizeFrom(result, path[k..])
    {
      assert path[k..][1..] == path[k + 1..];
      match path[k] {
        case ParentDir => result := Pop(result);
        case CurDir =>
        case _ => result := Push(result, path[k]);
      }
    }
  }

  /** No dot component, and the root at most in front. */
  predicate IsNormal(p: Path) {
    forall i :: 0 <= i < |p| ==> p[i].Normal? || (i == 0 && p[i] == RootDir)
  }

  lemma {:induction false} NormalizeFromIsNormal(acc: Path, p: Path)
    requires IsNormal(acc)
    ensures IsNormal(NormalizeFrom(acc, p))
    decreases |p|
  {
    if p != [] {
      NormalizeFromIsNormal(Step(acc, p[0]), p[1..]);
    }
  }

  lemma NormalizeIsNormal(p: Path)
    ensures IsNormal(Normalize(p))
  {
    NormalizeFromIsNormal([], p);
  }

  /** Normal components are taken over as they are. */
  lemma {:induction false} NormalizeOfNormal(acc: Path, p: Path)
    requires IsNormal(p) && (acc != [] ==> !IsAbsolute(p))
    ensures NormalizeFrom(acc, p) == acc + p
    decreases |p|
  {
    if p == [] {
      assert acc + p == acc;
    } else {
      assert [RootDir] == [] + [RootDir];
      assert acc + [p[0]] + p[1..] == acc + p;
      assert p[1..] != [] ==> p[1..][0] == p[1];
      NormalizeOfNormal(acc + [p[0]], p[1..]);
    }
  }

  lemma {:induction false} NormalizeInParts(acc: Path, p: Path, q: Path)
    ensures NormalizeFrom(acc, p + q) == NormalizeFrom(NormalizeFrom(acc, p), q)
    decreases |p|
  {
    if p == [] {
      assert p + q == q;
    } else {
      assert (p + q)[1..] == p[1..] + q;
      NormalizeInParts(Step(acc, p[0]), p[1..], q);
    }
  }

  lemma {:induction false} NormalizeKeepsRoot(acc: Path, p: Path)
    requires IsAbsolute(acc) && IsNormal(acc)
    ensures IsAbsolute(NormalizeFrom(acc, p))
    decreases |p|
  {
    if p != [] {
      NormalizeKeepsRoot(Step(acc, p[0]), p[1..]);
    }
  }

  /** The laws of `normalize_path`: its results have no dot components, normalizing
      again changes nothing, an absolute path stays absolute, and a part that was
      normalized before joining makes no difference. */
  lemma NormalizeLaws(p: Path, q: Path)
    ensures IsNormal(Normalize(p))
    ensures Normalize(Normalize(p)) == Normalize(p)
    ensures IsAbsolute(p) ==> IsAbsolute(Normalize(p))
    ensures Normalize(Join(p, q)) == Normalize(Join(Normalize(p), q))
  {
    var n := Normalize(p);
    NormalizeIsNormal(p);
    NormalizeOfNormal([], n);
    assert [] + n == n;
    if IsAbsolute(p) {
      NormalizeKeepsRoot([RootDir], p[1..]);
    }
    if !IsAbsolute(q) {
      NormalizeJoin(p, q);
      NormalizeJoin(n, q);
    }
  }

  lemma NormalizeJoin(p: Path, q: Path)
    requires !IsAbsolute(q)
    ensures Normalize(Join(p, q)) == NormalizeFrom(Normalize(p), q)
  {
    if p != [] && q != [] && q[0] == CurDir {
      NormalizeInParts([], p, q[1..]);
    } else {
      NormalizeInParts([], p, q);
    }
  }

  lemma NormalAbsolute(p: Path) returns (names: seq<Name>)
    requires IsNormal(p) && IsAbsolute(p)
    ensures p == Absolute(names)
  {
    hide Absolute;
    names := seq(|p| - 1, i requires 0 <= i < |p| - 1 => p[i + 1].name);
    hide IsNormal;
    forall i | 0 <= i < |p|
      ensures p[i] == Absolute(names)[i]
    {
      if i > 0 {
        assert Absolute(names)[i - 1 + 1] == Normal(names[i - 1]);
      }
    }
  }

  // --------------------------------------------------------- text of a path

  function ComponentOf(segment: Bytes): (r: Path)
    requires SLASH !in segment
    ensures forall i :: 0 <= i < |r| ==> r[i].Normal? || r[i].ParentDir?
  {
    if segment == [] || segment == [DOT] then []
    else if segment == [DOT, DOT] then [ParentDir]
    else [Normal(segment)]
  }

  /** Components of the text after the root or after the first segment. */
  function ParseTail(s: Bytes): (r: Path)
    ensures forall i :: 0 <= i < |r| ==> r[i].Normal? || r[i].ParentDir?
    decreases |s|
  {
    if s == [] then []
    else
      var k := IndexOf(s, SLASH);
      if k == |s| then ComponentOf(s[..k]) else ComponentOf(s[..k]) + ParseTail(s[k + 1..])
  }

  /** The components of a path text: repeated slashes and inner "." segments vanish. */
  function Parse(s: Bytes): Path {
    if s == [] then []
    else if s[0] == SLASH then [RootDir] + ParseTail(s[1..])
    else (if s[..IndexOf(s, SLASH)] == [DOT] then [CurDir] else []) + ParseTail(s)
  }

  /** The text of an absolute path: a slash, then the names with slashes between them. */
  function Render(names: seq<Name>): Bytes {
    [SLASH] + RenderTail(names)
  }

  /** Segments with slashes between them. */
  function RenderTail(segments: seq<Bytes>): Bytes {
    if segments == [] then []
    else if |segments| == 1 then segments[0]
    else segments[0] + ([SLASH] + RenderTail(segments[1..]))
  }

  /** What stands between the slashes of a text. */
  ghost predicate SlashFree(segments: seq<Bytes>) {
    forall i :: 0 <= i < |segments| ==> SLASH !in segments[i]
  }

  function ComponentsOf(segments: seq<Bytes>): Path
    requires SlashFree(segments)
  {
    if segments == [] then [] else ComponentOf(segments[0]) + ComponentsOf(segments[1..])
  }

  lemma ParseRootFirst(s: Bytes)
    ensures RootFirst(Parse(s))
    ensures IsAbsolute(Parse(s)) <==> s != [] && s[0] == SLASH
  {
  }

  lemma {:induction false} SegmentOfName(n: Bytes, rest: Bytes)
    requires SLASH !in n && (rest == [] || rest[0] == SLASH)
    ensures IndexOf(n + rest, SLASH) == |n|
  {
    if n == [] {
      assert n + rest == rest;
    } else {
      assert (n + rest)[1..] == n[1..] + rest;
      SegmentOfName(n[1..], rest);
    }
  }

  lemma ParseTailLast(n: Bytes)
    requires SLASH !in n
    ensures ParseTail(n) == ComponentOf(n)
  {
    SegmentOfName(n, []);
    assert n + [] == n && n[..|n|] == n;
  }

  lemma ParseTailNext(n: Bytes, rest: Bytes)
    requires SLASH !in n
    ensures ParseTail(n + ([SLASH] + rest)) == ComponentOf(n) + ParseTail(rest)
  {
    var s := n + ([SLASH] + rest);
    SegmentOfName(n, [SLASH] + rest);
    assert s[..|n|] == n && s[|n| + 1..] == rest;
  }

  lemma {:induction false} ParseTailOfSegments(segments: seq<Bytes>)
    requires SlashFree(segments)
    ensures ParseTail(RenderTail(segments)) == ComponentsOf(segments)
    decreases |segments|
  {
    hide ParseTail, ComponentOf;
    if |segments| == 1 {
      ParseTailLast(segments[0]);
      assert segments[1..] == [] && ComponentOf(segments[0]) + [] == ComponentOf(segments[0]);
    } else if segments != [] {
      ParseTailOfSegments(segments[1..]);
      ParseTailNext(segments[0], RenderTail(segments[1..]));
    } else {
      NothingParsed();
    }
  }

  lemma NothingParsed()
    ensures ParseTail([]) == []
  {
  }

  lemma {:induction false} ComponentsOfNames(names: seq<Name>)
    ensures SlashFree(names) && ComponentsOf(names) == Normals(names)
  {
    if names != [] {
      ComponentsOfNames(names[1..]);
    }
  }

  /** Reading back the text of an absolute path gives the same components. */
  lemma ParseOfRender(names: seq<Name>)
    ensures Parse(Render(names)) == Absolute(names)
  {
    ComponentsOfNames(names);
    ParseTailOfSegments(names);
    assert Render(names)[1..] == RenderTail(names);
  }

  /** The root is a slash, and below it one slash stands in front of each name. */
  lemma RenderMeaning(n: Name, more: seq<Name>)
    ensures Render([]) == [0x2F]
    ensures Render([n]) == [0x2F] + n
    ensures more != [] ==> Render([n] + more) == [0x2F] + n + Render(more)
  {
    assert ([n] + more)[1..] == more;
    Assoc([SLASH], n, Render(more));
  }

  // ------------------------------------------ what the segments of a text mean

  /** Where a text leads by its segments alone, from the place `at`: nothing and "." stay,
      ".." goes up, and any other segment goes down. */
  function Lexical(at: seq<Name>, segments: seq<Bytes>): seq<Name>
    requires SlashFree(segments)
    decreases |segments|
  {
    if segments == [] then at
    else if segments[0] == [] || segments[0] == [0x2E] then Lexical(at, segments[1..])
    else if segments[0] == [0x2E, 0x2E] then Lexical(if at == [] then [] else at[..|at| - 1], segments[1..])
    else Lexical(at + [segments[0]], segments[1..])
  }

  lemma PopLast(p: Path, c: Component)
    requires c != RootDir
    ensures Pop(p + [c]) == p
  {
  }

  lemma StepUp(at: seq<Name>)
    ensures Step(Absolute(at), ParentDir) == Absolute(if at == [] then [] else at[..|at| - 1])
  {
    if at != [] {
      hide Absolute;
      var up, last := at[..|at| - 1], at[|at| - 1];
      assert at == up + [last];
      AbsoluteAppend(up, last);
      PopLast(Absolute(up), Normal(last));
    }
  }

  lemma StepDown(at: seq<Name>, n: Name)
    ensures Step(Absolute(at), Normal(n)) == Absolute(at + [n])
  {
    AbsoluteAppend(at, n);
  }

  /** One segment of a text is one step of the lexical normalization. */
  lemma NormalizeSegment(at: seq<Name>, segment: Bytes, rest: Path)
    requires SLASH !in segment
    ensures NormalizeFrom(Absolute(at), ComponentOf(segment) + rest) ==
            NormalizeFrom(Absolute(Lexical(at, [segment])), rest)
  {
    var c := ComponentOf(segment);
    assert c == [] ==> c + rest == rest;
    assert c != [] ==> (c + rest)[1..] == rest;
    StepUp(at);
    var one: seq<Bytes> := [segment];
    assert one[1..] == [];
    if c != [] && c[0].Normal? {
      StepDown(at, segment);
    }
    hide Absolute, Step;
  }

  lemma {:induction false} NormalizeSegments(at: seq<Name>, segments: seq<Bytes>)
    requires SlashFree(segments)
    ensures NormalizeFrom(Absolute(at), ComponentsOf(segments)) == Absolute(Lexical(at, segments))
    decreases |segments|
  {
    hide Absolute, ComponentOf, NormalizeFrom;
    if segments == [] {
      NormalizeNothing(Absolute(at));
    } else {
      var first: seq<Bytes> := [segments[0]];
      NormalizeSegment(at, segments[0], ComponentsOf(segments[1..]));
      NormalizeSegments(Lexical(at, first), segments[1..]);
      assert first[1..] == [];
    }
  }

  lemma NormalizeNothing(p: Path)
    ensures NormalizeFrom(p, []) == p
  {
  }

  lemma {:induction false} LexicalOfNames(at: seq<Name>, names: seq<Name>)
    ensures SlashFree(names) && Lexical(at, names) == at + names
    decreases |names|
  {
    if names == [] {
      assert at + names == at;
    } else {
      LexicalOfNames(at + [names[0]], names[1..]);
      assert at + [names[0]] + names[1..] == at + names;
    }
  }
}
