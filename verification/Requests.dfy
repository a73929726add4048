/** Where the text of a request leads: relative texts start at the working directory,
    and their segments "", "." and ".." stay, stay and go up. */
module Requests {
  import opened Prelude
  import opened Utf8
  import opened Paths
  import opened FileSystem
  import opened PrefixTrie
  import opened Sandboxing
  import opened SandboxLaws

  // ------------------------------------------------------ texts and segments

  /** Every text is made of segments with slashes between them. */
  lemma {:induction false} EveryTextHasSegments(s: Bytes) returns (segments: seq<Bytes>)
    ensures SlashFree(segments) && segments != [] && RenderTail(segments) == s
    decreases |s|
  {
    var k := IndexOf(s, SLASH);
    if k == |s| {
      assert s[..k] == s;
      segments := [s];
    } else {
      var more := EveryTextHasSegments(s[k + 1..]);
      segments := [s[..k]] + more;
      assert segments[1..] == more;
      assert s == s[..k] + ([SLASH] + s[k + 1..]);
    }
  }

  /** A text that does not start with a slash starts at the working directory. */
  lemma RelativeIsLexical(w: World, c: seq<Name>, segments: seq<Bytes>)
    requires w.cwd == Some(Absolute(c)) && SlashFree(segments) && (segments == [] || segments[0] != [])
    ensures Normalize(ToAbs(w, RenderTail(segments))) == Absolute(Lexical(c, segments))
  {
    hide Absolute, Lexical, Normalize, ComponentsOf, Pop;
    var text := RenderTail(segments);
    ParseTailOfSegments(segments);
    ParseRootFirst(text);
    RelativeParsed(text);
    AbsoluteIsNormal(c);
    NormalizedDirectory(c);
    NormalizeJoin(Absolute(c), Parse(text));
    LeadingDot(Absolute(c), ParseTail(text));
    NormalizeSegments(c, segments);
    hide ParseTail, Parse, NormalizeFrom, RenderTail, Join;
  }

  lemma RelativeParsed(text: Bytes)
    requires text == [] || text[0] != SLASH
    ensures Parse(text) == ParseTail(text) || Parse(text) == [CurDir] + ParseTail(text)
    ensures !IsAbsolute(Parse(text))
  {
    assert text != [] && text[..IndexOf(text, SLASH)] != [DOT] ==> [] + ParseTail(text) == ParseTail(text);
  }

  lemma NormalizedDirectory(c: seq<Name>)
    ensures Normalize(Absolute(c)) == Absolute(c)
  {
    AbsoluteIsNormal(c);
    NormalizeOfNormal([], Absolute(c));
    assert [] + Absolute(c) == Absolute(c);
  }

  lemma LeadingDot(p: Path, q: Path)
    ensures NormalizeFrom(p, [CurDir] + q) == NormalizeFrom(p, q)
  {
    assert ([CurDir] + q)[1..] == q;
  }

  /** A text that starts with a slash starts at the root. */
  lemma AbsoluteIsLexical(w: World, segments: seq<Bytes>)
    requires SlashFree(segments)
    ensures Normalize(ToAbs(w, [SLASH] + RenderTail(segments))) == Absolute(Lexical([], segments))
  {
    hide Lexical, ComponentsOf, ComponentOf, Pop;
    var text := [SLASH] + RenderTail(segments);
    assert text[1..] == RenderTail(segments);
    ParseTailOfSegments(segments);
    NormalizeSegments([], segments);
    assert ([RootDir] + ComponentsOf(segments))[1..] == ComponentsOf(segments);
    assert Absolute([]) == [RootDir];
  }

  // ------------------------------------------------------- relative requests

  /** The same answer, for requests that may be worded differently. */
  predicate SameOutcome(a: Result<Resolved, Denial>, b: Result<Resolved, Denial>) {
    match (a, b)
    case (Ok(x), Ok(y)) => x.canonical == y.canonical && x.dir == y.dir && x.rel == y.rel
    case (Err(e), Err(f)) => e == f
    case _ => false
  }

  lemma SamePathSameOutcome(w: World, prefixes: set<Path>, roots: map<Path, Dir>, follow: bool, a: Bytes, b: Bytes)
    requires Normalize(ToAbs(w, a)) == Normalize(ToAbs(w, b))
    ensures SameOutcome(Resolve(w, prefixes, roots, follow, a), Resolve(w, prefixes, roots, follow, b))
  {
    hide ToAbs, Normalize, NoSymlinks, CanonicalizeOrParent, Longest, Followed, Relative;
  }

  /** Names asked for without a leading slash are asked for below the working directory. */
  lemma RelativeRequest(w: World, prefixes: set<Path>, roots: map<Path, Dir>, follow: bool,
                        c: seq<Name>, names: seq<Name>)
    requires w.cwd == Some(Absolute(c)) && names != []
    ensures SameOutcome(Resolve(w, prefixes, roots, follow, RenderTail(names)),
                        Resolve(w, prefixes, roots, follow, Render(c + names)))
  {
    hide ToAbs, Normalize, RenderTail, Render, Absolute, Lexical, Resolve, SameOutcome;
    LexicalOfNames(c, names);
    RelativeIsLexical(w, c, names);
    RequestOfRender(w, c + names);
    SamePathSameOutcome(w, prefixes, roots, follow, RenderTail(names), Render(c + names));
  }

  /** Following the segments of a text on a tree without links, name by name. */
  function Visit(fs: Fs, at: Location, segments: seq<Bytes>): Option<Location>
    requires SlashFree(segments)
    decreases |segments|
  {
    if segments == [] then (if at in fs.nodes then Some(at) else None)
    else if segments[0] == [] || segments[0] == [0x2E] then Visit(fs, at, segments[1..])
    else if !fs.IsDir(at) then None
    else if segments[0] == [0x2E, 0x2E] then Visit(fs, Parent(at), segments[1..])
    else Visit(fs, at + [segments[0]], segments[1..])
  }

  lemma {:induction false} VisitIsLexical(fs: Fs, at: Location, segments: seq<Bytes>)
    requires SlashFree(segments) && Visit(fs, at, segments).Some?
    ensures Visit(fs, at, segments) == Some(Lexical(at, segments)) && Lexical(at, segments) in fs.nodes
    decreases |segments|
  {
    if segments != [] {
      if segments[0] == [] || segments[0] == [0x2E] {
        VisitIsLexical(fs, at, segments[1..]);
      } else if segments[0] == [0x2E, 0x2E] {
        VisitIsLexical(fs, Parent(at), segments[1..]);
      } else {
        VisitIsLexical(fs, at + [segments[0]], segments[1..]);
      }
    }
  }

  /** On a tree without links a request leads where its segments lead, from the working
      directory for a relative text and from the root for an absolute one. */
  lemma RequestLeads(w: World, c: seq<Name>, segments: seq<Bytes>)
    requires w.Valid() && w.fs.LinkFree() && w.cwd == Some(Absolute(c)) && SlashFree(segments)
    ensures var near := Visit(w.fs, c, segments);
            near.Some? && (segments == [] || segments[0] != []) ==>
              Locate(w.fs, Normalize(ToAbs(w, RenderTail(segments)))) == near
    ensures var far := Visit(w.fs, [], segments);
            far.Some? ==> Locate(w.fs, Normalize(ToAbs(w, [SLASH] + RenderTail(segments)))) == far
  {
    hide Lexical, Visit, Locate, ToAbs, Normalize, RenderTail, Absolute;
    if Visit(w.fs, c, segments).Some? && (segments == [] || segments[0] != []) {
      VisitIsLexical(w.fs, c, segments);
      RelativeIsLexical(w, c, segments);
      RealNode(w.fs, Lexical(c, segments));
      LocateReal(w.fs, Lexical(c, segments));
    }
    if Visit(w.fs, [], segments).Some? {
      VisitIsLexical(w.fs, [], segments);
      AbsoluteIsLexical(w, segments);
      RealNode(w.fs, Lexical([], segments));
      LocateReal(w.fs, Lexical([], segments));
    }
  }

  /** Without a working directory every relative request is denied. */
  lemma NoWorkingDirectory(w: World, prefixes: set<Path>, roots: map<Path, Dir>, follow: bool, path: Bytes)
    requires w.cwd.None? && (path == [] || path[0] != SLASH)
    ensures Resolve(w, prefixes, roots, follow, path).Err?
  {
    RelativeParsed(path);
    ParseRootFirst(path);
    var p := Parse(path);
    hide Parse;
    assert Join([], p) == p;
    StaysRelative([], p);
    Unrooted(w.fs, Normalize(p));
    hide Normalize, Longest, Followed, CanonicalizeOrParent, NoSymlinks;
  }

  lemma Unrooted(fs: Fs, n: Path)
    requires RootDir !in n
    ensures CanonicalizeOrParent(fs, n).Err? && !NoSymlinks(fs, n)
  {
    hide Walk;
  }

  lemma {:induction false} StaysRelative(acc: Path, p: Path)
    requires RootDir !in acc && RootDir !in p
    ensures RootDir !in NormalizeFrom(acc, p)
    decreases |p|
  {
    if p != [] {
      StaysRelative(Step(acc, p[0]), p[1..]);
    }
  }

  /** A path is resolved exactly when it leads somewhere, or when its last component is a
      name and the path before it leads somewhere. */
  lemma ResolvableExactly(fs: Fs, n: Path)
    ensures CanonicalizeOrParent(fs, n).Ok? <==>
              || Locate(fs, n).Some?
              || (n != [] && n[|n| - 1].Normal? && Locate(fs, n[..|n| - 1]).Some?)
    ensures CanonicalizeOrParent(fs, n).Err? ==> CanonicalizeOrParent(fs, n) == Err(Unresolvable)
  {
    hide Locate;
  }
}
