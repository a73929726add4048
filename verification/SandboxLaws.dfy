/** What the sandbox guarantees: every granted path lies below an allowed root,
    links cannot redirect it when they are not followed, and the trie and the map
    of roots never disagree. */
module SandboxLaws {
  import opened Prelude
  import opened Utf8
  import opened Paths
  import opened FileSystem
  import opened PrefixTrie
  import opened Sandboxing
  import opened OutwardLink

  // --------------------------------------------- trie and roots in agreement

  lemma CanonicalKey(w: World, dir: Bytes)
    requires Openable(w, dir)
    ensures Key(AllowedPath(w, dir)) == AllowedPath(w, dir)
  {
    KeyOfNormal(AllowedPath(w, dir));
  }

  /** When every allowed directory opens, the trie built from the list holds
      exactly the keys of the roots opened from it. */
  lemma TrieMatchesRoots(w: World, dirs: seq<Bytes>)
    requires forall d :: d in dirs ==> Openable(w, d)
    ensures TrieKeys(w, dirs) == AllowedPaths(w, dirs)
  {
    hide Key, AllowedPath, Openable;
    forall d | d in dirs
      ensures Key(AllowedPath(w, d)) == AllowedPath(w, d)
    {
      CanonicalKey(w, d);
    }
  }

  /** What can be opened are existing directories, links followed, and the allowed paths
      are the real places where they lie; an allowed directory that leads nowhere is kept
      as it was written, below the working directory if it is relative. */
  lemma OpenableMeaning(w: World, d: Bytes)
    requires w.Valid()
    ensures Openable(w, d) <==> exists at :: Locate(w.fs, ToAbs(w, d)) == Some(at) && w.fs.IsDir(at)
    ensures Openable(w, d) ==>
              exists at :: Locate(w.fs, ToAbs(w, d)) == Some(at) && Real(w.fs, at) && AllowedPath(w, d) == Absolute(at)
    ensures Locate(w.fs, ToAbs(w, d)).None? && IsAbsolute(Parse(d)) ==> AllowedPath(w, d) == Parse(d)
    ensures Locate(w.fs, ToAbs(w, d)).None? && !IsAbsolute(Parse(d)) && w.cwd.Some? ==>
              AllowedPath(w, d) == Join(w.cwd.value, Parse(d))
  {
    hide Walk, Absolute, Parse;
    WalkEndsReal(w.fs, [], ToAbs(w, d), w.fs.linkLimit);
  }

  /** Configuration and start in one state of the file system. */
  method Start(w: World, dirs: seq<Bytes>, follow: bool) returns (r: Result<Sandbox, StartError>)
    ensures r.Ok? <==> forall d :: d in dirs ==> Openable(w, d)
    ensures r.Ok? ==> r.value.trie.Valid() && r.value.trie.prefixes == r.value.roots.Keys
    ensures r.Ok? ==> r.value.roots.Keys == AllowedPaths(w, dirs) && r.value.followSymlinks == follow
    ensures r.Ok? ==> forall p :: p in r.value.roots ==> r.value.roots[p] == Dir(p)
  {
    hide Openable, AllowedPaths, TrieKeys, PathTrie.Valid;
    var config := new Config(w, dirs, follow);
    r := Sandbox.New(w, config);
    if r.Ok? {
      TrieMatchesRoots(w, dirs);
    }
  }

  // -------------------------------------------------------------- containment

  /** The parts of a granted request: the handle is that of the closest allowed root,
      and the canonical path is that root followed by the relative path, which is "."
      for the root itself and never empty. */
  lemma GrantedBelowRoot(w: World, roots: map<Path, Dir>, follow: bool, path: Bytes)
    requires w.Valid() && Resolve(w, roots.Keys, roots, follow, path).Ok?
    ensures var r := Resolve(w, roots.Keys, roots, follow, path).value;
            exists root :: ClosestRoot(roots.Keys, r.canonical, root)
                           && r.dir == roots[root]
                           && r.rel != [] && (r.rel == [CurDir] <==> r.canonical == root)
                           && r.canonical == root + (if r.rel == [CurDir] then [] else r.rel)
    ensures Resolve(w, roots.Keys, roots, follow, path).value.requested == path
  {
    hide Longest, Key, Canonicalize, NoSymlinks;
    var n := Normalize(ToAbs(w, path));
    NormalizeIsNormal(ToAbs(w, path));
    CanonicalIsNormal(w.fs, n);
    var c := CanonicalizeOrParent(w.fs, n).value;
    hide CanonicalizeOrParent, ToAbs, Normalize;
    KeyOfNormal(c);
    LongestMeaning(roots.Keys, c);
    var root := Longest(roots.Keys, Followed(c)).value;
    RelativeRejoins(root, c);
    hide Relative, IsNormal;
    assert ClosestRoot(roots.Keys, c, root);
  }

  lemma RelativeRejoins(root: Path, c: Path)
    requires root <= c && IsNormal(c)
    ensures Relative(root, c) != [] && (Relative(root, c) == [CurDir] <==> c == root)
    ensures c == root + (if Relative(root, c) == [CurDir] then [] else Relative(root, c))
  {
    if c == root {
      assert root + [] == root;
    } else {
      assert c[|root|..][0] == c[|root|];
    }
  }

  /** With trie and roots in agreement, the two internal mismatches of `resolve`
      never happen: a request fails only for a link, an unresolvable path or a
      path outside every root, and for the last exactly when no root holds it. */
  lemma NoInternalMismatch(w: World, roots: map<Path, Dir>, follow: bool, path: Bytes)
    requires w.Valid()
    ensures var n := Normalize(ToAbs(w, path));
            var c := CanonicalizeOrParent(w.fs, n);
            match Resolve(w, roots.Keys, roots, follow, path) {
              case Ok(r) => c == Ok(r.canonical) && (follow || NoSymlinks(w.fs, n))
                            && exists q :: q in roots && q <= r.canonical
              case Err(SymlinkComponent) => !follow && !NoSymlinks(w.fs, n)
              case Err(Unresolvable) => (follow || NoSymlinks(w.fs, n)) && c == Err(Unresolvable)
              case Err(OutsideRoots) => (follow || NoSymlinks(w.fs, n)) && c.Ok?
                                        && forall q :: q in roots ==> !(q <= c.value)
              case Err(_) => false
            }
  {
    hide Longest, Key, Canonicalize, NoSymlinks, IsNormal;
    var n := Normalize(ToAbs(w, path));
    NormalizeIsNormal(ToAbs(w, path));
    CanonicalIsNormal(w.fs, n);
    var canonical := CanonicalizeOrParent(w.fs, n);
    UnresolvableOnly(w.fs, n);
    hide CanonicalizeOrParent, ToAbs, Normalize;
    if canonical.Ok? {
      KeyOfNormal(canonical.value);
      LongestMeaning(roots.Keys, canonical.value);
    }
  }

  lemma UnresolvableOnly(fs: Fs, path: Path)
    ensures CanonicalizeOrParent(fs, path).Err? ==> CanonicalizeOrParent(fs, path).error == Unresolvable
  {
  }

  // -------------------------------------------------------- links not followed

  /** A path that passes the link check has no link on its way. */
  lemma {:induction false} NoLinkOnTheWay(fs: Fs, names: seq<Name>, j: nat)
    requires fs.Valid() && NoSymlinks(fs, Absolute(names)) && j <= |names|
    ensures forall i :: 0 <= i <= j ==> !fs.IsLink(names[..i])
  {
    if j > 0 {
      NoLinkOnTheWay(fs, names, j - 1);
      NextIsNoLink(fs, names, j);
    }
  }

  lemma NextIsNoLink(fs: Fs, names: seq<Name>, j: nat)
    requires fs.Valid() && NoSymlinks(fs, Absolute(names)) && 0 < j <= |names|
    requires forall i :: 0 <= i < j ==> !fs.IsLink(names[..i])
    ensures !fs.IsLink(names[..j])
  {
    hide IsSymlink;
    assert CleanAt(fs, Absolute(names), j);
    if fs.IsLink(names[..j]) {
      LinkIsSeen(fs, names, j);
    }
  }

  lemma LinkIsSeen(fs: Fs, names: seq<Name>, j: nat)
    requires fs.Valid() && 0 < j <= |names| && fs.IsLink(names[..j])
    requires forall i :: 0 <= i < j ==> !fs.IsLink(names[..i])
    ensures IsSymlink(fs, Absolute(names)[..j + 1])
  {
    hide Locate, Absolute, IsSymlink;
    NodesAreReachable(fs, names[..j]);
    assert names[..j][..j - 1] == names[..j - 1];
    PrefixLocates(fs, names, j - 1);
    LinkSeenFrom(fs, names, j);
  }

  /** Without links on the way, a path that leads anywhere leads where its names say. */
  lemma PrefixLocates(fs: Fs, names: seq<Name>, j: nat)
    requires fs.Valid() && j <= |names|
    requires forall i :: 0 <= i <= j ==> !fs.IsLink(names[..i])
    ensures Locate(fs, Absolute(names[..j])) == if names[..j] in fs.nodes then Some(names[..j]) else None
  {
    var down := names[..j];
    forall k | 0 <= k <= j
      ensures [] + down[..k] == names[..k] && down[..k] == names[..k]
    {
    }
    assert [] + down == down;
    WalkDown(fs, [], down, fs.linkLimit);
    WalkEndsReal(fs, [], Normals(down), fs.linkLimit);
    assert Absolute(down)[1..] == Normals(down);
    if down in fs.nodes {
      NodesAreReachable(fs, down);
      assert forall k :: 0 <= k < j ==> fs.IsDir(down[..k]);
    }
  }

  /** When links are not followed, canonicalization is the identity: an existing
      target and a missing leaf alike resolve to the normalized request itself. */
  lemma CanonicalizeIsIdentity(fs: Fs, path: Path)
    requires fs.Valid() && IsNormal(path) && NoSymlinks(fs, path)
    ensures CanonicalizeOrParent(fs, path).Ok? ==> CanonicalizeOrParent(fs, path).value == path
    ensures CanonicalizeOrParent(fs, path).Ok? <==>
              Canonicalize(fs, path).Some? || (path != [RootDir] && Canonicalize(fs, path[..|path| - 1]).Some?)
  {
    var names := NormalAbsolute(path);
    hide IsNormal, Locate, Fs.Valid, Absolute;
    NoLinkOnTheWay(fs, names, |names|);
    hide NoSymlinks, CanonicalizeOrParent, Canonicalize;
    PrefixLocates(fs, names, |names|);
    assert names[..|names|] == names;
    if names != [] {
      PrefixLocates(fs, names, |names| - 1);
    }
    IdentityFor(fs, names);
  }

  lemma IdentityFor(fs: Fs, names: seq<Name>)
    requires var at := Locate(fs, Absolute(names)); at == None || at == Some(names)
    requires names != [] ==>
               var up := names[..|names| - 1];
               Locate(fs, Absolute(up)) == None || Locate(fs, Absolute(up)) == Some(up)
    ensures var path := Absolute(names);
            && (path == [RootDir] <==> names == [])
            && (CanonicalizeOrParent(fs, path).Ok? ==> CanonicalizeOrParent(fs, path).value == path)
            && (CanonicalizeOrParent(fs, path).Ok? <==>
                  || Canonicalize(fs, path).Some?
                  || (path != [RootDir] && Canonicalize(fs, path[..|path| - 1]).Some?))
  {
    if names != [] {
      LastPart(names);
    }
    hide Locate, Absolute;
  }

  lemma LastPart(names: seq<Name>)
    requires names != []
    ensures var p, up, last := Absolute(names), names[..|names| - 1], names[|names| - 1];
            |p| == |names| + 1 && p[..|p| - 1] == Absolute(up) && p[|p| - 1] == Normal(last)
            && p == Absolute(up) + [Normal(last)]
  {
    var up, last := names[..|names| - 1], names[|names| - 1];
    assert names == up + [last];
    AbsoluteAppend(up, last);
  }

  lemma GrantedIsNormalizedRequest(w: World, prefixes: set<Path>, roots: map<Path, Dir>, path: Bytes)
    requires w.Valid() && Resolve(w, prefixes, roots, false, path).Ok?
    ensures Resolve(w, prefixes, roots, false, path).value.canonical == Normalize(ToAbs(w, path))
  {
    hide Longest, Followed, ToAbs, Normalize, NoSymlinks, CanonicalizeOrParent;
    NormalizeIsNormal(ToAbs(w, path));
    CanonicalizeIsIdentity(w.fs, Normalize(ToAbs(w, path)));
  }

  // ------------------------------------------------------------ links followed

  /** What the sandbox makes of the normalized path `n`: the real place that it leads to,
      or else its last name in the real place that its parent leads to. This name may
      be taken already, by a link that leads nowhere. */
  ghost predicate TargetOf(fs: Fs, n: Path, at: Location) {
    if Locate(fs, n).Some? then Locate(fs, n) == Some(at) && Real(fs, at)
    else
      && at != [] && Real(fs, Parent(at)) && n != [] && Normal(at[|at| - 1]) == n[|n| - 1]
      && (at in fs.nodes <==> IsSymlink(fs, n)) && (at in fs.nodes <==> fs.IsLink(at))
  }

  /** A link that is there and leads nowhere. */
  predicate Dangling(fs: Fs, p: Path) {
    IsSymlink(fs, p) && Locate(fs, p).None?
  }

  /** A real place, or a free name in one. */
  ghost predicate RealOrFree(fs: Fs, at: Location) {
    Real(fs, at) || (at !in fs.nodes && at != [] && Real(fs, Parent(at)))
  }

  lemma FoundIsReal(fs: Fs, n: Path) returns (at: Location)
    requires fs.Valid() && CanonicalizeOrParent(fs, n).Ok?
    ensures CanonicalizeOrParent(fs, n).value == Absolute(at) && TargetOf(fs, n, at)
  {
    hide Absolute, Real, Walk, IsSymlink;
    WalkEndsReal(fs, [], n, fs.linkLimit);
    if Locate(fs, n).Some? {
      at := Locate(fs, n).value;
    } else {
      var up, last := n[..|n| - 1], n[|n| - 1];
      assert n == up + [last];
      WalkEndsReal(fs, [], up, fs.linkLimit);
      LastNameIsFreeOrLink(fs, up, last.name);
      var parent := Locate(fs, up).value;
      AbsoluteAppend(parent, last.name);
      at := parent + [last.name];
      assert Parent(at) == parent;
    }
  }

  lemma RealUnlessDangling(fs: Fs, n: Path, at: Location)
    requires TargetOf(fs, n, at)
    ensures RealOrFree(fs, at) <==> !Dangling(fs, n)
  {
    hide Locate, IsSymlink;
  }

  lemma CleanIsNotDangling(fs: Fs, n: Path)
    requires NoSymlinks(fs, n)
    ensures !Dangling(fs, n)
  {
    hide Locate;
    assert n[..|n|] == n;
    if n[|n| - 1].Normal? {
      assert CleanAt(fs, n, |n| - 1);
    }
  }

  /** What is granted is a real place, or a free name in a real place, exactly when the
      request is no dangling link; with links not followed it never is one. */
  lemma GrantedIsReal(w: World, prefixes: set<Path>, roots: map<Path, Dir>, follow: bool, path: Bytes)
      returns (at: Location)
    requires w.Valid() && Resolve(w, prefixes, roots, follow, path).Ok?
    ensures Resolve(w, prefixes, roots, follow, path).value.canonical == Absolute(at)
    ensures TargetOf(w.fs, Normalize(ToAbs(w, path)), at)
    ensures RealOrFree(w.fs, at) <==> !Dangling(w.fs, Normalize(ToAbs(w, path)))
    ensures !follow ==> RealOrFree(w.fs, at)
  {
    hide Longest, Followed, ToAbs, Normalize, NoSymlinks, CanonicalizeOrParent;
    hide TargetOf, Absolute, RealOrFree, Dangling;
    var n := Normalize(ToAbs(w, path));
    at := FoundIsReal(w.fs, n);
    RealUnlessDangling(w.fs, n, at);
    if !follow {
      CleanIsNotDangling(w.fs, n);
    }
  }

  /** Opening the canonical path for writing ends at that very place exactly when the
      request is no dangling link. It then fails only for a directory and for a free name
      whose parent is no directory. A dangling link takes it to where its target leads. */
  lemma LandsAtTarget(fs: Fs, n: Path, at: Location)
    requires fs.Valid() && TargetOf(fs, n, at)
    ensures match OpenForWriting(fs, Absolute(at)) {
              case Some(p) => p == at <==> !Dangling(fs, n)
              case None => Dangling(fs, n) || fs.IsDir(at) || (at !in fs.nodes && !fs.IsDir(Parent(at)))
            }
    ensures Dangling(fs, n) ==> fs.IsLink(at) && OpenForWriting(fs, Absolute(at)) == ThroughLink(fs, at)
  {
    hide Locate, Absolute, IsSymlink, OpenForWriting, ThroughLink;
    OpenMeaning(fs, at);
    if OpenForWriting(fs, Absolute(at)).Some? {
      OpenIsNoLink(fs, Absolute(at));
    }
  }

  /** So what is opened for writing after a grant lies below an allowed root exactly when
      the request is no dangling link, or that link's target leads below one. With links
      not followed the request never is a dangling link. */
  lemma GrantedLandsBelowRoot(w: World, roots: map<Path, Dir>, follow: bool, path: Bytes) returns (at: Location)
    requires w.Valid() && Resolve(w, roots.Keys, roots, follow, path).Ok?
    ensures Resolve(w, roots.Keys, roots, follow, path).value.canonical == Absolute(at)
    ensures var dangling := Dangling(w.fs, Normalize(ToAbs(w, path)));
            && (!follow ==> !dangling)
            && (dangling ==> w.fs.IsLink(at))
            && match OpenForWriting(w.fs, Absolute(at)) {
                 case Some(p) =>
                   && (p == at <==> !dangling)
                   && (Held(roots, Absolute(p)) <==>
                         !dangling || exists q :: ThroughLink(w.fs, at) == Some(q) && Held(roots, Absolute(q)))
                 case None =>
                   dangling || w.fs.IsDir(at) || (at !in w.fs.nodes && !w.fs.IsDir(Parent(at)))
               }
  {
    at := GrantedIsReal(w, roots.Keys, roots, follow, path);
    GrantedBelowRoot(w, roots, follow, path);
    LandsAtTarget(w.fs, Normalize(ToAbs(w, path)), at);
    if !follow {
      hide Resolve;
      RealUnlessDangling(w.fs, Normalize(ToAbs(w, path)), at);
    }
    hide Longest, Followed, ToAbs, Normalize, NoSymlinks, CanonicalizeOrParent, TargetOf, Absolute;
    hide OpenForWriting, ThroughLink, Dangling;
  }

  /** A root r with a link l to o, which is missing. */
  function DanglingFs(r: Name, l: Name, o: Name): Fs {
    Fs(map[[] := Directory, [r] := Directory, [r, l] := Link([RootDir, Normal(o)])], 1)
  }

  lemma DanglingNodes(r: Name, l: Name, o: Name)
    requires r != o
    ensures var fs := DanglingFs(r, l, o);
            && fs.Valid() && [o] !in fs.nodes && Real(fs, [r])
            && [r, l] in fs.nodes && fs.nodes[[r, l]] == Link([RootDir, Normal(o)])
  {
    assert |[r, l]| == 2 && |[r]| == 1 && |[o]| == 1;
    assert [r][0] == r && [o][0] == o;
    assert [r, l][..1] == [r] && [r][..0] == [];
  }

  lemma DanglingLeadsTo(fs: Fs, r: Name, l: Name, o: Name)
    requires r != o && fs == DanglingFs(r, l, o)
    ensures Walk(fs, [r], [Normal(l)], 1).None? && Landing(fs, [r], [Normal(l)], 1) == Some([o])
  {
    DanglingNodes(r, l, o);
    hide DanglingFs, Real;
    var last: Path, target: Path := [Normal(l)], [RootDir, Normal(o)];
    assert [r] + [l] == [r, l] && last[1..] == [] && target + [] == target;
    var missing: Path := [Normal(o)];
    assert target[1..] == missing && missing[1..] == [] && [] + [o] == [o];
    assert Walk(fs, [], missing, 0).None? && Landing(fs, [], missing, 0) == Some([o]);
    assert Walk(fs, [r], target, 0).None? && Landing(fs, [r], target, 0) == Some([o]);
  }

  lemma DanglingPlaces(r: Name, l: Name, o: Name)
    requires r != o
    ensures var fs := DanglingFs(r, l, o);
            && Locate(fs, Absolute([r, l])).None? && Canonicalize(fs, Absolute([r])) == Some(Absolute([r]))
            && OpenForWriting(fs, Absolute([r, l])) == Some([o])
  {
    var fs := DanglingFs(r, l, o);
    DanglingNodes(r, l, o);
    DanglingLeadsTo(fs, r, l, o);
    LocateReal(fs, [r]);
    assert fs.linkLimit == 1;
    hide DanglingFs;
    var p := Absolute([r, l]);
    var more: Path := [Normal(r), Normal(l)];
    assert p[1..] == more && more[1..] == [Normal(l)] && [] + [r] == [r];
    hide Absolute, Normals, Fs.Valid;
    assert Walk(fs, [], more, 1).None? && Landing(fs, [], more, 1) == Some([o]);
  }

  /** With links followed, a link below the root r to a name o that is missing outside
      of it is granted as it stands, and a file opened for writing there is created at o. */
  lemma DanglingLinkIsGranted(r: Name, l: Name, o: Name)
    requires r != o
    ensures var w, roots := World(DanglingFs(r, l, o), None), map[Absolute([r]) := Dir(Absolute([r]))];
            && w.Valid()
            && Resolve(w, roots.Keys, roots, true, Render([r, l])).Ok?
            && Resolve(w, roots.Keys, roots, true, Render([r, l])).value.canonical == Absolute([r, l])
            && OpenForWriting(w.fs, Absolute([r, l])) == Some([o])
            && !Held(roots, Absolute([o]))
  {
    var w, roots := World(DanglingFs(r, l, o), None), map[Absolute([r]) := Dir(Absolute([r]))];
    DanglingNodes(r, l, o);
    DanglingPlaces(r, l, o);
    RequestOfRender(w, [r, l]);
    AbsoluteAppend([r], l);
    assert [r] + [l] == [r, l];
    assert !(Absolute([r]) <= Absolute([o])) by {
      assert Absolute([r])[1] == Normal(r) && Absolute([o])[1] == Normal(o);
    }
    hide DanglingFs, Absolute, Render, Normalize, ToAbs, Canonicalize, Locate, OpenForWriting;
    hide Fs.Valid, Real, Resolve, NoSymlinks;
    CanonicalOfMissing(w.fs, Absolute([r]), l);
    hide CanonicalizeOrParent;
    NoInternalMismatch(w, roots, true, Render([r, l]));
    assert Absolute([r]) in roots && Absolute([r]) <= Absolute([r, l]);
  }

  lemma CanonicalOfMissing(fs: Fs, up: Path, name: Name)
    requires Canonicalize(fs, up) == Some(up) && Locate(fs, up + [Normal(name)]).None?
    ensures CanonicalizeOrParent(fs, up + [Normal(name)]) == Ok(up + [Normal(name)])
  {
    var p := up + [Normal(name)];
    assert p[..|p| - 1] == up;
  }

  /** The text of an absolute path without dot components asks for that very path. */
  lemma RequestOfRender(w: World, at: Location)
    ensures Normalize(ToAbs(w, Render(at))) == Absolute(at)
  {
    ParseOfRender(at);
    AbsoluteIsNormal(at);
    assert [] + Absolute(at) == Absolute(at);
    NormalizeOfNormal([], Absolute(at));
  }

  /** Asking for a canonical path again gives the same canonical path, whether or
      not links are followed. */
  lemma CanonicalResolvesToItself(w: World, roots: map<Path, Dir>, follow: bool, at: Location)
    requires w.Valid() && Real(w.fs, at)
    requires exists q :: q in roots && q <= Absolute(at)
    ensures Resolve(w, roots.Keys, roots, follow, Render(at)).Ok?
    ensures Resolve(w, roots.Keys, roots, follow, Render(at)).value.canonical == Absolute(at)
  {
    hide Longest, Key, Absolute, Render;
    var p := Absolute(at);
    RequestOfRender(w, at);
    AbsoluteIsNormal(at);
    LocateReal(w.fs, at);
    RealIsClean(w.fs, at);
    KeyOfNormal(p);
    LongestMeaning(roots.Keys, p);
  }

  lemma AbsoluteIsNormal(at: Location)
    ensures IsNormal(Absolute(at)) && IsAbsolute(Absolute(at))
  {
  }

  lemma RealIsClean(fs: Fs, at: Location)
    requires fs.Valid() && Real(fs, at)
    ensures NoSymlinks(fs, Absolute(at))
  {
    hide IsSymlink, Real;
    forall i | 0 <= i < |at| + 1
      ensures CleanAt(fs, Absolute(at), i)
    {
      if i > 0 {
        RealIsNoLink(fs, at, i);
      }
    }
  }

  lemma RealIsNoLink(fs: Fs, at: Location, i: nat)
    requires fs.Valid() && Real(fs, at) && 0 < i <= |at|
    ensures !IsSymlink(fs, Absolute(at)[..i + 1])
  {
    hide Locate, Absolute, Canonicalize, IsSymlink;
    var up := at[..i - 1];
    RealAbove(fs, at, i - 1);
    LocateReal(fs, up);
    LinkSeenFrom(fs, at, i);
    if i < |at| {
      RealAbove(fs, at, i);
    }
    assert at[..|at|] == at;
  }

  // ------------------------------------------------------- links and `rename`

  /** Below real directories only the last name can make a path unclean. */
  lemma CleanBelowReal(fs: Fs, parent: Location, name: Name)
    requires fs.Valid() && Real(fs, parent)
    ensures NoSymlinks(fs, Absolute(parent + [name])) <==> !fs.IsLink(parent + [name])
  {
    hide Absolute, Locate, IsSymlink;
    var at := parent + [name];
    LastIsLink(fs, parent, name);
    forall i | 0 <= i < |at|
      ensures CleanAt(fs, Absolute(at), i)
    {
      CleanAbove(fs, parent, name, i);
    }
    hide Fs.Valid, Real;
    assert Absolute(at)[..|at| + 1] == Absolute(at) && Absolute(at)[|at| - 1 + 1] == Normal(at[|at| - 1]);
    assert CleanAt(fs, Absolute(at), |at|) <==> !fs.IsLink(at);
  }

  lemma LastIsLink(fs: Fs, parent: Location, name: Name)
    requires fs.Valid() && Real(fs, parent)
    ensures IsSymlink(fs, Absolute(parent + [name])) <==> fs.IsLink(parent + [name])
  {
    hide Absolute, Locate, Real, IsSymlink;
    var at := parent + [name];
    LocateReal(fs, parent);
    assert at[..|at| - 1] == parent && at[..|at|] == at;
    LinkSeenFrom(fs, at, |at|);
    if fs.IsLink(at) {
      ParentIsDir(fs, parent, name);
    }
    hide Fs.Valid;
    assert Absolute(at)[..|at| + 1] == Absolute(at);
  }

  lemma CleanAbove(fs: Fs, parent: Location, name: Name, i: nat)
    requires fs.Valid() && Real(fs, parent) && i <= |parent|
    ensures CleanAt(fs, Absolute(parent + [name]), i)
  {
    AbsoluteAppend(parent, name);
    hide Absolute, Locate, Real, IsSymlink;
    if i > 0 {
      RealIsNoLink(fs, parent, i);
      assert Absolute(parent)[i - 1 + 1] == Normal(parent[i - 1]);
      assert (Absolute(parent) + [Normal(name)])[..i + 1] == Absolute(parent)[..i + 1];
    }
  }

  /** The link check of `rename` and `copy` is made on the canonical path. So it refuses
      an end exactly when the request is a dangling link, and lets every other link on
      the way pass. */
  lemma RenameChecksOnlyDangling(fs: Fs, n: Path)
    requires fs.Valid() && CanonicalizeOrParent(fs, n).Ok?
    ensures NoSymlinks(fs, CanonicalizeOrParent(fs, n).value) <==> !Dangling(fs, n)
  {
    hide NoSymlinks, Locate, IsSymlink, Absolute;
    var at := FoundIsReal(fs, n);
    hide CanonicalizeOrParent;
    if Locate(fs, n).Some? {
      RealIsClean(fs, at);
    } else {
      assert at == Parent(at) + [at[|at| - 1]];
      CleanBelowReal(fs, Parent(at), at[|at| - 1]);
    }
  }

  lemma OutwardSource(w: World, r: Name, l: Name, o: Name, f: Name)
    requires r != o && w == World(OutwardFs(r, l, o, f), None)
    ensures var n := Normalize(ToAbs(w, Render([r, l, f])));
            CanonicalizeOrParent(w.fs, n) == Ok(Absolute([o, f])) && !NoSymlinks(w.fs, n) && !Dangling(w.fs, n)
  {
    var fs := w.fs;
    RequestOfRender(w, [r, l, f]);
    OutwardNodes(r, l, o, f);
    OutwardLocates(r, l, o, f);
    hide OutwardFs, Absolute, Locate, Normalize, ToAbs, Render, Fs.Valid, Real;
    assert [r, l, f][..1] == [r] && [r, l, f][..2] == [r, l];
    hide IsSymlink, NoSymlinks;
    LinkSeenFrom(fs, [r, l, f], 2);
    LinkIsUnclean(fs, [r, l, f], 2);
  }

  lemma LinkIsUnclean(fs: Fs, names: seq<Name>, i: nat)
    requires 0 < i <= |names| && IsSymlink(fs, Absolute(names)[..i + 1])
    ensures !NoSymlinks(fs, Absolute(names))
  {
    hide IsSymlink, Absolute;
    assert Absolute(names)[i - 1 + 1] == Normal(names[i - 1]);
    assert !CleanAt(fs, Absolute(names), i);
  }

  lemma OutwardDestination(w: World, r: Name, l: Name, o: Name, f: Name, x: Name)
    requires r != o && x != l && w == World(OutwardFs(r, l, o, f), None)
    ensures var n := Normalize(ToAbs(w, Render([r, x])));
            && CanonicalizeOrParent(w.fs, n) == Ok(Absolute([r, x]))
            && Locate(w.fs, Absolute([r, x])).None? && NoSymlinks(w.fs, Absolute([r, x]))
  {
    var fs := w.fs;
    RequestOfRender(w, [r, x]);
    OutwardNodes(r, l, o, f);
    OutwardFree(r, l, o, f, x);
    AbsoluteAppend([r], x);
    hide OutwardFs, Normalize, ToAbs, Render, Locate, Real, NoSymlinks, Absolute;
    assert [r] + [x] == [r, x];
    LocateReal(fs, [r]);
    FreeLeadsNowhere(fs, [r], x);
    CleanBelowReal(fs, [r], x);
    hide Fs.Valid;
    CanonicalOfMissing(fs, Absolute([r]), x);
  }

  lemma OutwardRoots(roots: map<Path, Dir>, r: Name, o: Name, f: Name, x: Name)
    requires r != o && roots.Keys == {Absolute([r]), Absolute([o])}
    ensures Held(roots, Absolute([o, f])) && Held(roots, Absolute([r, x]))
    ensures forall plan :: IsPlan(roots, Absolute([o, f]), Absolute([r, x]), plan) ==>
              plan == Across(Absolute([o, f]), Absolute([r, x]))
  {
    assert Absolute([r])[1] == Normal(r) && Absolute([o])[1] == Normal(o);
    assert Absolute([o, f])[1] == Normal(o) && Absolute([r, x])[1] == Normal(r);
    assert [o, f] == [o] + [f] && [r, x] == [r] + [x];
    AbsoluteAppend([o], f);
    AbsoluteAppend([r], x);
    hide Absolute;
    assert Absolute([o]) in roots && Absolute([r]) in roots;
  }

  lemma LinkIsDenied(w: World, roots: map<Path, Dir>, path: Bytes)
    requires !NoSymlinks(w.fs, Normalize(ToAbs(w, path)))
    ensures Resolve(w, roots.Keys, roots, false, path) == Err(SymlinkComponent)
  {
  }

  /** With links not followed, a request through the link l from one root to the file f
      of another is denied by `resolve`, and yet planned by `rename`. */
  method RenameThroughLink(sandbox: Sandbox, r: Name, l: Name, o: Name, f: Name, x: Name)
      returns (plan: Result<RenamePlan, Denial>)
    requires r != o && x != l
    requires sandbox.trie.Valid() && sandbox.trie.prefixes == sandbox.roots.Keys == {Absolute([r]), Absolute([o])}
    requires !sandbox.followSymlinks
    ensures var w := World(OutwardFs(r, l, o, f), None);
            Resolve(w, sandbox.roots.Keys, sandbox.roots, false, Render([r, l, f])) == Err(SymlinkComponent)
    ensures plan == Ok(Across(Absolute([o, f]), Absolute([r, x])))
  {
    var w := World(OutwardFs(r, l, o, f), None);
    OutwardNodes(r, l, o, f);
    OutwardSource(w, r, l, o, f);
    OutwardDestination(w, r, l, o, f, x);
    OutwardRoots(sandbox.roots, r, o, f, x);
    LinkIsDenied(w, sandbox.roots, Render([r, l, f]));
    RenameChecksOnlyDangling(w.fs, Normalize(ToAbs(w, Render([r, l, f]))));
    hide Resolve;
    hide OutwardFs, CanonicalizeOrParent, Normalize, ToAbs, Render, NoSymlinks, Locate, Dangling;
    hide Absolute, Longest, Followed, Held, IsPlan, Fs.Valid, PathTrie.Valid;
    plan := sandbox.PlanRename(w, Render([r, l, f]), Render([r, x]));
  }

  /** The link test on a prefix of a path, in terms of the place its parent leads to. */
  lemma LinkSeenFrom(fs: Fs, names: seq<Name>, i: nat)
    requires 0 < i <= |names|
    requires Locate(fs, Absolute(names[..i - 1])) == Some(names[..i - 1])
    ensures IsSymlink(fs, Absolute(names)[..i + 1]) <==> fs.IsDir(names[..i - 1]) && fs.IsLink(names[..i])
  {
    hide Locate, Absolute;
    var up := names[..i - 1];
    AbsolutePrefix(names, i);
    assert names[..i] == up + [names[i - 1]];
    AbsoluteAppend(up, names[i - 1]);
    var p := Absolute(up) + [Normal(names[i - 1])];
    assert p[..|p| - 1] == Absolute(up);
  }

  lemma RealAbove(fs: Fs, at: Location, k: nat)
    requires Real(fs, at) && k < |at|
    ensures Real(fs, at[..k])
  {
    assert forall i :: 0 <= i < k ==> at[..k][..i] == at[..i];
  }
}
