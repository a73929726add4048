/** `resources/list` and `resources/read`: the scan of the allowed directories, the
    URIs it lists, and the way back from a URI through the sandbox. */
module Resources {
  import opened Prelude
  import opened Utf8
  import opened Paths
  import opened FileSystem
  import opened Sandboxing
  import opened SandboxLaws
  import UriCodec

  const MAX_LISTED_FILES := 10000

  /** One entry of a directory walk: its names from the root of the file system, and
      whether the walk saw a regular file. */
  datatype Entry = Entry(names: Location, isFile: bool)

  datatype Resource = Resource(uri: Bytes, path: Path)

  // ---------------------------------------------------------------- source

  /** A component below the root starts with a dot. */
  predicate IsHidden(names: Location, root: Location) {
    root <= names && exists i :: |root| <= i < |names| && Hidden(names[i])
  }

  /** What a directory walk of `root` may yield: with links followed, whatever a path
      below the root leads to; without, the nodes of the tree itself. */
  ghost predicate Walked(fs: Fs, root: Location, follow: bool, e: Entry) {
    && root <= e.names
    && if follow then
         var at := Locate(fs, Absolute(e.names));
         at.Some? && (e.isFile <==> IsFile(fs, at.value))
       else e.names in fs.nodes && (e.isFile <==> IsFile(fs, e.names))
  }

  predicate IsFile(fs: Fs, at: Location) {
    at in fs.nodes && fs.nodes[at] == File
  }

  /** The file that an entry stands for: with links followed its canonical path, if
      that lies below some allowed root. */
  function FileOf(fs: Fs, roots: seq<Location>, follow: bool, e: Entry): Option<Location> {
    if !e.isFile then None
    else if !follow then Some(e.names)
    else
      match Locate(fs, Absolute(e.names))
      case None => None
      case Some(at) => if exists k :: 0 <= k < |roots| && roots[k] <= at then Some(at) else None
  }

  function CanonicalRoots(w: World, allowed: seq<Bytes>): Option<seq<Location>> {
    if allowed == [] then Some([])
    else
      var front := CanonicalRoots(w, allowed[..|allowed| - 1]);
      var last := Locate(w.fs, ToAbs(w, allowed[|allowed| - 1]));
      if front.None? || last.None? then None else Some(front.value + [last.value])
  }

  /** `walks[k]` is what the walk of root `k` yields, unreadable entries left out. */
  method ScanResources(w: World, allowed: seq<Bytes>, follow: bool, walks: seq<seq<Entry>>)
    returns (r: Option<seq<Resource>>)
    requires w.Valid() && |walks| == |allowed|
    requires CanonicalRoots(w, allowed).Some? ==> AllWalked(w.fs, CanonicalRoots(w, allowed).value, follow, walks)
    ensures r.Some? <==> CanonicalRoots(w, allowed).Some?
    ensures r.Some? <==> forall d :: d in allowed ==> Locate(w.fs, ToAbs(w, d)).Some?
    ensures r.Some? ==> |r.value| <= MAX_LISTED_FILES
    ensures r.Some? ==> forall x :: x in r.value ==> Listed(w.fs, CanonicalRoots(w, allowed).value, follow, walks, x)
    ensures r.Some? && |r.value| < MAX_LISTED_FILES ==>
              Complete(w.fs, CanonicalRoots(w, allowed).value, walks, |walks|, r.value)
  {
    hide Listed, CanonicalRoots, Covers, CoversFirst, Complete, FileOf, IsHidden, Fs.Valid, AllWalked, Locate;
    hide Absolute, Render, UriCodec.PathToFileUri, ToAbs;
    RootsFound(w, allowed);
    var roots := CanonicalRoots(w, allowed);
    if roots.None? {
      return None;
    }
    RootsCount(w, allowed);
    var output: seq<Resource> := [];
    CompleteNone(w.fs, roots.value, walks);
    for k := 0 to |walks|
      invariant |output| <= MAX_LISTED_FILES
      invariant forall x :: x in output ==> Listed(w.fs, roots.value, follow, walks, x)
      invariant Complete(w.fs, roots.value, walks, k, output)
    {
      var root := roots.value[k];
      CoversNone(w.fs, roots.value, root, walks[k], output);
      for i := 0 to |walks[k]|
        invariant |output| <= MAX_LISTED_FILES
        invariant forall x :: x in output ==> Listed(w.fs, roots.value, follow, walks, x)
        invariant Complete(w.fs, roots.value, walks, k, output)
        invariant CoversFirst(w.fs, roots.value, root, walks[k], i, output)
      {
        var e := walks[k][i];
        if |output| >= MAX_LISTED_FILES {
          return Some(output);
        }
        ghost var before := output;
        var file := FileOf(w.fs, roots.value, follow, e);
        if IsHidden(e.names, root) || file.None? {
          NothingToCover(w.fs, roots.value, follow, root, e, output);
        } else {
          var x := Resource(UriCodec.PathToFileUri(Render(file.value)), Absolute(file.value));
          EntryIsListed(w.fs, roots.value, follow, walks, k, i, x, file.value);
          CoversMore(w.fs, roots.value, walks, k, i, output, x, file.value);
          output := output + [x];
        }
        CoversNext(w.fs, roots.value, root, walks[k], i, before, output);
      }
      CompleteNext(w.fs, roots.value, walks, k, output);
    }
    r := Some(output);
  }

  ghost predicate AllWalked(fs: Fs, roots: seq<Location>, follow: bool, walks: seq<seq<Entry>>) {
    forall k, i :: 0 <= k < |walks| && k < |roots| && 0 <= i < |walks[k]| ==> Walked(fs, roots[k], follow, walks[k][i])
  }

  /** A listed resource: the URI and path of a regular file at its real place below an
      allowed root, reached by a walk under a path without hidden components. */
  ghost predicate Listed(fs: Fs, roots: seq<Location>, follow: bool, walks: seq<seq<Entry>>, x: Resource) {
    exists at, k, i :: ListedAs(fs, roots, follow, walks, x, at, k, i)
  }

  ghost predicate ListedAs(fs: Fs, roots: seq<Location>, follow: bool, walks: seq<seq<Entry>>, x: Resource,
                           at: Location, k: nat, i: nat)
  {
    && x.path == Absolute(at) && x.uri == UriCodec.PathToFileUri(Render(at))
    && Real(fs, at) && IsFile(fs, at)
    && (exists q :: q in roots && q <= at)
    && k < |walks| && k < |roots| && i < |walks[k]|
    && walks[k][i].isFile && DotFree(walks[k][i].names, roots[k])
    && Locate(fs, Absolute(walks[k][i].names)) == Some(at) && (!follow ==> at == walks[k][i].names)
  }

  /** No name from the root on starts with a dot. */
  predicate DotFree(names: Location, root: Location) {
    forall i :: |root| <= i < |names| ==> names[i][0] != 0x2E
  }

  /** If the entry is a file under a path without dot names whose own place lies below some
      allowed root, then this place is among the output. */
  ghost predicate Covers(fs: Fs, roots: seq<Location>, root: Location, e: Entry, output: seq<Resource>) {
    e.isFile && DotFree(e.names, root) ==>
      forall at :: Locate(fs, Absolute(e.names)) == Some(at) && (exists q :: q in roots && q <= at) ==>
        exists x :: x in output && x.path == Absolute(at)
  }

  ghost predicate Complete(fs: Fs, roots: seq<Location>, walks: seq<seq<Entry>>, n: nat,
                           output: seq<Resource>)
  {
    n <= |walks| && n <= |roots| &&
    forall k :: 0 <= k < n ==> CoversFirst(fs, roots, roots[k], walks[k], |walks[k]|, output)
  }

  ghost predicate CoversFirst(fs: Fs, roots: seq<Location>, root: Location, walk: seq<Entry>, n: nat,
                              output: seq<Resource>)
  {
    n <= |walk| && forall i :: 0 <= i < n ==> Covers(fs, roots, root, walk[i], output)
  }

  lemma CoversNone(fs: Fs, roots: seq<Location>, root: Location, walk: seq<Entry>, output: seq<Resource>)
    ensures CoversFirst(fs, roots, root, walk, 0, output)
  {
  }

  lemma CompleteNone(fs: Fs, roots: seq<Location>, walks: seq<seq<Entry>>)
    ensures Complete(fs, roots, walks, 0, [])
  {
  }

  lemma CoversNext(fs: Fs, roots: seq<Location>, root: Location, walk: seq<Entry>, n: nat,
                   before: seq<Resource>, output: seq<Resource>)
    requires CoversFirst(fs, roots, root, walk, n, before) && before <= output && n < |walk|
    requires Covers(fs, roots, root, walk[n], output)
    ensures CoversFirst(fs, roots, root, walk, n + 1, output)
  {
    hide Locate, Absolute, DotFree;
    forall i | 0 <= i < n
      ensures Covers(fs, roots, root, walk[i], output)
    {
      CoversGrow(fs, roots, root, walk[i], before, output);
    }
  }

  lemma CoversGrow(fs: Fs, roots: seq<Location>, root: Location, e: Entry,
                   before: seq<Resource>, output: seq<Resource>)
    requires Covers(fs, roots, root, e, before) && before <= output
    ensures Covers(fs, roots, root, e, output)
  {
    hide Locate, Absolute, DotFree;
    assert forall x :: x in before ==> x in output;
  }

  lemma CompleteNext(fs: Fs, roots: seq<Location>, walks: seq<seq<Entry>>, n: nat, output: seq<Resource>)
    requires Complete(fs, roots, walks, n, output) && n < |walks| && n < |roots|
    requires CoversFirst(fs, roots, roots[n], walks[n], |walks[n]|, output)
    ensures Complete(fs, roots, walks, n + 1, output)
  {
    hide CoversFirst;
  }

  lemma CoversMore(fs: Fs, roots: seq<Location>, walks: seq<seq<Entry>>, k: nat, i: nat,
                   output: seq<Resource>, x: Resource, at: Location)
    requires Complete(fs, roots, walks, k, output) && k < |walks| && k < |roots| && i < |walks[k]|
    requires Locate(fs, Absolute(walks[k][i].names)) == Some(at) && x.path == Absolute(at)
    ensures Complete(fs, roots, walks, k, output + [x])
    ensures Covers(fs, roots, roots[k], walks[k][i], output + [x])
  {
    hide Covers, Absolute, Locate;
    forall j | 0 <= j < k
      ensures CoversFirst(fs, roots, roots[j], walks[j], |walks[j]|, output + [x])
    {
      forall n | 0 <= n < |walks[j]|
        ensures Covers(fs, roots, roots[j], walks[j][n], output + [x])
      {
        CoversGrow(fs, roots, roots[j], walks[j][n], output, output + [x]);
      }
    }
    CoversNew(fs, roots, roots[k], walks[k][i], output, x);
  }

  lemma CoversNew(fs: Fs, roots: seq<Location>, root: Location, e: Entry,
                  output: seq<Resource>, x: Resource)
    requires Locate(fs, Absolute(e.names)).Some? && x.path == Absolute(Locate(fs, Absolute(e.names)).value)
    ensures Covers(fs, roots, root, e, output + [x])
  {
    hide Locate, Absolute, DotFree;
    assert x in output + [x];
  }

  lemma {:induction false} RootsCount(w: World, allowed: seq<Bytes>)
    requires CanonicalRoots(w, allowed).Some?
    ensures |CanonicalRoots(w, allowed).value| == |allowed|
    ensures forall k :: 0 <= k < |allowed| ==>
              Locate(w.fs, ToAbs(w, allowed[k])) == Some(CanonicalRoots(w, allowed).value[k])
  {
    hide Locate, ToAbs;
    if allowed != [] {
      RootsCount(w, allowed[..|allowed| - 1]);
    }
  }

  /** What the scan passes over is no file, has a dot name, or lies below no root. */
  lemma NothingToCover(fs: Fs, roots: seq<Location>, follow: bool, root: Location, e: Entry, output: seq<Resource>)
    requires IsHidden(e.names, root) || FileOf(fs, roots, follow, e).None?
    ensures Covers(fs, roots, root, e, output)
  {
    hide Locate, Absolute;
    if e.isFile && follow {
      forall at | Locate(fs, Absolute(e.names)) == Some(at) && FileOf(fs, roots, follow, e).None?
        ensures !(exists q :: q in roots && q <= at)
      {
      }
    }
  }

  lemma NotHidden(names: Location, root: Location)
    requires root <= names && !IsHidden(names, root)
    ensures DotFree(names, root)
  {
    forall i | |root| <= i < |names|
      ensures names[i][0] != 0x2E
    {
      assert names[i] != [DOT] && !Hidden(names[i]);
    }
  }

  /** The scan starts exactly when every allowed directory leads somewhere. */
  lemma {:induction false} RootsFound(w: World, allowed: seq<Bytes>)
    ensures CanonicalRoots(w, allowed).Some? <==> forall d :: d in allowed ==> Locate(w.fs, ToAbs(w, d)).Some?
  {
    hide Locate, ToAbs;
    if allowed != [] {
      var front, last := allowed[..|allowed| - 1], allowed[|allowed| - 1];
      RootsFound(w, front);
      assert allowed == front + [last];
    }
  }

  lemma EntryIsListed(fs: Fs, roots: seq<Location>, follow: bool, walks: seq<seq<Entry>>, k: nat, i: nat,
                      x: Resource, at: Location)
    requires fs.Valid() && AllWalked(fs, roots, follow, walks)
    requires k < |walks| && k < |roots| && i < |walks[k]| && !IsHidden(walks[k][i].names, roots[k])
    requires FileOf(fs, roots, follow, walks[k][i]) == Some(at)
    requires x == Resource(UriCodec.PathToFileUri(Render(at)), Absolute(at))
    ensures Listed(fs, roots, follow, walks, x) && Locate(fs, Absolute(walks[k][i].names)) == Some(at)
  {
    hide Absolute, Locate;
    var e := walks[k][i];
    assert Walked(fs, roots[k], follow, e);
    FileIsReal(fs, roots, follow, roots[k], e, at);
    NotHidden(e.names, roots[k]);
    assert e.isFile;
    hide IsHidden, DotFree;
    hide Walked, FileOf, Fs.Valid, Real, AllWalked;
    assert ListedAs(fs, roots, follow, walks, x, at, k, i);
  }

  lemma FileIsReal(fs: Fs, roots: seq<Location>, follow: bool, root: Location, e: Entry, at: Location)
    requires fs.Valid() && Walked(fs, root, follow, e) && root in roots
    requires FileOf(fs, roots, follow, e) == Some(at)
    ensures Real(fs, at) && IsFile(fs, at) && exists q :: q in roots && q <= at
    ensures Locate(fs, Absolute(e.names)) == Some(at) && (!follow ==> at == e.names)
  {
    if !follow {
      RealNode(fs, at);
      LocateReal(fs, at);
    }
    if follow {
      WalkEndsReal(fs, [], Absolute(e.names), fs.linkLimit);
      var k :| 0 <= k < |roots| && roots[k] <= at;
      assert roots[k] in roots;
    }
  }

  // ------------------------------------------------------------ there and back

  /** A listed URI decodes to the path it was made from exactly when that path has no
      backslash, and this path resolves through the sandbox, with or without following
      links, to the very file that was listed. */
  lemma ListedUriResolves(w: World, allowed: seq<Bytes>, scanFollow: bool, walks: seq<seq<Entry>>, x: Resource,
                          roots: map<Path, Dir>, follow: bool, at: Location)
    requires w.Valid() && CanonicalRoots(w, allowed).Some? && roots.Keys == AllowedPaths(w, allowed)
    requires Listed(w.fs, CanonicalRoots(w, allowed).value, scanFollow, walks, x) && x.path == Absolute(at)
    requires Valid(Render(at))
    ensures UriCodec.FileUriToPath(x.uri) == Ok(Render(at)) <==> UriCodec.BACKSLASH !in Render(at)
    ensures var r := Resolve(w, roots.Keys, roots, follow, Render(at)); r.Ok? && r.value.canonical == x.path
    ensures IsFile(w.fs, at)
  {
    hide Valid, Resolve, UriCodec.PathToFileUri, UriCodec.FileUriToPath, ToAbs, Absolute, Real, AllowedPaths;
    var locations := CanonicalRoots(w, allowed).value;
    var at', k, i :| ListedAs(w.fs, locations, scanFollow, walks, x, at', k, i);
    AbsoluteInjective(at, at');
    UriCodec.FileUriRoundTrip(Render(at));
    var q :| q in locations && q <= at;
    RootIsAllowed(w, allowed, q);
    PrefixOfAbsolute(q, at);
    CanonicalResolvesToItself(w, roots, follow, at);
  }

  lemma RootIsAllowed(w: World, allowed: seq<Bytes>, q: Location)
    requires CanonicalRoots(w, allowed).Some? && q in CanonicalRoots(w, allowed).value
    ensures Absolute(q) in AllowedPaths(w, allowed)
  {
    hide Locate, ToAbs;
    RootsCount(w, allowed);
    var k :| 0 <= k < |allowed| && CanonicalRoots(w, allowed).value[k] == q;
    assert AllowedPath(w, allowed[k]) == Absolute(q);
  }

  lemma PrefixOfAbsolute(q: Location, at: Location)
    requires q <= at
    ensures Absolute(q) <= Absolute(at)
  {
    AbsolutePrefix(at, |q|);
    assert at[..|q|] == q;
  }
}
