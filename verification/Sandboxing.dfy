/** The path sandbox: allowed roots, the trie that indexes them, `resolve` and the
    planning part of `rename`, over a file system that does not change meanwhile. */
module Sandboxing {
  import opened Prelude
  import opened Utf8
  import opened Paths
  import opened FileSystem
  import opened PrefixTrie

  /** Why a request is turned down. `RootMissing` and `NotBelowRoot` are the two
      internal mismatches that the source guards against. */
  datatype Denial = SymlinkComponent | Unresolvable | OutsideRoots | RootMissing | NotBelowRoot | DestinationExists

  /** An open directory handle, known by the canonical path it was opened at. */
  datatype Dir = Dir(path: Path)

  datatype Resolved = Resolved(dir: Dir, rel: Path, requested: Bytes, canonical: Path)

  /** What the server sees of the machine: the tree and the working directory, if any. */
  datatype World = World(fs: Fs, cwd: Option<Path>) {
    ghost predicate Valid() {
      fs.Valid() && (cwd.Some? ==> RootFirst(cwd.value))
    }
  }

  // ---------------------------------------------------------------- source

  function ToAbs(w: World, path: Bytes): Path {
    var p := Parse(path);
    if IsAbsolute(p) then p else Join(if w.cwd.Some? then w.cwd.value else [], p)
  }

  function CanonicalizeOrParent(fs: Fs, path: Path): Result<Path, Denial> {
    match Canonicalize(fs, path)
    case Some(c) => Ok(c)
    case None =>
      if path == [] || !path[|path| - 1].Normal? then Err(Unresolvable)
      else
        match Canonicalize(fs, path[..|path| - 1])
        case None => Err(Unresolvable)
        case Some(parent) => Ok(parent + [path[|path| - 1]])
  }

  /** No component of the path is a link, and none is a dot component. */
  predicate NoSymlinks(fs: Fs, path: Path) {
    IsAbsolute(path) && forall i :: 0 <= i < |path| ==> CleanAt(fs, path, i)
  }

  predicate CleanAt(fs: Fs, path: Path, i: nat)
    requires i < |path|
  {
    match path[i]
    case RootDir => true
    case CurDir => false
    case ParentDir => false
    case Normal(_) => !IsSymlink(fs, path[..i + 1])
  }

  method CheckSymlinksInPath(fs: Fs, path: Path) returns (ok: bool)
    requires RootFirst(path)
    ensures ok == NoSymlinks(fs, path)
  {
    hide IsSymlink;
    if !IsAbsolute(path) {
      return false;
    }
    var current: Path := [];
    for k := 0 to |path|
      invariant current == path[..k]
      invariant forall i :: 0 <= i < k ==> CleanAt(fs, path, i)
    {
      match path[k] {
        case RootDir => current := Push(current, RootDir);
        case CurDir =>
          assert !CleanAt(fs, path, k);
          return false;
        case ParentDir =>
          assert !CleanAt(fs, path, k);
          return false;
        case Normal(_) =>
          current := Push(current, path[k]);
          assert current == path[..k + 1];
          if IsSymlink(fs, current) {
            assert !CleanAt(fs, path, k);
            return false;
          }
      }
    }
    ok := true;
  }

  /** `strip_prefix`, with "." for the root itself. */
  function Relative(root: Path, canonical: Path): Path
    requires root <= canonical
  {
    if canonical == root then [CurDir] else canonical[|root|..]
  }

  /** The stages of `resolve` over the trie's content and the map of roots. */
  function Resolve(w: World, prefixes: set<Path>, roots: map<Path, Dir>, follow: bool, path: Bytes)
    : Result<Resolved, Denial>
  {
    var normalized := Normalize(ToAbs(w, path));
    if !follow && !NoSymlinks(w.fs, normalized) then Err(SymlinkComponent)
    else
      match CanonicalizeOrParent(w.fs, normalized)
      case Err(e) => Err(e)
      case Ok(canonical) =>
        match Longest(prefixes, Followed(canonical))
        case None => Err(OutsideRoots)
        case Some(root) =>
          if root !in roots then Err(RootMissing)
          else if !(root <= canonical) then Err(NotBelowRoot)
          else Ok(Resolved(roots[root], Relative(root, canonical), path, canonical))
  }

  /** An allowed directory in canonical form, or made absolute when it has none. */
  function AllowedPath(w: World, dir: Bytes): Path {
    var abs := ToAbs(w, dir);
    match Canonicalize(w.fs, abs)
    case Some(c) => c
    case None => abs
  }

  /** An allowed directory that `Sandbox::new` can open. */
  predicate Openable(w: World, dir: Bytes) {
    var at := Locate(w.fs, ToAbs(w, dir));
    at.Some? && w.fs.IsDir(at.value)
  }

  function AllowedPaths(w: World, dirs: seq<Bytes>): set<Path> {
    set d | d in dirs :: AllowedPath(w, d)
  }

  function TrieKeys(w: World, dirs: seq<Bytes>): set<Path> {
    set d | d in dirs :: Key(AllowedPath(w, d))
  }

  lemma TrieKeysStep(w: World, dirs: seq<Bytes>, k: nat)
    requires k < |dirs|
    ensures TrieKeys(w, dirs[..k + 1]) == TrieKeys(w, dirs[..k]) + {Key(AllowedPath(w, dirs[k]))}
  {
    hide Key, AllowedPath;
    assert dirs[..k + 1] == dirs[..k] + [dirs[k]];
  }

  method BuildAllowedTrie(w: World, dirs: seq<Bytes>) returns (trie: PathTrie)
    ensures fresh(trie) && fresh(trie.repr) && trie.Valid()
    ensures trie.prefixes == TrieKeys(w, dirs)
  {
    hide Key, AllowedPath, PathTrie.Valid;
    trie := new PathTrie();
    for k := 0 to |dirs|
      invariant fresh(trie) && fresh(trie.repr) && trie.Valid()
      invariant trie.prefixes == TrieKeys(w, dirs[..k])
    {
      TrieKeysStep(w, dirs, k);
      trie.Insert(AllowedPath(w, dirs[k]));
    }
    assert dirs[..|dirs|] == dirs;
  }

  class Config {
    var allowedDirectories: seq<Bytes>
    var allowedTrie: PathTrie
    var followSymlinks: bool

    constructor (w: World, allowed: seq<Bytes>, follow: bool)
      ensures allowedDirectories == allowed && followSymlinks == follow
      ensures fresh(allowedTrie) && allowedTrie.Valid() && allowedTrie.prefixes == TrieKeys(w, allowed)
    {
      allowedDirectories, followSymlinks := allowed, follow;
      var trie := BuildAllowedTrie(w, allowed);
      allowedTrie := trie;
    }

    /** Brings the trie up to date after the list of directories was changed. */
    method RebuildTrie(w: World)
      modifies this`allowedTrie
      ensures fresh(allowedTrie) && allowedTrie.Valid()
      ensures allowedTrie.prefixes == TrieKeys(w, allowedDirectories)
    {
      allowedTrie := BuildAllowedTrie(w, allowedDirectories);
    }
  }

  datatype StartError = CannotCanonicalize(dir: Bytes) | CannotOpen(dir: Bytes)

  /** The canonical path under which an allowed directory is opened. */
  function OpenRoot(w: World, dir: Bytes): (r: Result<Path, StartError>)
    ensures r.Ok? <==> Openable(w, dir)
    ensures r.Ok? ==> r.value == AllowedPath(w, dir)
  {
    match Locate(w.fs, ToAbs(w, dir))
    case None => Err(CannotCanonicalize(dir))
    case Some(at) => if w.fs.IsDir(at) then Ok(Absolute(at)) else Err(CannotOpen(dir))
  }

  /** Opens every allowed directory; the first that fails ends the start. */
  method OpenRoots(w: World, dirs: seq<Bytes>) returns (r: Result<map<Path, Dir>, StartError>)
    ensures r.Ok? <==> forall d :: d in dirs ==> Openable(w, d)
    ensures r.Ok? ==> r.value.Keys == AllowedPaths(w, dirs) && forall p :: p in r.value ==> r.value[p] == Dir(p)
  {
    hide Openable, AllowedPaths, AllowedPath, OpenRoot;
    var roots: map<Path, Dir> := map[];
    NoAllowedPaths(w, dirs);
    for k := 0 to |dirs|
      invariant forall i :: 0 <= i < k ==> Openable(w, dirs[i])
      invariant roots.Keys == AllowedPaths(w, dirs[..k])
      invariant forall p :: p in roots ==> roots[p] == Dir(p)
    {
      AllowedPathsStep(w, dirs, k);
      var canonical := OpenRoot(w, dirs[k]);
      if canonical.Err? {
        return Err(canonical.error);
      }
      roots := roots[canonical.value := Dir(canonical.value)];
    }
    assert dirs[..|dirs|] == dirs;
    r := Ok(roots);
  }

  lemma NoAllowedPaths(w: World, dirs: seq<Bytes>)
    ensures AllowedPaths(w, dirs[..0]) == {}
  {
  }

  /** Some allowed root holds `canonical`, and no allowed root is closer to it. */
  ghost predicate ClosestRoot(roots: set<Path>, canonical: Path, root: Path) {
    && root in roots && root <= canonical
    && forall q :: q in roots && q <= canonical ==> q <= root
  }

  /** How a rename is carried out: below one root handle, or between absolute paths. */
  datatype RenamePlan =
    | Within(dir: Dir, source: Path, target: Path)
    | Across(from: Path, to: Path)

  /** What the plan for moving `s` to `d` has to be, over the same map of roots. */
  ghost predicate IsPlan(roots: map<Path, Dir>, s: Path, d: Path, plan: RenamePlan) {
    exists a, b :: ClosestRoot(roots.Keys, s, a) && ClosestRoot(roots.Keys, d, b) &&
      if a == b then plan.Within? && plan.dir == roots[a] && a + plan.source == s && a + plan.target == d
      else plan == Across(s, d)
  }

  /** `path` lies below some allowed root. */
  ghost predicate Held(roots: map<Path, Dir>, path: Path) {
    exists q :: q in roots && q <= path
  }

  class Sandbox {
    const roots: map<Path, Dir>
    const trie: PathTrie
    const followSymlinks: bool

    constructor (roots: map<Path, Dir>, trie: PathTrie, follow: bool)
      ensures this.roots == roots && this.trie == trie && this.followSymlinks == follow
    {
      this.roots, this.trie, this.followSymlinks := roots, trie, follow;
    }

    static method New(w: World, config: Config) returns (r: Result<Sandbox, StartError>)
      ensures r.Ok? <==> forall d :: d in config.allowedDirectories ==> Openable(w, d)
      ensures r.Ok? ==>
                && r.value.roots.Keys == AllowedPaths(w, config.allowedDirectories)
                && (forall p :: p in r.value.roots ==> r.value.roots[p] == Dir(p))
                && r.value.trie == config.allowedTrie && r.value.followSymlinks == config.followSymlinks
    {
      hide Openable, AllowedPaths;
      var roots := OpenRoots(w, config.allowedDirectories);
      if roots.Err? {
        return Err(roots.error);
      }
      var sandbox := new Sandbox(roots.value, config.allowedTrie, config.followSymlinks);
      r := Ok(sandbox);
    }

    method ResolveRequest(w: World, path: Bytes) returns (r: Result<Resolved, Denial>)
      requires w.Valid() && trie.Valid()
      ensures r == Resolve(w, trie.prefixes, roots, followSymlinks, path)
    {
      hide Canonicalize, Longest, Followed, World.Valid, PathTrie.Valid, NoSymlinks;
      ToAbsRootFirst(w, path);
      var abs := ToAbs(w, path);
      var normalized := NormalizePath(abs);
      NormalizeIsNormal(abs);
      if !followSymlinks {
        var clean := CheckSymlinksInPath(w.fs, normalized);
        if !clean {
          return Err(SymlinkComponent);
        }
      }
      var canonical := CanonicalizeOrParent(w.fs, normalized);
      if canonical.Err? {
        return Err(canonical.error);
      }
      CanonicalIsNormal(w.fs, normalized);
      var root := trie.LongestPrefix(canonical.value);
      if root.None? {
        return Err(OutsideRoots);
      }
      if root.value !in roots {
        return Err(RootMissing);
      }
      if !(root.value <= canonical.value) {
        return Err(NotBelowRoot);
      }
      r := Ok(Resolved(roots[root.value], Relative(root.value, canonical.value), path, canonical.value));
    }

    /** The part of `rename` before the move itself. Both prefix removals, which the
        source unwraps, are safe, and the map of roots has an entry for the root found. */
    method PlanRename(w: World, src: Bytes, dst: Bytes) returns (r: Result<RenamePlan, Denial>)
      requires w.Valid() && trie.Valid() && trie.prefixes == roots.Keys
      ensures var s := CanonicalizeOrParent(w.fs, Normalize(ToAbs(w, src)));
              var d := CanonicalizeOrParent(w.fs, Normalize(ToAbs(w, dst)));
              match r {
                case Err(Unresolvable) => s.Err? || d.Err?
                case Err(OutsideRoots) => s.Ok? && d.Ok? && !(Held(roots, s.value) && Held(roots, d.value))
                case Err(DestinationExists) => s.Ok? && d.Ok? && Held(roots, s.value) && Held(roots, d.value)
                                               && Locate(w.fs, d.value).Some?
                case Err(SymlinkComponent) => s.Ok? && d.Ok? && Held(roots, s.value) && Held(roots, d.value)
                                              && Locate(w.fs, d.value).None? && !followSymlinks
                                              && !(NoSymlinks(w.fs, s.value) && NoSymlinks(w.fs, d.value))
                case Err(_) => false
                case Ok(plan) =>
                  && s.Ok? && d.Ok? && Locate(w.fs, d.value).None?
                  && IsPlan(roots, s.value, d.value, plan)
                  && (plan.Across? && !followSymlinks ==> NoSymlinks(w.fs, s.value) && NoSymlinks(w.fs, d.value))
              }
    {
      hide CanonicalizeOrParent, Longest, Followed, World.Valid, PathTrie.Valid;
      hide NoSymlinks, Locate, IsNormal, ToAbs, Normalize;
      var srcAbs := Endpoint(w, src);
      if srcAbs.Err? {
        return Err(Unresolvable);
      }
      var dstAbs := Endpoint(w, dst);
      if dstAbs.Err? {
        return Err(Unresolvable);
      }
      var srcRoot := trie.LongestPrefix(srcAbs.value);
      var dstRoot := trie.LongestPrefix(dstAbs.value);
      RootFound(roots, srcAbs.value);
      RootFound(roots, dstAbs.value);
      if srcRoot.None? || dstRoot.None? {
        return Err(OutsideRoots);
      }
      if Locate(w.fs, dstAbs.value).Some? {
        return Err(DestinationExists);
      }
      if srcRoot == dstRoot {
        if srcRoot.value !in roots {
          return Err(RootMissing);
        }
        r := Ok(Within(roots[srcRoot.value], srcAbs.value[|srcRoot.value|..], dstAbs.value[|dstRoot.value|..]));
      } else {
        if !followSymlinks {
          var srcClean := CheckSymlinksInPath(w.fs, srcAbs.value);
          if !srcClean {
            return Err(SymlinkComponent);
          }
          var dstClean := CheckSymlinksInPath(w.fs, dstAbs.value);
          if !dstClean {
            return Err(SymlinkComponent);
          }
        }
        r := Ok(Across(srcAbs.value, dstAbs.value));
      }
    }

    /** Normalizes and canonicalizes one end of a rename. */
    static method Endpoint(w: World, path: Bytes) returns (r: Result<Path, Denial>)
      requires w.Valid()
      ensures r == CanonicalizeOrParent(w.fs, Normalize(ToAbs(w, path)))
      ensures r.Ok? ==> IsNormal(r.value) && RootFirst(r.value)
    {
      hide CanonicalizeOrParent, ToAbs, World.Valid;
      ToAbsRootFirst(w, path);
      var normalized := NormalizePath(ToAbs(w, path));
      NormalizeIsNormal(ToAbs(w, path));
      CanonicalIsNormal(w.fs, normalized);
      r := CanonicalizeOrParent(w.fs, normalized);
    }
  }

  lemma RootFound(roots: map<Path, Dir>, c: Path)
    requires IsNormal(c)
    ensures var found := Longest(roots.Keys, Followed(c));
            && (found.Some? <==> Held(roots, c))
            && (found.Some? ==> ClosestRoot(roots.Keys, c, found.value))
  {
    hide Longest, Key;
    KeyOfNormal(c);
    LongestMeaning(roots.Keys, c);
  }

  lemma AllowedPathsStep(w: World, dirs: seq<Bytes>, k: nat)
    requires k < |dirs|
    ensures AllowedPaths(w, dirs[..k + 1]) == AllowedPaths(w, dirs[..k]) + {AllowedPath(w, dirs[k])}
  {
    hide AllowedPath;
    assert dirs[..k + 1] == dirs[..k] + [dirs[k]];
  }

  lemma ToAbsRootFirst(w: World, path: Bytes)
    requires w.Valid()
    ensures RootFirst(ToAbs(w, path))
  {
    ParseRootFirst(path);
  }

  /** Whatever is found for a normalized path has no dot components. */
  lemma CanonicalIsNormal(fs: Fs, path: Path)
    requires IsNormal(path)
    ensures CanonicalizeOrParent(fs, path).Ok? ==>
              var c := CanonicalizeOrParent(fs, path).value;
              IsNormal(c) && IsAbsolute(c) && RootFirst(c)
  {
    hide Locate;
  }
}
