/** A file system as a tree of directories, files and symbolic links, and the
    path walk of the operating system over it. */
module FileSystem {
  import opened Prelude
  import opened Utf8
  import opened Paths

  /** A node is identified by the names that lead to it from the root through real directories. */
  type Location = seq<Name>

  datatype Kind = Directory | File | Special | Link(target: Path)

  /** `linkLimit` is how many links one walk may follow before it fails. */
  datatype Fs = Fs(nodes: map<Location, Kind>, linkLimit: nat) {

    predicate IsDir(at: Location) {
      at in nodes && nodes[at] == Directory
    }

    predicate IsLink(at: Location) {
      at in nodes && nodes[at].Link?
    }

    /** Every node but the root sits in a directory. */
    ghost predicate Valid() {
      && IsDir([])
      && forall at :: at in nodes && at != [] ==> IsDir(at[..|at| - 1])
    }

    ghost predicate LinkFree() {
      forall at :: at in nodes ==> !nodes[at].Link?
    }
  }

  function Parent(at: Location): Location {
    if at == [] then [] else at[..|at| - 1]
  }

  /** Follows `todo` from the directory `at`: links are replaced by their targets,
      ".." goes to the parent and the root is its own parent. */
  function Walk(fs: Fs, at: Location, todo: Path, links: nat): Option<Location>
    decreases links, |todo|
  {
    if todo == [] then (if at in fs.nodes then Some(at) else None)
    else
      match todo[0]
      case RootDir => Walk(fs, [], todo[1..], links)
      case CurDir => if fs.IsDir(at) then Walk(fs, at, todo[1..], links) else None
      case ParentDir => if fs.IsDir(at) then Walk(fs, Parent(at), todo[1..], links) else None
      case Normal(n) =>
        var next := at + [n];
        if !fs.IsDir(at) || next !in fs.nodes then None
        else if !fs.IsLink(next) then Walk(fs, next, todo[1..], links)
        else if links == 0 then None
        else Walk(fs, at, fs.nodes[next].target + todo[1..], links - 1)
  }

  /** `realpath`: the location of an absolute path whose every part exists. A
      relative path only arises without a working directory, and then fails. */
  function Locate(fs: Fs, p: Path): Option<Location> {
    if IsAbsolute(p) then Walk(fs, [], p, fs.linkLimit) else None
  }

  function Canonicalize(fs: Fs, p: Path): Option<Path> {
    match Locate(fs, p)
    case None => None
    case Some(at) => Some(Absolute(at))
  }

  /** `is_symlink`: the last name is looked at without being followed. */
  predicate IsSymlink(fs: Fs, p: Path) {
    && p != []
    && p[|p| - 1].Normal?
    && var dir := Locate(fs, p[..|p| - 1]);
    && dir.Some?
    && fs.IsDir(dir.value)
    && fs.IsLink(dir.value + [p[|p| - 1].name])
  }

  // ------------------------------------------------------ facts about walks

  /** A real place: all its parts above it are directories and it is no link. */
  ghost predicate Real(fs: Fs, at: Location) {
    && at in fs.nodes && !fs.IsLink(at)
    && forall k :: 0 <= k < |at| ==> fs.IsDir(at[..k])
  }

  lemma {:induction false} NodesAreReachable(fs: Fs, at: Location)
    requires fs.Valid() && at in fs.nodes
    ensures forall k :: 0 <= k < |at| ==> fs.IsDir(at[..k])
    decreases |at|
  {
    if at != [] {
      var up := at[..|at| - 1];
      NodesAreReachable(fs, up);
      forall k | 0 <= k < |at|
        ensures fs.IsDir(at[..k])
      {
        assert k < |up| ==> up[..k] == at[..k];
        assert k == |up| ==> at[..k] == up;
      }
    }
  }

  /** A walk never ends on a link. */
  lemma {:induction false} WalkEndsReal(fs: Fs, at: Location, todo: Path, links: nat)
    requires fs.Valid() && !fs.IsLink(at)
    ensures Walk(fs, at, todo, links).Some? ==> Real(fs, Walk(fs, at, todo, links).value)
    decreases links, |todo|
  {
    if todo == [] {
      if at in fs.nodes {
        NodesAreReachable(fs, at);
      }
    } else {
      match todo[0]
      case RootDir => WalkEndsReal(fs, [], todo[1..], links);
      case CurDir => WalkEndsReal(fs, at, todo[1..], links);
      case ParentDir =>
        if fs.IsDir(at) {
          WalkEndsReal(fs, Parent(at), todo[1..], links);
        }
      case Normal(n) =>
        var next := at + [n];
        if fs.IsDir(at) && next in fs.nodes {
          if !fs.IsLink(next) {
            WalkEndsReal(fs, next, todo[1..], links);
          } else if links > 0 {
            WalkEndsReal(fs, at, fs.nodes[next].target + todo[1..], links - 1);
          }
        }
    }
  }

  /** Walking down real directories follows no link and arrives where the names say. */
  lemma {:induction false} WalkDown(fs: Fs, at: Location, names: seq<Name>, links: nat)
    requires forall k :: 0 < k <= |names| ==> !fs.IsLink(at + names[..k])
    ensures var r := Walk(fs, at, Normals(names), links);
            && (r.Some? ==> r.value == at + names)
            && (at + names in fs.nodes && (forall k :: 0 <= k < |names| ==> fs.IsDir(at + names[..k])) ==> r.Some?)
    decreases |names|
  {
    if names == [] {
      assert at + names == at;
    } else {
      var next := at + [names[0]];
      var more := names[1..];
      assert names[..1] == [names[0]];
      forall k | 0 <= k <= |more|
        ensures next + more[..k] == at + names[..k + 1]
      {
        assert names[..k + 1] == [names[0]] + more[..k];
      }
      assert names[..0] == [] && at + [] == at;
      assert next + more == at + names by {
        assert more[..|more|] == more && names[..|names|] == names;
      }
      WalkDown(fs, next, more, links);
      assert Normals(names)[1..] == Normals(more);
    }
  }

  /** The canonical form of an existing path is a fixed point. */
  lemma CanonicalizeIdempotent(fs: Fs, p: Path)
    requires fs.Valid() && Canonicalize(fs, p).Some?
    ensures Canonicalize(fs, Canonicalize(fs, p).value) == Canonicalize(fs, p)
  {
    WalkEndsReal(fs, [], p, fs.linkLimit);
    LocateReal(fs, Locate(fs, p).value);
  }

  lemma LocateReal(fs: Fs, at: Location)
    requires fs.Valid() && Real(fs, at)
    ensures Locate(fs, Absolute(at)) == Some(at)
    ensures Canonicalize(fs, Absolute(at)) == Some(Absolute(at))
  {
    forall k | 0 <= k <= |at|
      ensures [] + at[..k] == at[..k]
    {
    }
    assert at[..|at|] == at && [] + at == at;
    WalkDown(fs, [], at, fs.linkLimit);
    assert Absolute(at)[1..] == Normals(at);
  }

  /** A walk over `p` followed by `q` goes on over `q` from where `p` leads. */
  lemma {:induction false} WalkSplit(fs: Fs, at: Location, p: Path, q: Path, links: nat) returns (left: nat)
    requires Walk(fs, at, p, links).Some?
    ensures left <= links && Walk(fs, at, p + q, links) == Walk(fs, Walk(fs, at, p, links).value, q, left)
    ensures q != [] ==> Landing(fs, at, p + q, links) == Landing(fs, Walk(fs, at, p, links).value, q, left)
    decreases links, |p|
  {
    if p == [] {
      assert p + q == q;
      left := links;
    } else {
      assert (p + q)[1..] == p[1..] + q;
      match p[0]
      case RootDir => left := WalkSplit(fs, [], p[1..], q, links);
      case CurDir => left := WalkSplit(fs, at, p[1..], q, links);
      case ParentDir => left := WalkSplit(fs, Parent(at), p[1..], q, links);
      case Normal(n) =>
        var next := at + [n];
        if !fs.IsLink(next) {
          left := WalkSplit(fs, next, p[1..], q, links);
        } else {
          Assoc(fs.nodes[next].target, p[1..], q);
          left := WalkSplit(fs, at, fs.nodes[next].target + p[1..], q, links - 1);
        }
    }
  }

  /** Down real directories no link is used up: what follows starts at the last of them. */
  lemma {:induction false} DownReal(fs: Fs, at: Location, names: seq<Name>, rest: Path, links: nat)
    requires forall k :: 0 <= k < |names| ==> fs.IsDir(at + names[..k])
    requires at + names in fs.nodes && !fs.IsLink(at + names)
    ensures Walk(fs, at, Normals(names) + rest, links) == Walk(fs, at + names, rest, links)
    ensures Landing(fs, at, Normals(names) + rest, links) == Landing(fs, at + names, rest, links)
    decreases |names|
  {
    hide Walk, Landing;
    if names == [] {
      assert at + names == at && Normals(names) + rest == rest;
    } else {
      var next, more := at + [names[0]], names[1..];
      assert next + more == at + names && at + names[..0] == at;
      forall k | 0 <= k < |more|
        ensures fs.IsDir(next + more[..k])
      {
        assert next + more[..k] == at + names[..k + 1];
      }
      if more == [] {
        assert next == at + names;
      } else {
        assert next + more[..0] == next;
      }
      DownReal(fs, next, more, rest, links);
      DownStep(fs, at, names[0], Normals(more) + rest, links);
      assert Normals(names) + rest == [Normal(names[0])] + (Normals(more) + rest);
    }
  }

  lemma DownStep(fs: Fs, at: Location, name: Name, rest: Path, links: nat)
    requires fs.IsDir(at) && at + [name] in fs.nodes && !fs.IsLink(at + [name])
    ensures Walk(fs, at, [Normal(name)] + rest, links) == Walk(fs, at + [name], rest, links)
    ensures Landing(fs, at, [Normal(name)] + rest, links) == Landing(fs, at + [name], rest, links)
  {
    assert ([Normal(name)] + rest)[1..] == rest;
  }

  lemma FromReal(fs: Fs, at: Location, rest: Path)
    requires Real(fs, at)
    ensures Walk(fs, [], Absolute(at) + rest, fs.linkLimit) == Walk(fs, at, rest, fs.linkLimit)
    ensures Landing(fs, [], Absolute(at) + rest, fs.linkLimit) == Landing(fs, at, rest, fs.linkLimit)
  {
    forall k | 0 <= k < |at|
      ensures fs.IsDir([] + at[..k])
    {
      assert [] + at[..k] == at[..k];
    }
    assert [] + at == at;
    assert at in fs.nodes && !fs.IsLink(at);
    hide Walk, Landing, Real;
    DownReal(fs, [], at, rest, fs.linkLimit);
    RootStep(fs, Normals(at) + rest, fs.linkLimit);
    hide Normals;
    assert Absolute(at) + rest == [RootDir] + (Normals(at) + rest);
  }

  lemma RootStep(fs: Fs, rest: Path, links: nat)
    ensures Walk(fs, [], [RootDir] + rest, links) == Walk(fs, [], rest, links)
    ensures Landing(fs, [], [RootDir] + rest, links) == Landing(fs, [], rest, links)
  {
    assert ([RootDir] + rest)[1..] == rest;
  }

  /** A name that is missing in a real place leads nowhere. */
  lemma FreeLeadsNowhere(fs: Fs, parent: Location, name: Name)
    requires fs.Valid() && Real(fs, parent) && parent + [name] !in fs.nodes
    ensures Locate(fs, Absolute(parent + [name])).None?
  {
    FromReal(fs, parent, [Normal(name)]);
    AbsoluteAppend(parent, name);
    hide Absolute;
  }

  // ------------------------------------------------- opening a place for writing

  /** Where opening or creating a file ends: as `Walk`, but the last name may be missing
      in a directory that is there. */
  function Landing(fs: Fs, at: Location, todo: Path, links: nat): Option<Location>
    decreases links, |todo|
  {
    if todo == [] then (if at in fs.nodes then Some(at) else None)
    else
      match todo[0]
      case RootDir => Landing(fs, [], todo[1..], links)
      case CurDir => if fs.IsDir(at) then Landing(fs, at, todo[1..], links) else None
      case ParentDir => if fs.IsDir(at) then Landing(fs, Parent(at), todo[1..], links) else None
      case Normal(n) =>
        var next := at + [n];
        if !fs.IsDir(at) then None
        else if next !in fs.nodes then (if todo[1..] == [] then Some(next) else None)
        else if !fs.IsLink(next) then Landing(fs, next, todo[1..], links)
        else if links == 0 then None
        else Landing(fs, at, fs.nodes[next].target + todo[1..], links - 1)
  }

  /** A directory cannot be opened for writing. */
  function Writable(fs: Fs, at: Option<Location>): Option<Location> {
    if at.Some? && fs.IsDir(at.value) then None else at
  }

  function OpenForWriting(fs: Fs, p: Path): Option<Location> {
    if IsAbsolute(p) then Writable(fs, Landing(fs, [], p, fs.linkLimit)) else None
  }

  /** Writing through a link ends where its target leads, seen from the link's directory. */
  function ThroughLink(fs: Fs, at: Location): Option<Location>
    requires fs.IsLink(at)
  {
    if fs.linkLimit == 0 then None else Writable(fs, Landing(fs, Parent(at), fs.nodes[at].target, fs.linkLimit - 1))
  }

  /** What can be found is opened, and nothing is opened or created at a link. */
  lemma {:induction false} LandingMeaning(fs: Fs, at: Location, todo: Path, links: nat)
    requires fs.Valid() && !fs.IsLink(at)
    ensures Walk(fs, at, todo, links).Some? ==> Landing(fs, at, todo, links) == Walk(fs, at, todo, links)
    ensures Landing(fs, at, todo, links).Some? ==> !fs.IsLink(Landing(fs, at, todo, links).value)
    decreases links, |todo|
  {
    if todo != [] {
      match todo[0]
      case RootDir => LandingMeaning(fs, [], todo[1..], links);
      case CurDir => LandingMeaning(fs, at, todo[1..], links);
      case ParentDir =>
        if fs.IsDir(at) {
          LandingMeaning(fs, Parent(at), todo[1..], links);
        }
      case Normal(n) =>
        var next := at + [n];
        if fs.IsDir(at) && next in fs.nodes {
          if !fs.IsLink(next) {
            LandingMeaning(fs, next, todo[1..], links);
          } else if links > 0 {
            LandingMeaning(fs, at, fs.nodes[next].target + todo[1..], links - 1);
          }
        }
    }
  }

  /** A link is left for what its target leads to. */
  lemma LandingOfLink(fs: Fs, parent: Location, name: Name)
    requires fs.Valid() && Real(fs, parent) && fs.IsLink(parent + [name])
    ensures OpenForWriting(fs, Absolute(parent + [name])) == ThroughLink(fs, parent + [name])
  {
    hide Absolute, Walk, Landing, Real, Fs.Valid;
    FromReal(fs, parent, [Normal(name)]);
    AbsoluteAppend(parent, name);
    ParentIsDir(fs, parent, name);
    assert Parent(parent + [name]) == parent;
    LandingAtLink(fs, parent, name, fs.linkLimit);
  }

  lemma ParentIsDir(fs: Fs, parent: Location, name: Name)
    requires fs.Valid() && parent + [name] in fs.nodes
    ensures fs.IsDir(parent)
  {
    assert (parent + [name])[..|parent + [name]| - 1] == parent;
  }

  lemma LandingAtLink(fs: Fs, at: Location, name: Name, links: nat)
    requires fs.IsDir(at) && fs.IsLink(at + [name])
    ensures Landing(fs, at, [Normal(name)], links) ==
            if links == 0 then None else Landing(fs, at, fs.nodes[at + [name]].target, links - 1)
  {
    var target := fs.nodes[at + [name]].target;
    assert [Normal(name)][1..] == [] && target + [] == target;
  }

  /** A missing name in a real place is where a file is created, if that is a directory. */
  lemma LandingOfNew(fs: Fs, parent: Location, name: Name)
    requires fs.Valid() && Real(fs, parent) && parent + [name] !in fs.nodes
    ensures Landing(fs, [], Absolute(parent + [name]), fs.linkLimit) ==
            if fs.IsDir(parent) then Some(parent + [name]) else None
  {
    FromReal(fs, parent, [Normal(name)]);
    AbsoluteAppend(parent, name);
    hide Absolute;
    assert [Normal(name)][1..] == [];
  }

  /** What opening for writing makes of a name in a real place. */
  lemma OpenMeaning(fs: Fs, at: Location)
    requires fs.Valid() && (Real(fs, at) || (at != [] && Real(fs, Parent(at))))
    ensures OpenForWriting(fs, Absolute(at)) ==
            if fs.IsLink(at) then ThroughLink(fs, at)
            else if fs.IsDir(at) || (at !in fs.nodes && !fs.IsDir(Parent(at))) then None
            else Some(at)
  {
    hide Walk, Locate, Landing, Absolute, ThroughLink, Normals, Fs.Valid;
    if at in fs.nodes && !fs.IsLink(at) {
      RealNode(fs, at);
      LocateReal(fs, at);
      FoundIsOpened(fs, Absolute(at));
    } else {
      assert at == Parent(at) + [at[|at| - 1]];
      if at in fs.nodes {
        LandingOfLink(fs, Parent(at), at[|at| - 1]);
      } else {
        LandingOfNew(fs, Parent(at), at[|at| - 1]);
      }
    }
  }

  lemma RealNode(fs: Fs, at: Location)
    requires fs.Valid() && at in fs.nodes && !fs.IsLink(at)
    ensures Real(fs, at)
  {
    NodesAreReachable(fs, at);
  }

  lemma FoundIsOpened(fs: Fs, p: Path)
    requires fs.Valid() && Locate(fs, p).Some?
    ensures OpenForWriting(fs, p) == Writable(fs, Locate(fs, p))
  {
    LandingMeaning(fs, [], p, fs.linkLimit);
  }

  lemma OpenIsNoLink(fs: Fs, p: Path)
    requires fs.Valid() && OpenForWriting(fs, p).Some?
    ensures !fs.IsLink(OpenForWriting(fs, p).value)
  {
    LandingMeaning(fs, [], p, fs.linkLimit);
  }

  /** A name that leads nowhere, although its parent is there, is taken exactly by a link. */
  lemma LastNameIsFreeOrLink(fs: Fs, up: Path, name: Name)
    requires fs.Valid() && Locate(fs, up).Some? && Locate(fs, up + [Normal(name)]).None?
    ensures var at := Locate(fs, up).value + [name];
            && (at in fs.nodes <==> IsSymlink(fs, up + [Normal(name)]))
            && (at in fs.nodes <==> fs.IsLink(at))
  {
    var p, parent := up + [Normal(name)], Locate(fs, up).value;
    var at := parent + [name];
    assert p[..|p| - 1] == up;
    var left := WalkSplit(fs, [], up, [Normal(name)], fs.linkLimit);
    assert [Normal(name)][1..] == [];
    if at in fs.nodes {
      assert at[..|at| - 1] == parent;
    }
  }

  // --------------------------------------- lexical normalization keeps meaning

  /** Without links the walk and the lexical normalization move in step. */
  lemma {:induction false} WalkNormalizes(fs: Fs, at: Location, todo: Path, links: nat)
    requires fs.Valid() && fs.LinkFree() && RootDir !in todo
    requires Walk(fs, at, todo, links).Some?
    ensures NormalizeFrom(Absolute(at), todo) == Absolute(Walk(fs, at, todo, links).value)
    decreases |todo|
  {
    hide Absolute, Step;
    if todo != [] {
      match todo[0]
      case CurDir =>
        assert Step(Absolute(at), CurDir) == Absolute(at) by {
          StepCurrent(Absolute(at));
        }
        WalkNormalizes(fs, at, todo[1..], links);
      case ParentDir =>
        StepUp(at);
        WalkNormalizes(fs, Parent(at), todo[1..], links);
      case Normal(n) =>
        StepDown(at, n);
        WalkNormalizes(fs, at + [n], todo[1..], links);
    }
  }

  lemma StepCurrent(p: Path)
    ensures Step(p, CurDir) == p
  {
  }

  /** On a tree without links, a path that walks to a node normalizes to the
      canonical path of that very node. */
  lemma NormalizePreservesMeaning(fs: Fs, p: Path)
    requires fs.Valid() && fs.LinkFree() && RootFirst(p)
    requires Locate(fs, p).Some?
    ensures Normalize(p) == Absolute(Locate(fs, p).value)
    ensures Locate(fs, Normalize(p)) == Locate(fs, p)
  {
    var at := Locate(fs, p).value;
    assert Absolute([]) == [RootDir];
    assert RootDir !in p[1..];
    WalkNormalizes(fs, [], p[1..], fs.linkLimit);
    WalkEndsReal(fs, [], p, fs.linkLimit);
    LocateReal(fs, at);
  }
}
