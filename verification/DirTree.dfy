/** `directory_tree`: the recursive listing with a depth limit and one node budget
    for the whole walk. The directories are any graph: paths may go round in circles
    through links, and any read may fail. */
module DirTree {
  import opened Prelude
  import opened Utf8
  import opened Paths

  const MAX_TREE_DEPTH := 64
  const MAX_TREE_NODES := 100000

  /** Names below the root of the listing. */
  type Place = seq<Bytes>

  datatype Kind = Directory | File | Other | Unreadable

  /** What the walk can ask about a place; `list` is None when reading it fails. */
  datatype Graph = Graph(rootName: Bytes, kind: Place -> Kind, list: Place -> Option<seq<Bytes>>,
                         excluded: Place -> bool)
  {
    function NameOf(at: Place): Bytes {
      if at == [] then rootName else at[|at| - 1]
    }
  }

  datatype Tree = Dir(name: Bytes, children: seq<Tree>, truncated: bool) | Leaf(name: Bytes)

  // --------------------------------------------------------- specification

  /** The listing without a node budget. */
  function FullTree(g: Graph, at: Place, depth: nat): Option<Tree>
    requires depth <= MAX_TREE_DEPTH
    decreases MAX_TREE_DEPTH - depth, 1, 0
  {
    if g.excluded(at) then None
    else
      match g.kind(at)
      case Directory =>
        if depth == MAX_TREE_DEPTH then Some(Dir(g.NameOf(at), [], true))
        else if g.list(at).None? then None
        else Some(Dir(g.NameOf(at), FullChildren(g, at, g.list(at).value, depth), false))
      case File => Some(Leaf(g.NameOf(at)))
      case _ => None
  }

  function FullChildren(g: Graph, at: Place, names: seq<Bytes>, depth: nat): seq<Tree>
    requires depth < MAX_TREE_DEPTH
    decreases MAX_TREE_DEPTH - depth, 0, |names|
  {
    if names == [] then []
    else FullChildren(g, at, names[..|names| - 1], depth) + FullChild(g, at, names[|names| - 1], depth)
  }

  function FullChild(g: Graph, at: Place, name: Bytes, depth: nat): seq<Tree>
    requires depth < MAX_TREE_DEPTH
    decreases MAX_TREE_DEPTH - depth, 0, 0
  {
    if Hidden(name) then []
    else
      var t := FullTree(g, at + [name], depth + 1);
      if t.Some? then [t.value] else []
  }

  /** How many places the full listing counts against the budget. */
  function Visits(g: Graph, at: Place, depth: nat): nat
    requires depth <= MAX_TREE_DEPTH
    decreases MAX_TREE_DEPTH - depth, 1, 0
  {
    if g.excluded(at) then 0
    else if g.kind(at) == Directory && depth < MAX_TREE_DEPTH && g.list(at).Some?
    then 1 + VisitsOf(g, at, g.list(at).value, depth)
    else 1
  }

  function VisitsOf(g: Graph, at: Place, names: seq<Bytes>, depth: nat): nat
    requires depth < MAX_TREE_DEPTH
    decreases MAX_TREE_DEPTH - depth, 0, |names|
  {
    if names == [] then 0
    else
      var last := names[|names| - 1];
      VisitsOf(g, at, names[..|names| - 1], depth) + if Hidden(last) then 0 else Visits(g, at + [last], depth + 1)
  }

  function Size(t: Tree): nat {
    match t
    case Leaf(_) => 1
    case Dir(_, children, _) => 1 + Sizes(children)
  }

  function Sizes(ts: seq<Tree>): nat {
    if ts == [] then 0 else Sizes(ts[..|ts| - 1]) + Size(ts[|ts| - 1])
  }

  function SizeOf(t: Option<Tree>): nat {
    if t.Some? then Size(t.value) else 0
  }

  /** Every node of the tree stands for a place that is there and not excluded, at depth
      64 or above; a directory above depth 64 could be read; and every node below the
      root has a listed, unhidden name. */
  ghost predicate Sound(g: Graph, at: Place, depth: nat, t: Tree)
    decreases t
  {
    && depth <= MAX_TREE_DEPTH && !g.excluded(at) && t.name == g.NameOf(at)
    && match t
       case Leaf(_) => g.kind(at) == File
       case Dir(_, children, truncated) =>
         && g.kind(at) == Directory
         && (truncated <==> depth == MAX_TREE_DEPTH)
         && (if truncated then children == [] else g.list(at).Some?)
         && forall c :: c in children ==> SoundChild(g, at, depth, c) && Sound(g, at + [c.name], depth + 1, c)
  }

  ghost predicate SoundChild(g: Graph, at: Place, depth: nat, c: Tree) {
    g.list(at).Some? && c.name in g.list(at).value && !Hidden(c.name)
  }

  // -------------------------------------------------------------- build_tree

  /** The walk goes on below this place. */
  predicate Open(g: Graph, at: Place, depth: nat) {
    !g.excluded(at) && g.kind(at) == Directory && depth < MAX_TREE_DEPTH && g.list(at).Some?
  }

  function Spent(nodes: nat): nat {
    Min(nodes, MAX_TREE_NODES)
  }

  /** The contract of one call: what is emitted is sound and paid for by the budget;
      within the budget it is the full listing, and the counter is exact. */
  ghost predicate Built(g: Graph, at: Place, depth: nat, nodes: nat, t: Option<Tree>, after: nat)
    requires depth <= MAX_TREE_DEPTH
  {
    && nodes <= after
    && (t.Some? ==> Sound(g, at, depth, t.value))
    && SizeOf(t) <= Spent(after) - Spent(nodes)
    && (nodes + Visits(g, at, depth) <= MAX_TREE_NODES ==>
          t == FullTree(g, at, depth) && after == nodes + Visits(g, at, depth))
    && (nodes + Visits(g, at, depth) > MAX_TREE_NODES ==> after > MAX_TREE_NODES)
  }

  ghost predicate BuiltChildren(g: Graph, at: Place, depth: nat, names: seq<Bytes>, nodes: nat,
                                ts: seq<Tree>, after: nat)
    requires depth < MAX_TREE_DEPTH
  {
    && nodes <= after
    && (forall c :: c in ts ==> c.name in names && !Hidden(c.name) && Sound(g, at + [c.name], depth + 1, c))
    && Sizes(ts) <= Spent(after) - Spent(nodes)
    && (nodes + VisitsOf(g, at, names, depth) <= MAX_TREE_NODES ==>
          ts == FullChildren(g, at, names, depth) && after == nodes + VisitsOf(g, at, names, depth))
    && (nodes + VisitsOf(g, at, names, depth) > MAX_TREE_NODES ==> after > MAX_TREE_NODES)
  }

  method BuildTree(g: Graph, current: Place, depth: nat, nodes: nat) returns (t: Option<Tree>, after: nat)
    requires depth <= MAX_TREE_DEPTH
    ensures nodes <= MAX_TREE_NODES ==> Built(g, current, depth, nodes, t, after)
    ensures nodes > MAX_TREE_NODES ==> t.None? && after >= nodes
    decreases MAX_TREE_DEPTH - depth
  {
    hide Built, BuiltChildren, Visits, Sound, FullChildren;
    after := nodes;
    t := None;
    if g.excluded(current) {
      Excluded(g, current, depth, nodes);
      return;
    }
    after := after + 1;
    if after > MAX_TREE_NODES {
      OutOfBudget(g, current, depth, nodes);
      return;
    }
    if !Open(g, current, depth) {
      NotOpened(g, current, depth, nodes);
    }
    match g.kind(current) {
      case Directory =>
        if depth >= MAX_TREE_DEPTH {
          t := Some(Dir(g.NameOf(current), [], true));
          return;
        }
        var list := g.list(current);
        if list.None? {
          return;
        }
        var children: seq<Tree> := [];
        ghost var start := after;
        NoChildren(g, current, depth, start);
        for k := 0 to |list.value|
          invariant BuiltChildren(g, current, depth, list.value[..k], start, children, after)
        {
          var name := list.value[k];
          assert list.value[..k + 1] == list.value[..k] + [name];
          if Hidden(name) {
            SkipChild(g, current, depth, list.value[..k], name, start, children, after);
          } else {
            ghost var before := after;
            var child: Option<Tree>;
            child, after := BuildTree(g, current + [name], depth + 1, after);
            AddChild(g, current, depth, list.value[..k], name, start, children, before, child, after);
            if child.Some? {
              children := children + [child.value];
            }
          }
        }
        assert list.value[..|list.value|] == list.value;
        t := Some(Dir(g.NameOf(current), children, false));
        WholeDirectory(g, current, depth, nodes, children, after);
      case File => t := Some(Leaf(g.NameOf(current)));
      case _ =>
    }
  }

  lemma Excluded(g: Graph, at: Place, depth: nat, nodes: nat)
    requires depth <= MAX_TREE_DEPTH && g.excluded(at)
    ensures Built(g, at, depth, nodes, None, nodes)
  {
  }

  lemma OutOfBudget(g: Graph, at: Place, depth: nat, nodes: nat)
    requires depth <= MAX_TREE_DEPTH && !g.excluded(at) && nodes >= MAX_TREE_NODES
    ensures Built(g, at, depth, nodes, None, nodes + 1)
  {
    assert Visits(g, at, depth) >= 1;
  }

  lemma NotOpened(g: Graph, at: Place, depth: nat, nodes: nat)
    requires depth <= MAX_TREE_DEPTH && !g.excluded(at) && nodes < MAX_TREE_NODES && !Open(g, at, depth)
    ensures Built(g, at, depth, nodes, FullTree(g, at, depth), nodes + 1)
  {
    assert Visits(g, at, depth) == 1;
    var t := FullTree(g, at, depth);
    hide FullChildren, Visits;
    if t.Some? {
      assert t.value == if g.kind(at) == File then Leaf(g.NameOf(at)) else Dir(g.NameOf(at), [], true);
      assert Size(t.value) == 1;
      assert Sound(g, at, depth, t.value);
    }
  }

  lemma NoChildren(g: Graph, at: Place, depth: nat, nodes: nat)
    requires depth < MAX_TREE_DEPTH
    ensures forall names: seq<Bytes> {:trigger names[..0]} :: BuiltChildren(g, at, depth, names[..0], nodes, [], nodes)
  {
  }

  lemma SkipChild(g: Graph, at: Place, depth: nat, names: seq<Bytes>, name: Bytes, nodes: nat,
                  ts: seq<Tree>, after: nat)
    requires depth < MAX_TREE_DEPTH && Hidden(name)
    requires BuiltChildren(g, at, depth, names, nodes, ts, after)
    ensures BuiltChildren(g, at, depth, names + [name], nodes, ts, after)
  {
    assert (names + [name])[..|names|] == names;
  }

  lemma AddChild(g: Graph, at: Place, depth: nat, names: seq<Bytes>, name: Bytes, nodes: nat,
                 ts: seq<Tree>, before: nat, child: Option<Tree>, after: nat)
    requires depth < MAX_TREE_DEPTH && !Hidden(name)
    requires BuiltChildren(g, at, depth, names, nodes, ts, before)
    requires before <= MAX_TREE_NODES ==> Built(g, at + [name], depth + 1, before, child, after)
    requires before > MAX_TREE_NODES ==> child.None? && after >= before
    ensures BuiltChildren(g, at, depth, names + [name], nodes, if child.Some? then ts + [child.value] else ts, after)
  {
    hide Sound, FullTree, Visits, Hidden, Size;
    var names' := names + [name];
    var ts' := if child.Some? then ts + [child.value] else ts;
    assert names'[..|names|] == names && ts + [] == ts;
    assert VisitsOf(g, at, names', depth) == VisitsOf(g, at, names, depth) + Visits(g, at + [name], depth + 1);
    assert FullChildren(g, at, names', depth) == FullChildren(g, at, names, depth) + FullChild(g, at, name, depth);
    if child.Some? {
      assert ts'[..|ts|] == ts;
      SoundName(g, at + [name], depth + 1, child.value);
    }
    forall c | c in ts'
      ensures c.name in names' && !Hidden(c.name) && Sound(g, at + [c.name], depth + 1, c)
    {
    }
  }

  lemma SoundName(g: Graph, at: Place, depth: nat, t: Tree)
    requires Sound(g, at, depth, t)
    ensures t.name == g.NameOf(at)
  {
  }

  lemma WholeDirectory(g: Graph, at: Place, depth: nat, nodes: nat, children: seq<Tree>, after: nat)
    requires depth < MAX_TREE_DEPTH && !g.excluded(at) && g.kind(at) == Directory && g.list(at).Some?
    requires nodes < MAX_TREE_NODES
    requires BuiltChildren(g, at, depth, g.list(at).value, nodes + 1, children, after)
    ensures Built(g, at, depth, nodes, Some(Dir(g.NameOf(at), children, false)), after)
  {
  }

  // ------------------------------------------------------ what is shown, exactly

  /** The tree has a node at the end of the names `p`. */
  ghost predicate HasPath(t: Tree, p: Place)
    decreases |p|
  {
    p == [] || (t.Dir? && exists c :: c in t.children && c.name == p[0] && HasPath(c, p[1..]))
  }

  /** The place itself is shown. */
  predicate Shown(g: Graph, at: Place, depth: nat) {
    && depth <= MAX_TREE_DEPTH && !g.excluded(at)
    && (g.kind(at) == File || (g.kind(at) == Directory && (depth == MAX_TREE_DEPTH || g.list(at).Some?)))
  }

  /** From `at` on, every name is listed and not hidden, every place on the way is open,
      and the last one is shown. */
  ghost predicate Visible(g: Graph, at: Place, depth: nat, p: Place) {
    && Shown(g, at + p, depth + |p|)
    && forall i :: 0 <= i < |p| ==> StepVisible(g, at + p[..i], depth + i, p[i])
  }

  predicate StepVisible(g: Graph, at: Place, depth: nat, name: Bytes) {
    Open(g, at, depth) && name in g.list(at).value && !Hidden(name)
  }

  lemma VisibleStep(g: Graph, at: Place, depth: nat, p: Place)
    requires p != []
    ensures Visible(g, at, depth, p) <==>
              StepVisible(g, at, depth, p[0]) && Visible(g, at + [p[0]], depth + 1, p[1..])
  {
    hide StepVisible, Shown;
    var next, more := at + [p[0]], p[1..];
    assert next + more == at + p;
    assert at + p[..0] == at;
    forall i | 0 <= i < |more|
      ensures next + more[..i] == at + p[..i + 1]
    {
      PlaceBelow(at, p, i + 1);
    }
    if Visible(g, at, depth, p) {
      assert StepVisible(g, at + p[..0], depth + 0, p[0]);
      forall i | 0 <= i < |more|
        ensures StepVisible(g, next + more[..i], depth + 1 + i, more[i])
      {
        assert StepVisible(g, at + p[..i + 1], depth + (i + 1), p[i + 1]);
      }
    }
    if StepVisible(g, at, depth, p[0]) && Visible(g, next, depth + 1, more) {
      forall i | 0 <= i < |p|
        ensures StepVisible(g, at + p[..i], depth + i, p[i])
      {
        assert i > 0 ==> StepVisible(g, next + more[..i - 1], depth + 1 + (i - 1), more[i - 1]);
      }
    }
  }

  lemma {:induction false} ChildOfFull(g: Graph, at: Place, names: seq<Bytes>, depth: nat, c: Tree)
    requires depth < MAX_TREE_DEPTH
    ensures c in FullChildren(g, at, names, depth) <==>
              c.name in names && !Hidden(c.name) && FullTree(g, at + [c.name], depth + 1) == Some(c)
    decreases |names|
  {
    hide FullTree;
    if names != [] {
      var last := names[|names| - 1];
      ChildOfFull(g, at, names[..|names| - 1], depth, c);
      FullName(g, at + [last], depth + 1);
      assert names == names[..|names| - 1] + [last];
      assert FullTree(g, at + [last], depth + 1) == Some(c) ==> c.name == last;
    }
  }

  /** The place can be read and is a directory or a file. */
  predicate Plain(g: Graph, at: Place) {
    g.kind(at) == File || (g.kind(at) == Directory && g.list(at).Some?)
  }

  /** Where nothing but files and readable directories lies, the budget is spent on the
      nodes of the full listing and on nothing else. */
  lemma {:induction false} VisitsAreNodes(g: Graph, at: Place, depth: nat)
    requires depth <= MAX_TREE_DEPTH && forall p :: Plain(g, p)
    ensures Visits(g, at, depth) == SizeOf(FullTree(g, at, depth))
    decreases MAX_TREE_DEPTH - depth, 1, 0
  {
    assert Plain(g, at);
    FullName(g, at, depth);
    hide FullTree, FullChildren;
    if Open(g, at, depth) {
      VisitsAreSizes(g, at, g.list(at).value, depth);
    } else if FullTree(g, at, depth).Some? {
      assert Size(FullTree(g, at, depth).value) == 1;
    }
  }

  lemma {:induction false} VisitsAreSizes(g: Graph, at: Place, names: seq<Bytes>, depth: nat)
    requires depth < MAX_TREE_DEPTH && forall p :: Plain(g, p)
    ensures VisitsOf(g, at, names, depth) == Sizes(FullChildren(g, at, names, depth))
    decreases MAX_TREE_DEPTH - depth, 0, |names|
  {
    if names != [] {
      var front, last := names[..|names| - 1], names[|names| - 1];
      VisitsAreSizes(g, at, front, depth);
      if !Hidden(last) {
        VisitsAreNodes(g, at + [last], depth + 1);
      }
      hide FullTree, Visits, Hidden, Plain;
      var children, more := FullChildren(g, at, front, depth), FullChild(g, at, last, depth);
      assert FullChildren(g, at, names, depth) == children + more;
      if more == [] {
        assert children + more == children;
      } else {
        assert (children + more)[..|children|] == children;
      }
    }
  }

  lemma FullName(g: Graph, at: Place, depth: nat)
    requires depth <= MAX_TREE_DEPTH
    ensures FullTree(g, at, depth).Some? ==> FullTree(g, at, depth).value.name == g.NameOf(at)
    ensures FullTree(g, at, depth).Some? <==> Shown(g, at, depth)
    ensures FullTree(g, at, depth).Some? ==>
              FullTree(g, at, depth).value ==
              if Open(g, at, depth) then Dir(g.NameOf(at), FullChildren(g, at, g.list(at).value, depth), false)
              else if g.kind(at) == File then Leaf(g.NameOf(at)) else Dir(g.NameOf(at), [], true)
  {
  }

  /** The full listing has a node for exactly the visible places. */
  lemma {:induction false} FullTreeIsExact(g: Graph, at: Place, depth: nat, p: Place)
    requires depth <= MAX_TREE_DEPTH
    ensures FullTree(g, at, depth).Some? && HasPath(FullTree(g, at, depth).value, p) <==> Visible(g, at, depth, p)
    decreases |p|
  {
    FullName(g, at, depth);
    hide FullTree, Shown;
    if p == [] {
      assert at + p == at;
    } else {
      VisibleStep(g, at, depth, p);
      hide Visible;
      if Open(g, at, depth) {
        var child := FullTree(g, at + [p[0]], depth + 1);
        FullTreeIsExact(g, at + [p[0]], depth + 1, p[1..]);
        FullName(g, at + [p[0]], depth + 1);
        ChildrenOnPath(g, at, depth, p);
        OpenIsShown(g, at, depth);
      }
    }
  }

  lemma OpenIsShown(g: Graph, at: Place, depth: nat)
    requires Open(g, at, depth)
    ensures Shown(g, at, depth)
  {
  }

  lemma ChildrenOnPath(g: Graph, at: Place, depth: nat, p: Place)
    requires Open(g, at, depth) && p != []
    ensures var child := FullTree(g, at + [p[0]], depth + 1);
            HasPath(Dir(g.NameOf(at), FullChildren(g, at, g.list(at).value, depth), false), p) <==>
              p[0] in g.list(at).value && !Hidden(p[0]) && child.Some? && HasPath(child.value, p[1..])
  {
    hide FullTree, FullChildren, Hidden;
    var names := g.list(at).value;
    var children := FullChildren(g, at, names, depth);
    var child := FullTree(g, at + [p[0]], depth + 1);
    FullName(g, at + [p[0]], depth + 1);
    hide Shown, Open;
    if p[0] in names && !Hidden(p[0]) && child.Some? && HasPath(child.value, p[1..]) {
      ChildOfFull(g, at, names, depth, child.value);
      assert child.value in children;
    }
    if exists c :: c in children && c.name == p[0] && HasPath(c, p[1..]) {
      var c :| c in children && c.name == p[0] && HasPath(c, p[1..]);
      ChildOfFull(g, at, names, depth, c);
    }
  }

  lemma {:induction false} PathAbove(t: Tree, p: Place, k: nat)
    requires HasPath(t, p) && k <= |p|
    ensures HasPath(t, p[..k])
    decreases |p|
  {
    if k > 0 {
      var c :| c in t.children && c.name == p[0] && HasPath(c, p[1..]);
      PathAbove(c, p[1..], k - 1);
      assert p[..k][1..] == p[1..][..k - 1] && p[..k][0] == p[0];
    }
  }

  /** A sound tree shows only visible places, however small it was cut. */
  lemma {:induction false} SoundIsVisible(g: Graph, at: Place, depth: nat, t: Tree, p: Place)
    requires Sound(g, at, depth, t) && HasPath(t, p)
    ensures Visible(g, at, depth, p)
    decreases |p|
  {
    if p == [] {
      assert at + p == at;
    } else {
      VisibleStep(g, at, depth, p);
      hide Visible;
      var c :| c in t.children && c.name == p[0] && HasPath(c, p[1..]);
      assert SoundChild(g, at, depth, c) && Sound(g, at + [p[0]], depth + 1, c);
      SoundIsVisible(g, at + [p[0]], depth + 1, c, p[1..]);
      hide Sound, HasPath, Hidden;
      assert StepVisible(g, at, depth, p[0]);
    }
  }

  /** Everything on the way to a visible place is visible. */
  lemma VisibleAbove(g: Graph, p: Place, k: nat)
    requires Visible(g, [], 0, p) && k <= |p|
    ensures Visible(g, [], 0, p[..k])
  {
    hide Shown, StepVisible;
    var q := p[..k];
    assert [] + q == q && [] + p == p && p[..|p|] == p;
    forall i | 0 <= i < k
      ensures StepVisible(g, [] + q[..i], 0 + i, q[i])
    {
      assert q[..i] == p[..i];
      assert StepVisible(g, [] + p[..i], 0 + i, p[i]);
    }
    if k < |p| {
      assert StepVisible(g, [] + p[..k], 0 + k, p[k]);
      StepShows(g, [] + p[..k], k, p[k]);
    }
  }

  lemma StepShows(g: Graph, at: Place, depth: nat, name: Bytes)
    requires StepVisible(g, at, depth, name)
    ensures Shown(g, at, depth)
  {
    hide Hidden;
    OpenIsShown(g, at, depth);
  }

  /** `directory_tree`: at most 100,000 nodes, only visible places, and exactly those
      whenever the places that the walk would visit fit into the budget. */
  method ListTree(g: Graph) returns (t: Option<Tree>)
    ensures SizeOf(t) <= MAX_TREE_NODES
    ensures t.Some? ==> Sound(g, [], 0, t.value)
    ensures forall p :: t.Some? && HasPath(t.value, p) ==> Visible(g, [], 0, p)
    ensures Visits(g, [], 0) <= MAX_TREE_NODES ==>
              forall p :: Visible(g, [], 0, p) <==> t.Some? && HasPath(t.value, p)
  {
    var after;
    t, after := BuildTree(g, [], 0, 0);
    if t.Some? {
      forall p | HasPath(t.value, p)
        ensures Visible(g, [], 0, p)
      {
        SoundIsVisible(g, [], 0, t.value, p);
      }
    }
    if Visits(g, [], 0) <= MAX_TREE_NODES {
      forall p
        ensures Visible(g, [], 0, p) <==> t.Some? && HasPath(t.value, p)
      {
        FullTreeIsExact(g, [], 0, p);
      }
    }
  }

  /** A sound tree ends at depth 64, and none of its nodes is excluded or has a hidden
      name above it. */
  lemma SoundPlaces(g: Graph, at: Place, depth: nat, t: Tree, p: Place)
    requires Sound(g, at, depth, t) && HasPath(t, p)
    ensures depth + |p| <= MAX_TREE_DEPTH
    ensures forall i :: 0 <= i <= |p| ==> !g.excluded(at + p[..i])
    ensures forall i :: 0 <= i < |p| ==> p[i] == [] || p[i][0] != 0x2E || p[i] == [0x2E]
  {
    SoundIsVisible(g, at, depth, t, p);
    hide Sound, HasPath;
    assert p[..|p|] == p;
    forall i | 0 <= i < |p|
      ensures !g.excluded(at + p[..i]) && (p[i] == [] || p[i][0] != 0x2E || p[i] == [0x2E])
    {
      assert StepVisible(g, at + p[..i], depth + i, p[i]);
    }
  }

  lemma PlaceBelow(at: Place, p: Place, i: nat)
    requires 0 < i <= |p|
    ensures at + [p[0]] + p[1..][..i - 1] == at + p[..i]
  {
    assert p[..i] == [p[0]] + p[1..][..i - 1];
  }
}
