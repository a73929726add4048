/** The prefix trie over path components, with the set of inserted paths that it
    indexes kept beside it as ghost state. */
module PrefixTrie {
  import opened Prelude
  import opened Utf8
  import opened Paths

  type Label = Bytes

  /** The child name under which a component is stored. */
  function LabelOf(c: Component): Label
    requires c.Normal? || c.RootDir?
  {
    if c == RootDir then [SLASH] else c.name
  }

  /** The components that the trie stores and follows. */
  predicate Storable(c: Component) {
    c.Normal? || c.RootDir?
  }

  lemma LabelsDiffer(c: Component, d: Component)
    requires Storable(c) && Storable(d)
    ensures LabelOf(c) == LabelOf(d) <==> c == d
  {
    assert [SLASH][0] == SLASH;
  }

  // --------------------------------------------------------- specification

  /** A path without its dot components: what `insert` stores. */
  function Key(p: Path): (k: Path)
    ensures forall i :: 0 <= i < |k| ==> Storable(k[i])
  {
    if p == [] then []
    else if Storable(p[|p| - 1]) then Key(p[..|p| - 1]) + [p[|p| - 1]]
    else Key(p[..|p| - 1])
  }

  /** What a lookup can follow: the part before the first "..", without ".". */
  function Followed(p: Path): Path {
    Key(p[..BeforeParent(p)])
  }

  /** How many components come before the first "..". */
  function BeforeParent(p: Path): (n: nat)
    ensures n <= |p| && ParentDir !in p[..n] && (n < |p| ==> p[n] == ParentDir)
  {
    if p == [] || p[0] == ParentDir then 0 else
      var n := BeforeParent(p[1..]);
      assert p[..n + 1] == [p[0]] + p[1..][..n];
      n + 1
  }

  /** The longest member of `prefixes` that is a prefix of `p`. */
  function Longest(prefixes: set<Path>, p: Path): Option<Path>
    decreases |p|
  {
    if p in prefixes then Some(p)
    else if p == [] then None
    else Longest(prefixes, p[..|p| - 1])
  }

  /** `Longest` is what its name says: an inserted prefix of the path that
      holds every other one, and None exactly when there is none. */
  lemma {:induction false} LongestMeaning(prefixes: set<Path>, p: Path)
    ensures Longest(prefixes, p).None? <==> forall q :: q in prefixes ==> !(q <= p)
    ensures Longest(prefixes, p).Some? ==>
              var r := Longest(prefixes, p).value;
              r in prefixes && r <= p && forall q :: q in prefixes && q <= p ==> q <= r
    decreases |p|
  {
    if p !in prefixes && p != [] {
      var shorter := p[..|p| - 1];
      LongestMeaning(prefixes, shorter);
      forall q | q in prefixes
        ensures q <= p <==> q <= shorter
      {
        PrefixOfShorter(q, p);
      }
    } else if p !in prefixes {
      forall q | q in prefixes
        ensures !(q <= p)
      {
        assert q <= p ==> q == p;
      }
    }
  }

  lemma PrefixOfShorter(q: Path, p: Path)
    requires p != [] && q != p
    ensures q <= p <==> q <= p[..|p| - 1]
  {
    var shorter := p[..|p| - 1];
    if |q| < |p| {
      assert shorter[..|q|] == p[..|q|];
    } else if |q| == |p| {
      assert p[..|q|] == p;
    }
  }

  /** One more step along the path. */
  lemma LongestStep(prefixes: set<Path>, p: Path, c: Component)
    ensures Longest(prefixes, p + [c]) ==
            if p + [c] in prefixes then Some(p + [c]) else Longest(prefixes, p)
  {
    assert (p + [c])[..|p|] == p;
  }

  /** Nothing longer is found once no member extends the path. */
  lemma {:induction false} LongestBeyond(prefixes: set<Path>, p: Path, more: Path)
    requires forall q :: q in prefixes && p <= q ==> q == p
    ensures Longest(prefixes, p + more) == Longest(prefixes, p)
    decreases |more|
  {
    if more == [] {
      assert p + more == p;
    } else {
      var less := more[..|more| - 1];
      assert p + more == (p + less) + [more[|more| - 1]];
      LongestStep(prefixes, p + less, more[|more| - 1]);
      LongestBeyond(prefixes, p, less);
    }
  }

  /** Some member of `prefixes` is `p` or goes on from it. */
  ghost predicate Extended(prefixes: set<Path>, p: Path) {
    exists q :: q in prefixes && p <= q
  }

  lemma ExtendedMore(prefixes: set<Path>, key: Path, p: Path)
    requires p <= key || Extended(prefixes, p)
    ensures Extended(prefixes + {key}, p)
  {
    if p <= key {
      assert key in prefixes + {key};
    } else {
      var q :| q in prefixes && p <= q;
      assert q in prefixes + {key};
    }
  }

  /** What was added lies on the way to `key`. */
  ghost predicate NewBelow(keys: set<Path>, before: set<Path>, key: Path) {
    forall q :: q in keys && q !in before ==> q <= key
  }

  lemma NothingNew(keys: set<Path>, key: Path)
    ensures NewBelow(keys, keys, key)
  {
  }

  lemma NewBelowStep(keys: set<Path>, before: set<Path>, key: Path, c: Component)
    requires NewBelow(keys, before, key)
    ensures NewBelow(keys + {key + [c]}, before, key + [c])
  {
  }

  lemma StillExtended(keys: set<Path>, before: set<Path>, prefixes: set<Path>, key: Path)
    requires NewBelow(keys, before, key)
    requires forall k :: k in before && k != [] ==> Extended(prefixes, k)
    ensures forall k :: k in keys && k != [] ==> k <= key || Extended(prefixes, k)
  {
    hide Extended;
  }

  lemma KeyStep(p: Path, k: nat)
    requires k < |p|
    ensures Key(p[..k + 1]) == if Storable(p[k]) then Key(p[..k]) + [p[k]] else Key(p[..k])
  {
    assert p[..k + 1][..k] == p[..k];
  }

  lemma {:induction false} KeyOfNormal(p: Path)
    requires IsNormal(p)
    ensures Key(p) == p && Followed(p) == p
    decreases |p|
  {
    if p != [] {
      KeyOfNormal(p[..|p| - 1]);
      assert p == p[..|p| - 1] + [p[|p| - 1]];
    }
    assert p[..|p|] == p;
    assert BeforeParent(p) == |p|;
  }

  /** Without ".." a lookup follows the whole path, as an insert stores it. */
  lemma FollowedIsKey(p: Path)
    requires ParentDir !in p
    ensures Followed(p) == Key(p)
  {
    hide Key;
    assert BeforeParent(p) == |p|;
    assert p[..|p|] == p;
  }

  /** A key keeps the root and the names in their order and drops "." and "..". */
  lemma {:induction false} KeyMeaning(p: Path, c: Component, q: Path)
    ensures Key([]) == []
    ensures Key(p + [c] + q) == Key(p) + (if c == CurDir || c == ParentDir then [] else [c]) + Key(q)
    decreases |q|
  {
    if q == [] {
      assert p + [c] + q == p + [c] && (p + [c])[..|p|] == p;
      var one := if c == CurDir || c == ParentDir then [] else [c];
      assert Key(p) + one + [] == Key(p) + one;
    } else {
      var front, last := q[..|q| - 1], q[|q| - 1];
      KeyMeaning(p, c, front);
      var s := p + [c] + q;
      assert s[..|s| - 1] == p + [c] + front;
    }
  }

  lemma {:induction false} StopsAt(p: Path, k: nat)
    requires k < |p| && p[k] == ParentDir && ParentDir !in p[..k]
    ensures BeforeParent(p) == k
  {
    if k > 0 {
      assert p[0] == p[..k][0];
      assert p[1..][..k - 1] == p[..k][1..];
      StopsAt(p[1..], k - 1);
    }
  }

  /** A lookup sees nothing of a path from its first ".." on. */
  lemma FollowedStops(p: Path, q: Path)
    requires ParentDir !in p
    ensures Followed(p + [ParentDir] + q) == Key(p)
  {
    hide Key;
    var s := p + [ParentDir] + q;
    assert s[|p|] == ParentDir && s[..|p|] == p;
    StopsAt(s, |p|);
  }

  // ------------------------------------------------------------------ nodes

  class Node {
    var children: seq<(Label, Node)>
    var isEnd: bool

    constructor ()
      ensures children == [] && !isEnd
    {
      children, isEnd := [], false;
    }

    method GetChild(name: Label) returns (child: Node?)
      ensures child == First(children, name)
    {
      var i := 0;
      while i < |children|
        invariant i <= |children|
        invariant First(children, name) == First(children[i..], name)
      {
        if children[i].0 == name {
          return children[i].1;
        }
        assert children[i..][1..] == children[i + 1..];
        i := i + 1;
      }
      child := null;
    }

    method GetOrInsertChild(name: Label) returns (child: Node)
      modifies this`children
      ensures old(First(children, name)) != null ==>
                child == old(First(children, name)) && children == old(children)
      ensures old(First(children, name)) == null ==>
                fresh(child) && child.children == [] && !child.isEnd
                && children == old(children) + [(name, child)]
    {
      var found := GetChild(name);
      if found != null {
        child := found;
      } else {
        child := new Node();
        children := children + [(name, child)];
      }
    }
  }

  /** The first child with the given name. */
  function First(children: seq<(Label, Node)>, name: Label): Node? {
    if children == [] then null
    else if children[0].0 == name then children[0].1
    else First(children[1..], name)
  }

  lemma {:induction false} FirstAppend(children: seq<(Label, Node)>, name: Label, child: Node, l: Label)
    ensures First(children + [(name, child)], l) ==
            if First(children, l) != null then First(children, l) else if l == name then child else null
  {
    var more := children + [(name, child)];
    if children == [] {
      assert more[1..] == [];
    } else {
      assert more[1..] == children[1..] + [(name, child)];
      FirstAppend(children[1..], name, child, l);
    }
  }

  // ------------------------------------------------------------------- trie

  /** The children of every node, by the path of the node. */
  type Kids = map<Path, seq<(Label, Node)>>

  /** The child lists spell out the next level of `nodes`, and no node stands
      without the one above it. */
  ghost predicate Shape(nodes: map<Path, Node>, kids: Kids) {
    && kids.Keys == nodes.Keys && [] in nodes
    && (forall k :: k in nodes && k != [] ==> k[..|k| - 1] in nodes)
    && (forall k, c :: k in nodes && Storable(c) ==> Spelled(nodes, kids, k, c))
  }

  ghost predicate Spelled(nodes: map<Path, Node>, kids: Kids, k: Path, c: Component)
    requires k in kids && Storable(c)
  {
    First(kids[k], LabelOf(c)) == if k + [c] in nodes then nodes[k + [c]] else null
  }

  lemma ChildSpelled(nodes: map<Path, Node>, kids: Kids, key: Path, c: Component)
    requires Shape(nodes, kids) && key in nodes && key in kids && Storable(c)
    ensures First(kids[key], LabelOf(c)) == if key + [c] in nodes then nodes[key + [c]] else null
  {
    assert Spelled(nodes, kids, key, c);
  }

  /** Adding a missing child keeps the shape. */
  lemma ShapeExtended(nodes: map<Path, Node>, kids: Kids, key: Path, c: Component, child: Node)
    requires Shape(nodes, kids) && key in nodes && Storable(c) && key + [c] !in nodes
    ensures Shape(nodes[key + [c] := child], kids[key := kids[key] + [(LabelOf(c), child)]][key + [c] := []])
  {
    var at := key + [c];
    var nodes', kids' := nodes[at := child], kids[key := kids[key] + [(LabelOf(c), child)]][at := []];
    assert at[..|at| - 1] == key;
    forall k, d | k in nodes' && Storable(d)
      ensures Spelled(nodes', kids', k, d)
    {
      if k == at {
        assert (k + [d])[..|k| + 1 - 1] == k;
        assert k + [d] !in nodes;
      } else {
        assert Spelled(nodes, kids, k, d);
        LabelsDiffer(c, d);
        FirstAppend(kids[key], LabelOf(c), child, LabelOf(d));
        SameStep(k, d, key, c);
      }
    }
  }

  lemma SameStep(k: Path, d: Component, key: Path, c: Component)
    ensures k + [d] == key + [c] <==> k == key && d == c
  {
    assert (k + [d])[|k|] == d && (k + [d])[..|k|] == k;
    assert (key + [c])[|key|] == c && (key + [c])[..|key|] == key;
  }

  /** With a node come all the nodes above it. */
  lemma {:induction false} NodesAbove(nodes: map<Path, Node>, kids: Kids, p: Path, q: Path)
    requires Shape(nodes, kids) && q in nodes && p <= q
    ensures p in nodes
    decreases |q|
  {
    if p != q {
      PrefixOfShorter(p, q);
      NodesAbove(nodes, kids, p, q[..|q| - 1]);
    }
  }

  class PathTrie {
    var root: Node
    ghost var nodes: map<Path, Node>
    ghost var kids: Kids
    ghost var prefixes: set<Path>
    ghost var repr: set<Node>

    /** The objects agree with the ghost view, and no two paths share a node. */
    ghost predicate Linked()
      reads this, repr
    {
      && [] in nodes && nodes[[]] == root
      && kids.Keys == nodes.Keys && prefixes <= nodes.Keys
      && (forall k :: k in nodes ==> nodes[k] in repr)
      && (forall k :: k in nodes ==> nodes[k].children == kids[k] && nodes[k].isEnd == (k in prefixes))
      && (forall k, l :: k in nodes && l in nodes && nodes[k] == nodes[l] ==> k == l)
    }

    /** Every node lies on the way to an inserted path, which is a member of `prefixes`. */
    ghost predicate Valid()
      reads this, repr
    {
      && Linked()
      && Shape(nodes, kids)
      && forall k :: k in nodes && k != [] ==> Extended(prefixes, k)
    }

    constructor ()
      ensures Valid() && prefixes == {}
      ensures fresh(repr)
    {
      root := new Node();
      new;
      nodes := map[[] := root];
      kids := map[[] := []];
      prefixes := {};
      repr := {root};
      forall k, c | k in nodes && Storable(c)
        ensures Spelled(nodes, kids, k, c)
      {
        assert |k + [c]| == 1;
      }
    }

    /** Enters the new node `child` at the path `at` below `key` in the ghost view. */
    ghost method Record(key: Path, at: Path, name: Label, child: Node)
      requires key in nodes && at !in nodes && child !in repr && child.children == [] && !child.isEnd
      requires [] in nodes && nodes[[]] == root && kids.Keys == nodes.Keys && prefixes <= nodes.Keys
      requires forall k :: k in nodes ==> nodes[k] in repr && nodes[k].isEnd == (k in prefixes)
      requires forall k :: k in nodes ==>
                 nodes[k].children == if k == key then kids[k] + [(name, child)] else kids[k]
      requires forall k, l :: k in nodes && l in nodes && nodes[k] == nodes[l] ==> k == l
      modifies this`nodes, this`kids, this`repr
      ensures Linked()
      ensures nodes == old(nodes)[at := child] && repr == old(repr) + {child}
      ensures kids == old(kids)[key := old(kids)[key] + [(name, child)]][at := []]
    {
      kids := kids[key := kids[key] + [(name, child)]][at := []];
      nodes := nodes[at := child];
      repr := repr + {child};
    }

    /** The cursor step of `insert`: the child for `c`, made when missing. */
    method Descend(ghost key: Path, current: Node, c: Component) returns (child: Node)
      requires Linked() && Shape(nodes, kids) && key in nodes && nodes[key] == current && Storable(c)
      modifies this`nodes, this`kids, this`repr, current`children
      ensures Linked() && Shape(nodes, kids)
      ensures nodes.Keys == old(nodes.Keys) + {key + [c]} && nodes[key + [c]] == child
      ensures forall k :: k in old(nodes) ==> nodes[k] == old(nodes[k])
      ensures old(repr) <= repr && fresh(repr - old(repr))
    {
      hide First, LabelOf, Shape;
      ghost var at := key + [c];
      ChildSpelled(nodes, kids, key, c);
      child := current.GetOrInsertChild(LabelOf(c));
      if at !in nodes {
        ShapeExtended(nodes, kids, key, c, child);
        Record(key, at, LabelOf(c), child);
      }
    }

    /** Stores a path without its dot components; every other path keeps its state. */
    method Insert(path: Path)
      requires Valid()
      modifies this`nodes, this`kids, this`repr, this`prefixes, repr
      ensures Valid() && prefixes == old(prefixes) + {Key(path)}
      ensures old(repr) <= repr && fresh(repr - old(repr))
    {
      hide Shape, Key, Extended, First, Storable, NewBelow;
      var current := root;
      NothingNew(nodes.Keys, []);
      assert path[..0] == [] && Key([]) == [] by {
        KeyOfEmpty();
      }
      for k := 0 to |path|
        invariant Linked() && Shape(nodes, kids)
        invariant Key(path[..k]) in nodes && nodes[Key(path[..k])] == current
        invariant prefixes == old(prefixes)
        invariant NewBelow(nodes.Keys, old(nodes.Keys), Key(path[..k]))
        invariant old(repr) <= repr && fresh(repr - old(repr))
      {
        KeyStep(path, k);
        if Storable(path[k]) {
          NewBelowStep(nodes.Keys, old(nodes.Keys), Key(path[..k]), path[k]);
          current := Descend(Key(path[..k]), current, path[k]);
        }
      }
      assert path[..|path|] == path;
      StillExtended(nodes.Keys, old(nodes.Keys), prefixes, Key(path));
      MarkEnd(Key(path), current);
    }

    method MarkEnd(ghost key: Path, current: Node)
      requires Linked() && Shape(nodes, kids) && key in nodes && nodes[key] == current
      requires forall k :: k in nodes && k != [] ==> k <= key || Extended(prefixes, k)
      modifies this`prefixes, current`isEnd
      ensures Valid() && prefixes == old(prefixes) + {key}
    {
      hide Shape, Extended;
      current.isEnd := true;
      prefixes := prefixes + {key};
      forall k | k in nodes && k != []
        ensures Extended(prefixes, k)
      {
        ExtendedMore(old(prefixes), key, k);
      }
    }

    /** `extend`: inserts a list of paths. */
    method Extend(paths: seq<Path>)
      requires Valid()
      modifies this`nodes, this`kids, this`repr, this`prefixes, repr
      ensures Valid() && prefixes == old(prefixes) + Keys(paths)
      ensures old(repr) <= repr && fresh(repr - old(repr))
    {
      hide Valid;
      for k := 0 to |paths|
        invariant Valid() && prefixes == old(prefixes) + Keys(paths[..k])
        invariant old(repr) <= repr && fresh(repr - old(repr))
      {
        KeysStep(paths, k);
        Insert(paths[k]);
      }
      assert paths[..|paths|] == paths;
    }

    /** The longest inserted prefix of the part of the path before the first "..". */
    method LongestPrefix(path: Path) returns (lastMatch: Option<Path>)
      requires Valid() && RootFirst(path)
      ensures lastMatch == Longest(prefixes, Followed(path))
    {
      hide Shape, Key, Longest, First, Extended, BeforeParent, LabelOf, IsName;
      var current := root;
      var result: Path := [];
      lastMatch := if current.isEnd then Some(result) else None;
      LookupStart(prefixes, path);
      var k := 0;
      while k < |path|
        invariant k <= BeforeParent(path)
        invariant result == Key(path[..k]) && result in nodes && nodes[result] == current
        invariant lastMatch == Longest(prefixes, result)
      {
        if path[k] == ParentDir {
          break;
        }
        KeyStep(path, k);
        if Storable(path[k]) {
          ChildSpelled(nodes, kids, result, path[k]);
          var child := current.GetChild(LabelOf(path[k]));
          if child == null {
            DeadEnd(nodes, kids, prefixes, path, k);
            return;
          }
          LongestStep(prefixes, result, path[k]);
          if path[k] == RootDir {
            RootComesFirst(path, k);
          }
          result := Push(result, path[k]);
          current := child;
          if child.isEnd {
            lastMatch := Some(result);
          }
        }
        k := k + 1;
      }
      assert k == BeforeParent(path);
    }

    /** Whether the lookup passes an inserted path; a ".." that is reached undoes it. */
    method Contains(path: Path) returns (matched: bool)
      requires Valid()
      ensures matched <==> Longest(prefixes, Followed(path)).Some?
                           && (ParentDir in path ==> !Extended(prefixes, Followed(path)))
    {
      hide Shape, Key, Longest, First, Extended, BeforeParent, LabelOf, IsName;
      var current := root;
      matched := current.isEnd;
      LookupStart(prefixes, path);
      var k := 0;
      while k < |path|
        invariant k <= BeforeParent(path)
        invariant Key(path[..k]) in nodes && nodes[Key(path[..k])] == current
        invariant matched <==> Longest(prefixes, Key(path[..k])).Some?
      {
        if path[k] == ParentDir {
          Reached(nodes, prefixes, Followed(path));
          return false;
        }
        KeyStep(path, k);
        if Storable(path[k]) {
          ChildSpelled(nodes, kids, Key(path[..k]), path[k]);
          var child := current.GetChild(LabelOf(path[k]));
          if child == null {
            DeadEnd(nodes, kids, prefixes, path, k);
            return;
          }
          LongestStep(prefixes, Key(path[..k]), path[k]);
          current := child;
          if child.isEnd {
            matched := true;
          }
        }
        k := k + 1;
      }
      assert path[..|path|] == path;
    }
  }

  lemma KeyOfEmpty()
    ensures Key([]) == []
  {
  }

  function Keys(paths: seq<Path>): set<Path> {
    set p | p in paths :: Key(p)
  }

  lemma KeysStep(paths: seq<Path>, k: nat)
    requires k < |paths|
    ensures Keys(paths[..k + 1]) == Keys(paths[..k]) + {Key(paths[k])}
  {
    hide Key;
    assert paths[..k + 1] == paths[..k] + [paths[k]];
  }

  lemma LookupStart(prefixes: set<Path>, path: Path)
    ensures path[..0] == [] && Key(path[..0]) == []
    ensures Longest(prefixes, []) == if [] in prefixes then Some([]) else None
  {
  }

  lemma RootComesFirst(path: Path, k: nat)
    requires RootFirst(path) && k < |path| && path[k] == RootDir
    ensures Key(path[..k]) == []
  {
  }

  /** Where a child is missing, no inserted path goes on, so the rest of the lookup is vain. */
  lemma DeadEnd(nodes: map<Path, Node>, kids: Kids, prefixes: set<Path>, path: Path, k: nat)
    requires Shape(nodes, kids) && prefixes <= nodes.Keys
    requires k < BeforeParent(path) && Storable(path[k]) && Key(path[..k + 1]) !in nodes
    ensures Longest(prefixes, Followed(path)) == Longest(prefixes, Key(path[..k]))
    ensures !Extended(prefixes, Followed(path))
  {
    hide Shape, Longest;
    var here := Key(path[..k + 1]);
    KeyStep(path, k);
    var more := KeyRest(path, k + 1, BeforeParent(path));
    forall q | q in prefixes
      ensures !(here <= q)
    {
      if here <= q {
        NodesAbove(nodes, kids, here, q);
      }
    }
    LongestBeyond(prefixes, here, more);
    LongestStep(prefixes, Key(path[..k]), path[k]);
    assert here <= here;
    forall q | q in prefixes
      ensures !(here + more <= q)
    {
      assert here + more <= q ==> here <= q;
    }
  }

  lemma {:induction false} KeyRest(path: Path, i: nat, j: nat) returns (more: Path)
    requires i <= j <= |path|
    ensures Key(path[..j]) == Key(path[..i]) + more
    decreases j - i
  {
    hide Key, Storable;
    if i == j {
      more := [];
    } else {
      more := KeyRest(path, i, j - 1);
      KeyStep(path, j - 1);
      if Storable(path[j - 1]) {
        Assoc(Key(path[..i]), more, [path[j - 1]]);
        more := more + [path[j - 1]];
      }
    }
  }

  /** A ".." is reached only at a node, and a node is on the way to an inserted path. */
  lemma Reached(nodes: map<Path, Node>, prefixes: set<Path>, p: Path)
    requires p in nodes && forall k :: k in nodes && k != [] ==> Extended(prefixes, k)
    ensures Longest(prefixes, p).Some? ==> Extended(prefixes, p)
  {
    if p == [] && Longest(prefixes, p).Some? {
      assert [] in prefixes && [] <= p;
    }
  }
}
