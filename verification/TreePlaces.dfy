/** Where the listing of `directory_tree` leads on a file system with links. The listing
    follows links, whatever the configuration says about following them. */
module TreePlaces {
  import opened Prelude
  import opened Utf8
  import opened Paths
  import opened FileSystem
  import opened OutwardLink
  import opened SandboxLaws
  import DirTree

  predicate AllNames(p: DirTree.Place) {
    forall i :: 0 <= i < |p| ==> IsName(p[i])
  }

  /** What a place below the listed root leads to, with links followed. */
  function PlaceAt(fs: Fs, root: Location, p: DirTree.Place): Option<Location> {
    if AllNames(p) then Locate(fs, Absolute(root + p)) else None
  }

  function KindAt(fs: Fs, at: Option<Location>): DirTree.Kind {
    if at.None? || at.value !in fs.nodes then DirTree.Unreadable
    else
      match fs.nodes[at.value]
      case Directory => DirTree.Directory
      case File => DirTree.File
      case _ => DirTree.Other
  }

  /** The directories as `directory_tree` sees them; `entries` is what reading one yields. */
  function GraphOf(fs: Fs, root: Location, entries: Location -> Option<seq<Name>>, excluded: DirTree.Place -> bool)
    : DirTree.Graph
  {
    DirTree.Graph(if root == [] then [] else root[|root| - 1],
                  p => KindAt(fs, PlaceAt(fs, root, p)),
                  p => if PlaceAt(fs, root, p).Some? then entries(PlaceAt(fs, root, p).value) else None,
                  excluded)
  }

  /** The listing takes a place for a directory or a file exactly when it leads to one, so
      neither special files nor broken links are shown. */
  lemma KindMeaning(fs: Fs, root: Location, entries: Location -> Option<seq<Name>>, excluded: DirTree.Place -> bool,
                    p: DirTree.Place)
    ensures var g, at := GraphOf(fs, root, entries, excluded), PlaceAt(fs, root, p);
            && (g.kind(p) == DirTree.Directory <==> at.Some? && at.value in fs.nodes && fs.nodes[at.value] == Directory)
            && (g.kind(p) == DirTree.File <==> at.Some? && at.value in fs.nodes && fs.nodes[at.value] == File)
            && g.list(p) == (if at.Some? then entries(at.value) else None)
            && (root != [] ==> g.NameOf([]) == root[|root| - 1])
            && (DirTree.Visible(g, [], 0, p) ==>
                  at.Some? && at.value in fs.nodes && (fs.nodes[at.value] == Directory || fs.nodes[at.value] == File))
  {
    hide PlaceAt, DirTree.StepVisible;
    assert [] + p == p;
  }

  /** Every visible place leads somewhere. */
  lemma VisibleIsThere(fs: Fs, root: Location, g: DirTree.Graph, p: DirTree.Place)
    requires forall q :: g.kind(q) == KindAt(fs, PlaceAt(fs, root, q))
    requires DirTree.Visible(g, [], 0, p)
    ensures PlaceAt(fs, root, p).Some?
  {
    hide PlaceAt, DirTree.StepVisible;
    assert [] + p == p;
  }

  /** A name that is no link leads to the place of that name. */
  lemma PlainStep(fs: Fs, root: Location, p: DirTree.Place)
    requires p != [] && PlaceAt(fs, root, p).Some? && PlaceAt(fs, root, p[..|p| - 1]).Some?
    ensures var up, last := PlaceAt(fs, root, p[..|p| - 1]).value, p[|p| - 1];
            fs.IsLink(up + [last]) || PlaceAt(fs, root, p).value == up + [last]
  {
    var up, last := p[..|p| - 1], p[|p| - 1];
    assert root + p == root + up + [last];
    AbsoluteAppend(root + up, last);
    hide Absolute;
    var left := WalkSplit(fs, [], Absolute(root + up), [Normal(last)], fs.linkLimit);
    assert [Normal(last)][1..] == [];
  }

  /** The last name of a place is a link that leads out of the listed root. */
  predicate LeadsOut(fs: Fs, root: Location, p: DirTree.Place) {
    && p != [] && PlaceAt(fs, root, p).Some? && PlaceAt(fs, root, p[..|p| - 1]).Some?
    && fs.IsLink(PlaceAt(fs, root, p[..|p| - 1]).value + [p[|p| - 1]])
    && !(root <= PlaceAt(fs, root, p).value)
  }

  predicate Below(fs: Fs, root: Location, p: DirTree.Place) {
    PlaceAt(fs, root, p).Some? && root <= PlaceAt(fs, root, p).value
  }

  lemma RootIsBelow(fs: Fs, root: Location)
    requires fs.Valid() && RealOrFree(fs, root) && PlaceAt(fs, root, []).Some?
    ensures Below(fs, root, [])
  {
    hide Locate, Absolute, Fs.Valid, Real;
    assert root + [] == root;
    if Real(fs, root) {
      LocateReal(fs, root);
    } else {
      assert root == Parent(root) + [root[|root| - 1]];
      FreeLeadsNowhere(fs, Parent(root), root[|root| - 1]);
    }
  }

  lemma {:induction false} NoWayOut(fs: Fs, root: Location, p: DirTree.Place)
    requires fs.Valid() && RealOrFree(fs, root)
    requires forall k :: 0 <= k <= |p| ==> PlaceAt(fs, root, p[..k]).Some? && !LeadsOut(fs, root, p[..k])
    ensures Below(fs, root, p)
    decreases |p|
  {
    assert p[..|p|] == p;
    hide PlaceAt, RealOrFree, Fs.Valid;
    if p == [] {
      RootIsBelow(fs, root);
    } else {
      var up := p[..|p| - 1];
      forall k | 0 <= k <= |up|
        ensures PlaceAt(fs, root, up[..k]).Some? && !LeadsOut(fs, root, up[..k])
      {
        assert up[..k] == p[..k];
      }
      NoWayOut(fs, root, up);
      assert PlaceAt(fs, root, p[..|p|]).Some? && !LeadsOut(fs, root, p[..|p|]);
      PlainStep(fs, root, p);
    }
  }

  /** No visible place is a link that leads out of the listed root. */
  ghost predicate NoLinkOut(fs: Fs, root: Location, g: DirTree.Graph) {
    forall p :: DirTree.Visible(g, [], 0, p) ==> !LeadsOut(fs, root, p)
  }

  ghost predicate AllBelow(fs: Fs, root: Location, t: Option<DirTree.Tree>) {
    t.Some? ==> forall p :: DirTree.HasPath(t.value, p) ==> Below(fs, root, p)
  }

  lemma VisibleStaysBelow(fs: Fs, root: Location, g: DirTree.Graph, p: DirTree.Place)
    requires fs.Valid() && RealOrFree(fs, root)
    requires forall q :: g.kind(q) == KindAt(fs, PlaceAt(fs, root, q))
    requires NoLinkOut(fs, root, g) && DirTree.Visible(g, [], 0, p)
    ensures Below(fs, root, p)
  {
    hide PlaceAt, RealOrFree, Fs.Valid, DirTree.Visible, LeadsOut, Below, KindAt;
    forall k | 0 <= k <= |p|
      ensures PlaceAt(fs, root, p[..k]).Some? && !LeadsOut(fs, root, p[..k])
    {
      DirTree.VisibleAbove(g, p, k);
      VisibleIsThere(fs, root, g, p[..k]);
    }
    NoWayOut(fs, root, p);
  }

  /** What a listing shows lies below the listed root exactly when it shows no link that
      leads out of it. */
  lemma ShownStaysBelow(fs: Fs, root: Location, g: DirTree.Graph, t: DirTree.Tree)
    requires fs.Valid() && RealOrFree(fs, root)
    requires forall q :: g.kind(q) == KindAt(fs, PlaceAt(fs, root, q))
    requires DirTree.Sound(g, [], 0, t)
    ensures AllBelow(fs, root, Some(t)) <==> forall p :: DirTree.HasPath(t, p) ==> !LeadsOut(fs, root, p)
  {
    hide PlaceAt, RealOrFree, Fs.Valid, DirTree.Sound, DirTree.HasPath, DirTree.Visible, KindAt;
    if forall p :: DirTree.HasPath(t, p) ==> !LeadsOut(fs, root, p) {
      forall p | DirTree.HasPath(t, p)
        ensures Below(fs, root, p)
      {
        forall k | 0 <= k <= |p|
          ensures PlaceAt(fs, root, p[..k]).Some? && !LeadsOut(fs, root, p[..k])
        {
          DirTree.PathAbove(t, p, k);
          DirTree.SoundIsVisible(g, [], 0, t, p[..k]);
          VisibleIsThere(fs, root, g, p[..k]);
        }
        NoWayOut(fs, root, p);
      }
    }
  }

  /** `directory_tree` on a file system. Without a visible link that leads out of the
      root, everything listed lies below the root, however much is listed. With one, and
      when the places to visit fit into the budget, something listed does not. */
  method ListingStaysBelow(fs: Fs, root: Location, entries: Location -> Option<seq<Name>>,
                           excluded: DirTree.Place -> bool)
      returns (t: Option<DirTree.Tree>)
    requires fs.Valid() && RealOrFree(fs, root)
    ensures var g := GraphOf(fs, root, entries, excluded);
            && (t.Some? ==> DirTree.Sound(g, [], 0, t.value))
            && (NoLinkOut(fs, root, g) ==> AllBelow(fs, root, t))
            && (DirTree.Visits(g, [], 0) <= DirTree.MAX_TREE_NODES ==>
                  (AllBelow(fs, root, t) <==> NoLinkOut(fs, root, g)))
  {
    var g := GraphOf(fs, root, entries, excluded);
    hide PlaceAt, RealOrFree, Fs.Valid, DirTree.Sound, DirTree.HasPath, DirTree.Visible, DirTree.Visits, KindAt;
    t := DirTree.ListTree(g);
    if t.Some? {
      forall p | NoLinkOut(fs, root, g) && DirTree.HasPath(t.value, p)
        ensures Below(fs, root, p)
      {
        VisibleStaysBelow(fs, root, g, p);
      }
    }
  }

  // ------------------------------------------------------- a link that leads out

  function OutwardEntries(r: Name, l: Name, o: Name, f: Name): Location -> Option<seq<Name>> {
    at => if at == [r] then Some([l]) else if at == [o] then Some([f]) else None
  }

  lemma OutwardPlaces(r: Name, l: Name, o: Name, f: Name)
    requires r != o
    ensures var fs := OutwardFs(r, l, o, f);
            && PlaceAt(fs, [r], []) == Some([r]) && PlaceAt(fs, [r], [l]) == Some([o])
            && PlaceAt(fs, [r], [l, f]) == Some([o, f]) && !Below(fs, [r], [l, f])
  {
    OutwardLocates(r, l, o, f);
    hide OutwardFs, Locate;
    assert [r] + [] == [r] && [r] + [l] == [r, l] && [r] + [l, f] == [r, l, f];
    assert [r][0] == r && [o, f][0] == o;
  }

  function OutwardGraph(r: Name, l: Name, o: Name, f: Name): DirTree.Graph {
    GraphOf(OutwardFs(r, l, o, f), [r], OutwardEntries(r, l, o, f), _ => false)
  }

  lemma OutwardListing(r: Name, l: Name, o: Name, f: Name)
    requires r != o
    ensures var g := OutwardGraph(r, l, o, f);
            && g.kind([]) == DirTree.Directory && g.list([]) == Some([l])
            && g.kind([l]) == DirTree.Directory && g.list([l]) == Some([f])
            && g.kind([l, f]) == DirTree.File
            && forall p :: !g.excluded(p)
  {
    OutwardNodes(r, l, o, f);
    OutwardPlaces(r, l, o, f);
    hide PlaceAt, OutwardFs, Real, Fs.Valid;
    assert [r][0] == r && [o][0] == o;
  }

  /** A file in a directory below the listed root. */
  lemma VisibleInTwoSteps(g: DirTree.Graph, l: Bytes, f: Bytes)
    requires g.kind([]) == g.kind([l]) == DirTree.Directory && g.kind([l, f]) == DirTree.File
    requires g.list([]) == Some([l]) && g.list([l]) == Some([f]) && !Hidden(l) && !Hidden(f)
    requires forall p :: !g.excluded(p)
    ensures DirTree.Visible(g, [], 0, [l, f])
  {
    hide Hidden;
    var p: DirTree.Place := [l, f];
    assert [] + p == p && [] + p[..0] == [] && [] + p[..1] == [l];
    assert DirTree.Shown(g, p, 2);
    assert DirTree.StepVisible(g, [], 0, l) && DirTree.StepVisible(g, [l], 1, f);
    hide DirTree.StepVisible, DirTree.Shown;
    forall i | 0 <= i < 2
      ensures DirTree.StepVisible(g, [] + p[..i], i, p[i])
    {
      assert i == 0 || i == 1;
    }
  }

  /** Listing the root r shows f, which lies below o and outside of r. */
  lemma OutwardLinkIsListed(r: Name, l: Name, o: Name, f: Name)
    requires r != o && !Hidden(l) && !Hidden(f)
    ensures var t := DirTree.FullTree(OutwardGraph(r, l, o, f), [], 0);
            t.Some? && DirTree.HasPath(t.value, [l, f])
    ensures PlaceAt(OutwardFs(r, l, o, f), [r], [l, f]) == Some([o, f]) && !Below(OutwardFs(r, l, o, f), [r], [l, f])
  {
    var g, p: DirTree.Place := OutwardGraph(r, l, o, f), [l, f];
    OutwardPlaces(r, l, o, f);
    OutwardListing(r, l, o, f);
    hide OutwardGraph, PlaceAt, OutwardFs;
    VisibleInTwoSteps(g, l, f);
    DirTree.FullTreeIsExact(g, [], 0, p);
    hide DirTree.FullTree, DirTree.HasPath, DirTree.Visible;
  }
}
