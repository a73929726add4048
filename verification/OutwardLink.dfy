/** An example: a directory with a link to a directory outside of it. */
module OutwardLink {
  import opened Prelude
  import opened Utf8
  import opened Paths
  import opened FileSystem

  /** A root r with a link l to the directory o outside of it, which has a file f. */
  function OutwardFs(r: Name, l: Name, o: Name, f: Name): Fs {
    Fs(map[[] := Directory, [r] := Directory, [r, l] := Link([RootDir, Normal(o)]),
           [o] := Directory, [o, f] := File], 1)
  }

  lemma OutwardNodes(r: Name, l: Name, o: Name, f: Name)
    requires r != o
    ensures var fs := OutwardFs(r, l, o, f);
            && fs.Valid() && Real(fs, [r]) && Real(fs, [o]) && Real(fs, [o, f])
            && fs.IsDir([r]) && fs.IsDir([o]) && fs.nodes[[o, f]] == File
            && [r, l] in fs.nodes && fs.nodes[[r, l]] == Link([RootDir, Normal(o)])
  {
    assert |[r, l]| == 2 && |[o, f]| == 2 && |[r]| == 1 && |[o]| == 1;
    assert [r][0] == r && [o][0] == o && [r, l][0] == r && [o, f][0] == o;
    assert [r, l][..1] == [r] && [r][..0] == [] && [o, f][..1] == [o] && [o][..0] == [];
  }

  lemma OutwardFree(r: Name, l: Name, o: Name, f: Name, x: Name)
    requires r != o && x != l
    ensures [r] + [x] !in OutwardFs(r, l, o, f).nodes
  {
    var at := [r] + [x];
    assert |at| == 2 && at[0] == r && at[1] == x;
    assert [r, l][1] == l && [o, f][0] == o;
  }

  /** Behind the link the walk goes on at o. */
  lemma OutwardWalk(r: Name, l: Name, o: Name, f: Name, rest: Path)
    requires r != o
    ensures var fs := OutwardFs(r, l, o, f);
            Walk(fs, [r], [Normal(l)] + rest, 1) == Walk(fs, [o], rest, 0)
  {
    var fs := OutwardFs(r, l, o, f);
    OutwardNodes(r, l, o, f);
    hide OutwardFs, Real;
    var p, target: Path := [Normal(l)] + rest, [RootDir, Normal(o)];
    var more := [Normal(o)] + rest;
    assert [r] + [l] == [r, l] && p[1..] == rest;
    assert (target + rest)[1..] == more && more[1..] == rest && [] + [o] == [o];
    assert Walk(fs, [], more, 0) == Walk(fs, [o], rest, 0);
    assert Walk(fs, [r], target + rest, 0) == Walk(fs, [], more, 0);
  }

  lemma OutwardPaths(r: Name, l: Name, f: Name)
    ensures Absolute([r, l]) == Absolute([r]) + ([Normal(l)] + [])
    ensures Absolute([r, l, f]) == Absolute([r]) + ([Normal(l)] + [Normal(f)])
  {
  }

  lemma OutwardLocates(r: Name, l: Name, o: Name, f: Name)
    requires r != o
    ensures var fs := OutwardFs(r, l, o, f);
            && Locate(fs, Absolute([r])) == Some([r]) && Locate(fs, Absolute([r, l])) == Some([o])
            && Locate(fs, Absolute([r, l, f])) == Some([o, f])
  {
    var fs := OutwardFs(r, l, o, f);
    assert fs.linkLimit == 1;
    OutwardNodes(r, l, o, f);
    OutwardPaths(r, l, f);
    OutwardWalk(r, l, o, f, []);
    OutwardWalk(r, l, o, f, [Normal(f)]);
    hide OutwardFs, Fs.Valid, Real, Absolute;
    LocateReal(fs, [r]);
    FromReal(fs, [r], [Normal(l)] + []);
    FromReal(fs, [r], [Normal(l)] + [Normal(f)]);
    assert [o] + [f] == [o, f] && [Normal(f)][1..] == [];
  }
}
