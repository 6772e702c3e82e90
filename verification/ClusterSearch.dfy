/**
 The three quadtree searches that keep the neighbourhood statistics exact while
 shapes enter and leave the tree.
 */
module ClusterSearch {
  import opened ClusterGeometry
  import opened ClusterTree

  /** The region test of a run: what the program evaluates, and the relation it decides. */
  datatype Tester = Tester(region: Region, d: Distances, ghost rel: Relation)
  {
    /** Folded behind Use, so that the searches carry it along without unfolding it. */
    ghost predicate Sound() {
      forall k: int :: Use(k) ==> d.Positive() && rel == RelationOf(region, d)
    }
  }

  ghost predicate Use(k: int) { true }

  lemma SoundTest(t: Tester)
    requires t.Sound()
    ensures t.d.Positive() && t.rel == RelationOf(t.region, t.d) && IsRegionTest(t.d, t.rel)
  {
    assert Use(0);
    ComparatorIsRegionTest(t.region, t.d);
  }

  method Matches(t: Tester, a: ClusterInfo, b: ClusterInfo) returns (r: bool)
    requires t.Sound()
    ensures r <==> (a.site, b.site) in t.rel
    ensures r <==> (b.site, a.site) in t.rel
  {
    SoundTest(t);
    r := Compare(t.region, t.d, a.site, b.site);
  }

  /** The members of T that lie in the region of s, s itself included. */
  ghost function Near(rel: Relation, s: ClusterInfo, T: set<ClusterInfo>): set<ClusterInfo> {
    set t | t in T && (s.site, t.site) in rel
  }

  /** Every member of S has exactly the statistics of its neighbourhood in T. */
  ghost predicate InSync(rel: Relation, S: set<ClusterInfo>, T: set<ClusterInfo>)
    reads S
  {
    forall s :: s in S ==> s.stats.over == Near(rel, s, T)
  }

  /** What it means for a whole tree: every shape counts exactly the other shapes in its
      region, and its averages are their exact mean with itself. */
  lemma TreeIsExact(t: Tester, s: ClusterInfo, T: set<ClusterInfo>)
    requires t.Sound() && InSync(t.rel, T, T) && s in T
    ensures var N := Near(t.rel, s, T);
            && s in N && s.stats.numsiblings == |N - {s}|
            && s.stats.avgx == Mean(SumOf(N).x, |N|) && s.stats.avgy == Mean(SumOf(N).y, |N|)
  {
    SoundTest(t);
    StatsAreExact(s.stats);
  }

  /** The search area of s meets the cell, unless every shape below the cell is inside it. */
  ghost predicate Reachable(d: Distances, node: TreeNode, s: Site)
    reads node
  {
    Overlap(node.rect, SearchArea(d, s)) || Inside(node.Contents, node.rect)
  }

  /** Pruning is sound: a cell that misses the search area holds no neighbour. */
  lemma PrunedCellHasNoNeighbour(t: Tester, node: TreeNode, s: ClusterInfo)
    requires t.Sound()
    requires Reachable(t.d, node, s.site)
    requires !Overlap(node.rect, SearchArea(t.d, s.site))
    ensures Near(t.rel, s, node.Contents) == {}
    ensures forall u :: u in node.Contents ==> (s.site, u.site) !in t.rel && (u.site, s.site) !in t.rel
  {
    SoundTest(t);
    forall u | u in node.Contents
      ensures (s.site, u.site) !in t.rel && (u.site, s.site) !in t.rel
    {
      assert PointIn(u.site.x, u.site.y, node.rect);
    }
  }

  lemma NearGrows(rel: Relation, s: ClusterInfo, T: set<ClusterInfo>, c: ClusterInfo)
    ensures Near(rel, s, T + {c}) == if (s.site, c.site) in rel then Near(rel, s, T) + {c} else Near(rel, s, T)
  {
  }

  lemma SelfNear(t: Tester, s: ClusterInfo, T: set<ClusterInfo>)
    requires t.Sound() && s in T
    ensures s in Near(t.rel, s, T)
  {
    SoundTest(t);
  }

  lemma NearUnion(rel: Relation, s: ClusterInfo, A: set<ClusterInfo>, B: set<ClusterInfo>)
    ensures Near(rel, s, A + B) == Near(rel, s, A) + Near(rel, s, B)
  {
  }

  lemma NearShrinks(rel: Relation, s: ClusterInfo, T: set<ClusterInfo>, c: ClusterInfo)
    ensures Near(rel, s, T - {c}) == if (s.site, c.site) in rel then Near(rel, s, T) - {c} else Near(rel, s, T)
  {
  }

  // ----- a shape enters -----

  /** Introduces two shapes to each other. */
  method Meet(t: Tester, current: ClusterInfo, s: ClusterInfo, ghost T: set<ClusterInfo>)
    requires t.Sound()
    requires current !in T && s in T && s !in current.stats.over && current in current.stats.over
    requires s.stats.over == Near(t.rel, s, T)
    modifies s`stats, current`stats
    ensures s.stats.over == Near(t.rel, s, T + {current})
    ensures current.stats.over == old(current.stats.over) + Near(t.rel, current, {s})
  {
    SelfNear(t, s, T);
    NearGrows(t.rel, s, T, current);
    NearGrows(t.rel, current, {}, s);
    var hit := Matches(t, current, s);
    if hit {
      current.stats := Absorb(current.stats, s);
      var back := Matches(t, s, current);
      if back {
        s.stats := Absorb(s.stats, current);
      }
    }
  }

  method MeetAll(t: Tester, shapes: seq<ClusterInfo>, current: ClusterInfo,
                 ghost S: set<ClusterInfo>, ghost T: set<ClusterInfo>)
    requires t.Sound()
    requires forall i, j :: 0 <= i < j < |shapes| ==> shapes[i] != shapes[j]
    requires S == (set s | s in shapes) && S <= T && current !in T
    requires InSync(t.rel, S, T) && current in current.stats.over && current.stats.over !! S
    modifies S`stats, current`stats
    ensures InSync(t.rel, S, T + {current})
    ensures current.stats.over == old(current.stats.over) + Near(t.rel, current, S)
  {
    ghost var done: set<ClusterInfo> := {};
    for k := 0 to |shapes|
      invariant done == set s | s in shapes[..k]
      invariant InSync(t.rel, done, T + {current})
      invariant InSync(t.rel, S - done, T)
      invariant current.stats.over == old(current.stats.over) + Near(t.rel, current, done)
    {
      var s := shapes[k];
      assert s !in done && s in S;
      Meet(t, current, s, T);
      assert Near(t.rel, current, done) + Near(t.rel, current, {s}) == Near(t.rel, current, done + {s});
      done := done + {s};
    }
    assert done == S;
  }

  /** Enters a new shape into the statistics of its neighbours below the cell, and
      theirs into its own: afterwards both agree with a scan of the whole subtree. */
  method FindRelatedShapes(t: Tester, node: TreeNode, current: ClusterInfo, ghost T: set<ClusterInfo>)
    requires t.Sound()
    requires node.Valid() && node.Full() && Reachable(t.d, node, current.site)
    requires node.Contents <= T && current !in T
    requires InSync(t.rel, node.Contents, T)
    requires current in current.stats.over && current.stats.over !! node.Contents
    modifies node.Contents`stats, current`stats
    ensures InSync(t.rel, node.Contents, T + {current})
    ensures current.stats.over == old(current.stats.over) + Near(t.rel, current, node.Contents)
    decreases node.Repr, 1
  {
    if !Overlap(node.rect, SearchArea(t.d, current.site)) {
      PrunedIsInStep(t, node, current, T);
      return;
    }
    FindRelatedInCell(t, node, current, T);
  }

  /** In a pruned cell there is nothing to do. */
  lemma PrunedIsInStep(t: Tester, node: TreeNode, current: ClusterInfo, T: set<ClusterInfo>)
    requires t.Sound() && Reachable(t.d, node, current.site) && !Overlap(node.rect, SearchArea(t.d, current.site))
    requires InSync(t.rel, node.Contents, T)
    ensures InSync(t.rel, node.Contents, T + {current}) && Near(t.rel, current, node.Contents) == {}
  {
    PrunedCellHasNoNeighbour(t, node, current);
    forall s | s in node.Contents ensures Near(t.rel, s, T + {current}) == Near(t.rel, s, T) {
      NearGrows(t.rel, s, T, current);
    }
  }

  /** The shapes of a cell and those below it. */
  method FindRelatedInCell(t: Tester, node: TreeNode, current: ClusterInfo, ghost T: set<ClusterInfo>)
    requires t.Sound() && node.Valid() && node.Full() && node.Contents <= T && current !in T
    requires InSync(t.rel, node.Contents, T)
    requires current in current.stats.over && current.stats.over !! node.Contents
    modifies node.Contents`stats, current`stats
    ensures InSync(t.rel, node.Contents, T + {current})
    ensures current.stats.over == old(current.stats.over) + Near(t.rel, current, node.Contents)
    decreases node.Repr, 0
  {
    Look(node);
    LookFull(node);
    NearUnion(t.rel, current, node.Own(), Upto(node.subnode, 4));
    MeetAll(t, node.shapes, current, node.Own(), T);
    if node.subnode[0] == null { return; }
    ghost var kids := Upto(node.subnode, 4);
    FindRelatedBelow(t, node.subnode, current, T, kids, node.Repr - {node});
  }

  method FindRelatedBelow(t: Tester, kids: seq<TreeNode?>, current: ClusterInfo, ghost T: set<ClusterInfo>,
                          ghost S: set<ClusterInfo>, ghost R: set<TreeNode>)
    requires t.Sound()
    requires Forest(kids, R, S)
    requires forall i :: 0 <= i < 4 && kids[i] != null ==> kids[i].Full()
    requires S <= T && current !in T
    requires InSync(t.rel, S, T)
    requires current in current.stats.over && current.stats.over !! S
    modifies S`stats, current`stats
    ensures InSync(t.rel, S, T + {current})
    ensures current.stats.over == old(current.stats.over) + Near(t.rel, current, S)
    decreases R, 3
  {
    ghost var parts := KidParts(kids, R, S);
    ghost var done: set<ClusterInfo> := {};
    for i := 0 to 4
      invariant done == Prefix(parts, i)
      invariant InSync(t.rel, done, T + {current}) && InSync(t.rel, S - done, T)
      invariant current.stats.over == old(current.stats.over) + Near(t.rel, current, done)
    {
      PrefixStep(parts, i);
      FindRelatedChild(t, kids[i], current, T, S, done, parts[i], old(current.stats.over));
      done := done + parts[i];
    }
  }

  /** One more child: the shapes of the children so far are in step with the new shape. */
  method FindRelatedChild(t: Tester, kid: TreeNode?, current: ClusterInfo, ghost T: set<ClusterInfo>, ghost S: set<ClusterInfo>,
                          ghost done: set<ClusterInfo>, ghost C: set<ClusterInfo>, ghost start: set<ClusterInfo>)
    requires t.Sound() && C == Below(kid)
    requires kid != null ==> kid.Valid() && kid.Full() && Inside(C, kid.rect)
    requires done <= S <= T && current !in T && C <= S && C !! done
    requires InSync(t.rel, done, T + {current}) && InSync(t.rel, S - done, T)
    requires current in start && start !! S && current.stats.over == start + Near(t.rel, current, done)
    modifies C`stats, current`stats
    ensures InSync(t.rel, done + C, T + {current}) && InSync(t.rel, S - (done + C), T)
    ensures current.stats.over == start + Near(t.rel, current, done + C)
    decreases if kid == null then {} else kid.Repr, 2
  {
    NearUnion(t.rel, current, done, C);
    if kid != null {
      FindRelatedShapes(t, kid, current, T);
    }
  }

  // ----- a shape leaves -----

  /** A shape with another member in its neighbourhood counts at least one sibling. */
  lemma TwoMembers(r: Stats, a: ClusterInfo, b: ClusterInfo)
    requires a in r.over && b in r.over && a != b
    ensures r.numsiblings > 0
  {
    StatsAreExact(r);
    assert {a, b} <= r.over;
    var rest := r.over - {a, b};
    assert r.over == rest + {a, b};
  }

  /** Removes a departed shape from the statistics of one neighbour. */
  method Part(t: Tester, current: ClusterInfo, s: ClusterInfo, ghost T: set<ClusterInfo>)
    requires t.Sound()
    requires current in T && s in T && s != current
    requires s.stats.over == Near(t.rel, s, T)
    modifies s`stats
    ensures s.stats.over == Near(t.rel, s, T - {current})
  {
    NearShrinks(t.rel, s, T, current);
    var hit := Matches(t, current, s);
    if hit {
      SelfNear(t, s, T);
      TwoMembers(s.stats, s, current);
      if s.stats.numsiblings > 0 {
        s.stats := Release(s.stats, current);
      }
    }
  }

  method PartAll(t: Tester, shapes: seq<ClusterInfo>, current: ClusterInfo,
                 ghost S: set<ClusterInfo>, ghost T: set<ClusterInfo>)
    requires t.Sound()
    requires forall i, j :: 0 <= i < j < |shapes| ==> shapes[i] != shapes[j]
    requires S == (set s | s in shapes) && S <= T && current in T && current !in S
    requires InSync(t.rel, S, T)
    modifies S`stats
    ensures InSync(t.rel, S, T - {current})
  {
    ghost var done: set<ClusterInfo> := {};
    for k := 0 to |shapes|
      invariant done == set s | s in shapes[..k]
      invariant InSync(t.rel, done, T - {current})
      invariant InSync(t.rel, S - done, T)
    {
      var s := shapes[k];
      assert s !in done && s in S;
      Part(t, current, s, T);
      done := done + {s};
    }
    assert done == S;
  }

  /** Removes a departed shape from the statistics of every shape below the cell. */
  method FindRelatedShapesRemove(t: Tester, node: TreeNode, current: ClusterInfo, ghost T: set<ClusterInfo>)
    requires t.Sound()
    requires node.Valid() && Reachable(t.d, node, current.site)
    requires node.Contents <= T && current in T && current !in node.Contents
    requires InSync(t.rel, node.Contents, T)
    modifies node.Contents`stats
    ensures InSync(t.rel, node.Contents, T - {current})
    decreases node.Repr, 1
  {
    if !Overlap(node.rect, SearchArea(t.d, current.site)) {
      PrunedCellHasNoNeighbour(t, node, current);
      forall s | s in node.Contents ensures Near(t.rel, s, T - {current}) == Near(t.rel, s, T) {
        NearShrinks(t.rel, s, T, current);
      }
      return;
    }
    Look(node);
    PartAll(t, node.shapes, current, node.Own(), T);
    FindRelatedRemoveBelow(t, node.subnode, current, T, Upto(node.subnode, 4), node.Repr - {node});
  }

  method FindRelatedRemoveBelow(t: Tester, kids: seq<TreeNode?>, current: ClusterInfo, ghost T: set<ClusterInfo>,
                                ghost S: set<ClusterInfo>, ghost R: set<TreeNode>)
    requires t.Sound()
    requires Forest(kids, R, S)
    requires S <= T && current in T && current !in S
    requires InSync(t.rel, S, T)
    modifies S`stats
    ensures InSync(t.rel, S, T - {current})
    decreases R, 2
  {
    ghost var parts := KidParts(kids, R, S);
    ghost var done: set<ClusterInfo> := {};
    for i := 0 to 4
      invariant done == Prefix(parts, i)
      invariant InSync(t.rel, done, T - {current}) && InSync(t.rel, S - done, T)
    {
      PrefixStep(parts, i);
      if kids[i] != null {
        FindRelatedShapesRemove(t, kids[i], current, T);
        done := done + parts[i];
      }
    }
  }

  // ----- a shape looks for a cluster to join -----

  /** The first phase of the simple algorithm: finds some shape below the cell whose
      region holds the new one, and misses none. The search does not stop at a hit
      found in one child, so a later child may replace the shape found. */
  method FindRelatedShapes2(t: Tester, node: TreeNode, current: ClusterInfo, found0: ClusterInfo?)
    returns (found: ClusterInfo?)
    requires t.Sound()
    requires node.Valid() && node.Full() && Reachable(t.d, node, current.site)
    ensures found == found0 || (found in node.Contents && (found.site, current.site) in t.rel)
    ensures found == null ==> forall s :: s in node.Contents ==> (s.site, current.site) !in t.rel
    ensures found0 != null ==> found != null
    decreases node.Repr, 1
  {
    found := found0;
    if !Overlap(node.rect, SearchArea(t.d, current.site)) {
      PrunedCellHasNoNeighbour(t, node, current);
      return;
    }
    Look(node);
    LookFull(node);
    found := FindOwn(t, node.shapes, current, found0, node.Own());
    if found != found0 || node.subnode[0] == null { return; }
    found := FindBelow(t, node.subnode, current, found, Upto(node.subnode, 4), node.Repr - {node});
  }

  /** The first shape of a cell whose region holds the newcomer. */
  method FindOwn(t: Tester, shapes: seq<ClusterInfo>, current: ClusterInfo, found0: ClusterInfo?, ghost S: set<ClusterInfo>)
    returns (found: ClusterInfo?)
    requires t.Sound() && S == set s | s in shapes
    ensures found == found0 || (found in S && (found.site, current.site) in t.rel)
    ensures found == found0 ==> found0 in S || forall s :: s in S ==> (s.site, current.site) !in t.rel
    ensures found0 != null ==> found != null
  {
    for k := 0 to |shapes|
      invariant forall j :: 0 <= j < k ==> (shapes[j].site, current.site) !in t.rel
    {
      var hit := Matches(t, shapes[k], current);
      if hit { return shapes[k]; }
    }
    return found0;
  }

  method FindBelow(t: Tester, kids: seq<TreeNode?>, current: ClusterInfo, found0: ClusterInfo?,
                   ghost S: set<ClusterInfo>, ghost R: set<TreeNode>) returns (found: ClusterInfo?)
    requires t.Sound() && Forest(kids, R, S) && forall i :: 0 <= i < 4 && kids[i] != null ==> kids[i].Full()
    ensures found == found0 || (found in S && (found.site, current.site) in t.rel)
    ensures found == null ==> forall s :: s in S ==> (s.site, current.site) !in t.rel
    ensures found0 != null ==> found != null
    decreases R, 2
  {
    found := found0;
    for i := 0 to 4
      invariant found == found0 || (found in S && (found.site, current.site) in t.rel)
      invariant found == null ==> forall j, s :: 0 <= j < i && kids[j] != null && s in kids[j].Contents ==>
                                    (s.site, current.site) !in t.rel
      invariant found0 != null ==> found != null
    {
      if kids[i] != null {
        found := FindRelatedShapes2(t, kids[i], current, found);
      }
    }
  }
}
