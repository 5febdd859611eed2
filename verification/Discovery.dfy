/**
 Parents and mounts of the repositories found below a root (internal/discovery/discovery.go:87-140, 197-203, 262-265),
 and the way back from them to the paths that were found.
*/
module Discovery {
  import opened Forest
  import opened Ordering
  import opened Mounts
  import opened Placement
  import opened ProjectPaths
  import RepositoryOrder

  // ----- the order of the paths

  /** A path as text: every component after a slash. */
  function Text(p: Path): string {
    if p == [] then "" else "/" + p[0] + Text(p[1..])
  }

  predicate Clean(p: Path) {
    forall c | c in p :: '/' !in c
  }

  lemma TextStarts(a: string, b: string, r: string, s: string)
    requires '/' !in a && '/' !in b && a + r == b + s
    requires (r == "" || r[0] == '/') && (s == "" || s[0] == '/')
    ensures a == b && r == s
  {
    assert forall k | 0 <= k < |b| :: (a + r)[k] == b[k] && b[k] in b;
    assert forall k | 0 <= k < |a| :: (b + s)[k] == a[k] && a[k] in a;
    assert (a + r)[..|a|] == a && (a + r)[|a|..] == r;
    assert (b + s)[..|b|] == b && (b + s)[|b|..] == s;
  }

  lemma {:induction false} TextIsInjective(p: Path, q: Path)
    requires Clean(p) && Clean(q) && Text(p) == Text(q)
    ensures p == q
  {
    if p != [] && q != [] {
      assert (p[0] + Text(p[1..])) == Text(p)[1..] && (q[0] + Text(q[1..])) == Text(q)[1..];
      TextStarts(p[0], q[0], Text(p[1..]), Text(q[1..]));
      TextIsInjective(p[1..], q[1..]);
      assert p == [p[0]] + p[1..] && q == [q[0]] + q[1..];
    }
  }

  /** Shorter paths first, then the order of the text. */
  predicate PathPrecedes(p: Path, q: Path) {
    if |p| != |q| then |p| < |q| else LexLess(Text(p), Text(q))
  }

  function PathLess(): (Path, Path) -> bool {
    (p, q) => PathPrecedes(p, q)
  }

  lemma PathsAreOrdered(paths: set<Path>)
    requires forall p | p in paths :: Clean(p)
    ensures Orders(PathLess(), paths)
  {
    forall p, q | p in paths && q in paths && p != q
      ensures PathPrecedes(p, q) <==> !PathPrecedes(q, p)
    {
      LexTrichotomy(Text(p), Text(q));
      if Text(p) == Text(q) {
        TextIsInjective(p, q);
      }
    }
    forall p, q, r | PathPrecedes(p, q) && PathPrecedes(q, r)
      ensures PathPrecedes(p, r)
    {
      if |p| == |q| == |r| {
        LexTransitive(Text(p), Text(q), Text(r));
      }
    }
  }

  // ----- what discovery finds

  /** The closest of the paths that properly encloses the given one. */
  ghost predicate Nearest(paths: set<Path>, q: Path, p: Path) {
    q in paths && q < p && forall r | r in paths && r < p :: |r| <= |q|
  }

  ghost predicate Enclosed(paths: set<Path>, p: Path) {
    exists q :: q in paths && q < p
  }

  /** The paths lie below the root, and have distinct non-empty IDs. */
  ghost predicate Named(root: Path, paths: set<Path>, ids: map<Path, Id>) {
    && (forall p | p in paths :: root <= p && Clean(p) && p in ids && ids[p] != "")
    && (forall p, q | p in paths && q in paths && p != q :: ids[p] != ids[q])
  }

  /** The parent is the nearest enclosing repository, or none; the mount is the rest of the path. */
  ghost predicate WellParented(root: Path, paths: set<Path>, ids: map<Path, Id>, p: Path, r: Repository)
    requires Named(root, paths, ids) && p in paths
  {
    && (forall q | Nearest(paths, q, p) :: r == Repository(ids[q], p[|q|..]))
    && (!Enclosed(paths, p) ==> r == Repository("", p[|root|..]))
  }

  ghost predicate IsDiscovered(root: Path, paths: set<Path>, ids: map<Path, Id>, f: Forest) {
    && Named(root, paths, ids)
    && (forall id :: id in f <==> exists p :: p in paths && ids[p] == id)
    && (forall p {:trigger WellParented(root, paths, ids, p, f[ids[p]])} | p in paths ::
          WellParented(root, paths, ids, p, f[ids[p]]))
  }

  /** An enclosed path has a nearest enclosing one. */
  lemma {:induction false} NearestExists(paths: set<Path>, p: Path, k: nat)
    requires k < |p| && forall q | q in paths && q < p :: |q| <= k
    ensures Enclosed(paths, p) <==> exists q :: Nearest(paths, q, p)
    decreases k
  {
    if p[..k] in paths {
      assert Nearest(paths, p[..k], p);
    } else if k > 0 {
      forall q | q in paths && q < p
        ensures |q| <= k - 1
      {
        assert q == p[..|q|];
      }
      NearestExists(paths, p, k - 1);
    } else {
      assert forall q | q in paths && q < p :: q == p[..0];
    }
  }

  lemma NearestOrNone(paths: set<Path>, p: Path)
    ensures Enclosed(paths, p) <==> exists q :: Nearest(paths, q, p)
  {
    if p != [] {
      NearestExists(paths, p, |p| - 1);
    }
  }

  /** What encloses a path is its nearest enclosing path, or encloses that one. */
  lemma EnclosingChain(paths: set<Path>, q: Path, p: Path, n: Path)
    requires Nearest(paths, n, p) && q in paths
    ensures q < p <==> q == n || q < n
  {
    if q < p {
      assert q == p[..|q|] && n == p[..|n|];
      assert q == n[..|q|];
    }
  }

  // ----- the assignment of parents

  /** One discovered repository. */
  datatype Found = Found(id: Id, path: Path, parent: Id, mount: Path)

  /** The last repository found so far that contains the path; the scan goes backwards. */
  method LastContaining(repositories: seq<Found>, path: Path) returns (i: int)
    ensures -1 <= i < |repositories|
    ensures i >= 0 ==> repositories[i].path <= path
    ensures forall k | i < k < |repositories| :: !(repositories[k].path <= path)
  {
    i := |repositories| - 1;
    while i >= 0 && !(repositories[i].path <= path)
      invariant -1 <= i < |repositories|
      invariant forall k | i < k < |repositories| :: !(repositories[k].path <= path)
    {
      i := i - 1;
    }
  }

  /** The repositories found so far are the first paths of the order, each with its parent and mount. */
  ghost predicate FoundSoFar(root: Path, paths: set<Path>, ids: map<Path, Id>, sorted: seq<Path>,
                             repositories: seq<Found>) {
    && |repositories| <= |sorted|
    && forall k | 0 <= k < |repositories| :: FoundAt(root, paths, ids, sorted[k], repositories[k])
  }

  ghost predicate FoundAt(root: Path, paths: set<Path>, ids: map<Path, Id>, p: Path, r: Found) {
    && Named(root, paths, ids) && p in paths
    && r.path == p && r.id == ids[p]
    && WellParented(root, paths, ids, p, Repository(r.parent, r.mount))
  }

  lemma DepthsAscend(sorted: seq<Path>)
    requires Ascending(sorted, PathLess())
    ensures forall i, j | 0 <= i <= j < |sorted| :: |sorted[i]| <= |sorted[j]|
  {
    forall i, j | 0 <= i < j < |sorted|
      ensures |sorted[i]| <= |sorted[j]|
    {
      assert PathLess()(sorted[i], sorted[j]);
    }
  }

  /** Everything that encloses a path comes before it, and the last of those is the nearest. */
  lemma LastIsNearest(paths: set<Path>, sorted: seq<Path>, k: nat, i: int)
    requires Enumerates(sorted, paths) && Ascending(sorted, PathLess()) && k < |sorted| && -1 <= i < k
    requires i >= 0 ==> sorted[i] <= sorted[k]
    requires forall j | i < j < k :: !(sorted[j] <= sorted[k])
    ensures i >= 0 ==> Nearest(paths, sorted[i], sorted[k])
    ensures i < 0 ==> !Enclosed(paths, sorted[k])
  {
    var p := sorted[k];
    DepthsAscend(sorted);
    forall q | q in paths && q < p
      ensures i >= 0 && |q| <= |sorted[i]|
    {
      var j :| 0 <= j < |sorted| && sorted[j] == q;
      assert j <= i;
    }
    if i >= 0 {
      assert sorted[i] in paths && sorted[i] != sorted[k];
    }
  }

  /** Assigns every path its parent and mount, in the order of the paths. */
  method AssignParents(root: Path, ghost paths: set<Path>, ids: map<Path, Id>, sorted: seq<Path>)
      returns (repositories: seq<Found>)
    requires Named(root, paths, ids) && Enumerates(sorted, paths) && Ascending(sorted, PathLess())
    ensures |repositories| == |sorted| && FoundSoFar(root, paths, ids, sorted, repositories)
  {
    repositories := [];
    assert FoundSoFar(root, paths, ids, sorted, repositories);
    hide Named, Enumerates, Ascending, FoundSoFar, FoundAt;
    for k := 0 to |sorted|
      invariant |repositories| == k && FoundSoFar(root, paths, ids, sorted, repositories)
    {
      var path := sorted[k];
      var i := LastContaining(repositories, path);
      NextIsFound(root, paths, ids, sorted, repositories, i);
      FoundOneMore(root, paths, ids, sorted, repositories, NewEntry(root, ids, path, repositories, i));
      var parent, mount := "", path[|root|..];
      if i >= 0 {
        parent, mount := repositories[i].id, path[|repositories[i].path|..];
      }
      repositories := repositories + [Found(ids[path], path, parent, mount)];
    }
  }

  /** The entry of a path whose nearest enclosing one is known to be the given repository, or to be absent. */
  function NewEntry(root: Path, ids: map<Path, Id>, path: Path, repositories: seq<Found>, i: int): Found
    requires path in ids && root <= path
    requires -1 <= i < |repositories| && (i >= 0 ==> repositories[i].path <= path)
  {
    if i >= 0 then Found(ids[path], path, repositories[i].id, path[|repositories[i].path|..])
    else Found(ids[path], path, "", path[|root|..])
  }

  lemma NextIsNamed(root: Path, paths: set<Path>, ids: map<Path, Id>, sorted: seq<Path>, k: nat)
    requires Named(root, paths, ids) && Enumerates(sorted, paths) && k < |sorted|
    ensures sorted[k] in ids && root <= sorted[k] && sorted[k] in paths
  {
    assert sorted[k] in sorted;
  }

  /** The next path gets the parent that the backward scan finds for it. */
  lemma NextIsFound(root: Path, paths: set<Path>, ids: map<Path, Id>, sorted: seq<Path>,
                    repositories: seq<Found>, i: int)
    requires Named(root, paths, ids) && Enumerates(sorted, paths) && Ascending(sorted, PathLess())
    requires FoundSoFar(root, paths, ids, sorted, repositories) && |repositories| < |sorted|
    requires -1 <= i < |repositories| && (i >= 0 ==> repositories[i].path <= sorted[|repositories|])
    requires forall k | i < k < |repositories| :: !(repositories[k].path <= sorted[|repositories|])
    ensures sorted[|repositories|] in ids && root <= sorted[|repositories|]
    ensures var path := sorted[|repositories|];
            FoundAt(root, paths, ids, path, NewEntry(root, ids, path, repositories, i))
  {
    var k := |repositories|;
    NextIsNamed(root, paths, ids, sorted, k);
    assert forall j | 0 <= j < k ::
        FoundAt(root, paths, ids, sorted[j], repositories[j]) && repositories[j].path == sorted[j];
    hide Named, WellParented;
    LastIsNearest(paths, sorted, k, i);
    hide Ascending, Nearest, Enclosed, Enumerates, FoundSoFar;
    if i >= 0 {
      AssignNearest(root, paths, ids, sorted[i], sorted[k]);
    } else {
      AssignTop(root, paths, ids, sorted[k]);
    }
  }

  lemma FoundOneMore(root: Path, paths: set<Path>, ids: map<Path, Id>, sorted: seq<Path>,
                     repositories: seq<Found>, r: Found)
    requires FoundSoFar(root, paths, ids, sorted, repositories) && |repositories| < |sorted|
    requires FoundAt(root, paths, ids, sorted[|repositories|], r)
    ensures FoundSoFar(root, paths, ids, sorted, repositories + [r])
  {
    hide FoundAt;
  }

  lemma AssignNearest(root: Path, paths: set<Path>, ids: map<Path, Id>, q: Path, p: Path)
    requires Named(root, paths, ids) && p in paths && Nearest(paths, q, p)
    ensures q in ids && |q| <= |p| && WellParented(root, paths, ids, p, Repository(ids[q], p[|q|..]))
  {
    NearestIsOne(paths, q, p);
  }

  lemma AssignTop(root: Path, paths: set<Path>, ids: map<Path, Id>, p: Path)
    requires Named(root, paths, ids) && p in paths && !Enclosed(paths, p)
    ensures WellParented(root, paths, ids, p, Repository("", p[|root|..]))
  {
    NearestOrNone(paths, p);
  }

  /** The assignment as a forest. */
  function ForestOf(repositories: seq<Found>): Forest {
    if repositories == [] then map[]
    else
      var last := repositories[|repositories| - 1];
      ForestOf(repositories[..|repositories| - 1])[last.id := Repository(last.parent, last.mount)]
  }

  lemma {:induction false} ForestHas(repositories: seq<Found>)
    requires forall i, j | 0 <= i < j < |repositories| :: repositories[i].id != repositories[j].id
    ensures forall r | r in repositories :: r.id in ForestOf(repositories)
                                            && ForestOf(repositories)[r.id] == Repository(r.parent, r.mount)
    ensures forall id | id in ForestOf(repositories) :: exists r :: r in repositories && r.id == id
  {
    if repositories != [] {
      var n := |repositories| - 1;
      ForestHas(repositories[..n]);
      assert repositories == repositories[..n] + [repositories[n]];
    }
  }

  function FoundIds(repositories: seq<Found>): (listed: seq<Id>)
    ensures |listed| == |repositories| && forall k | 0 <= k < |listed| :: listed[k] == repositories[k].id
  {
    seq(|repositories|, k requires 0 <= k < |repositories| => repositories[k].id)
  }

  lemma {:induction false} IdsAreListed(repositories: seq<Found>)
    requires forall i, j | 0 <= i < j < |repositories| :: repositories[i].id != repositories[j].id
    ensures Enumerates(FoundIds(repositories), ForestOf(repositories).Keys)
  {
    ForestHas(repositories);
    hide ForestOf;
    var f, listed := ForestOf(repositories), FoundIds(repositories);
    forall id | id in f
      ensures id in listed
    {
      var r :| r in repositories && r.id == id;
      var k :| 0 <= k < |repositories| && repositories[k] == r;
      assert listed[k] == id;
    }
    forall id | id in listed
      ensures id in f
    {
      var k :| 0 <= k < |listed| && listed[k] == id;
      assert repositories[k] in repositories;
    }
  }

  lemma FoundIdsDiffer(root: Path, paths: set<Path>, ids: map<Path, Id>, sorted: seq<Path>,
                       repositories: seq<Found>)
    requires Named(root, paths, ids) && Enumerates(sorted, paths)
    requires |repositories| == |sorted| && FoundSoFar(root, paths, ids, sorted, repositories)
    ensures forall i, j | 0 <= i < j < |repositories| :: repositories[i].id != repositories[j].id
  {
    hide WellParented;
    forall i, j | 0 <= i < j < |repositories|
      ensures repositories[i].id != repositories[j].id
    {
      assert sorted[i] in sorted && sorted[j] in sorted;
    }
  }

  /** The forest holds what was found for each path. */
  lemma ForestIsDiscovered(root: Path, paths: set<Path>, ids: map<Path, Id>, sorted: seq<Path>,
                           repositories: seq<Found>)
    requires Named(root, paths, ids) && Enumerates(sorted, paths)
    requires |repositories| == |sorted| && FoundSoFar(root, paths, ids, sorted, repositories)
    requires forall i, j | 0 <= i < j < |repositories| :: repositories[i].id != repositories[j].id
    ensures IsDiscovered(root, paths, ids, ForestOf(repositories))
  {
    var f := ForestOf(repositories);
    hide ForestOf, WellParented;
    ForestHas(repositories);
    forall p | p in paths
      ensures ids[p] in f && WellParented(root, paths, ids, p, f[ids[p]])
    {
      var k :| 0 <= k < |sorted| && sorted[k] == p;
      assert repositories[k] in repositories;
    }
    forall id | id in f
      ensures exists p :: p in paths && ids[p] == id
    {
      var r :| r in repositories && r.id == id;
      var k :| 0 <= k < |repositories| && repositories[k] == r;
      assert sorted[k] in sorted;
    }
  }

  /** Sorts what was found, assigns parents and mounts, and orders the result by depth and ID. */
  method Discover(root: Path, listed: seq<Path>, ids: map<Path, Id>) returns (f: Forest, order: seq<Id>)
    requires Distinct(listed) && Named(root, (set p | p in listed), ids)
    ensures IsDiscovered(root, (set p | p in listed), ids, f)
    ensures RepositoryOrder.IsParentFirst(f, order)
  {
    ghost var paths := set p | p in listed;
    PathsAreOrdered(paths);
    SortedIsAscending(listed, PathLess(), paths);
    var sorted := Sorted(listed, PathLess());
    assert Enumerates(sorted, paths);
    hide Sorted, Enumerates, Distinct, Ascending, Named, FoundSoFar, FoundIds, ForestOf, IsDiscovered, AllRooted;
    var repositories := AssignParents(root, paths, ids, sorted);
    FoundIdsDiffer(root, paths, ids, sorted, repositories);
    ForestIsDiscovered(root, paths, ids, sorted, repositories);
    IdsAreListed(repositories);
    f := ForestOf(repositories);
    DiscoveredIsForest(root, paths, ids, f);
    order := RepositoryOrder.ParentFirst(f, FoundIds(repositories));
  }

  lemma NearestIsOne(paths: set<Path>, q: Path, p: Path)
    requires Nearest(paths, q, p)
    ensures Enclosed(paths, p) && forall r | Nearest(paths, r, p) :: r == q
  {
    forall r | Nearest(paths, r, p)
      ensures r == q
    {
      assert r == p[..|r|] && q == p[..|q|];
    }
  }

  // ----- the way back

  lemma DiscoveredAt(root: Path, paths: set<Path>, ids: map<Path, Id>, f: Forest, p: Path)
    requires IsDiscovered(root, paths, ids, f) && p in paths
    ensures p in ids && ids[p] != "" && ids[p] in f && root <= p
    ensures Named(root, paths, ids) && WellParented(root, paths, ids, p, f[ids[p]])
  {
  }

  lemma NearestAt(root: Path, paths: set<Path>, ids: map<Path, Id>, p: Path, r: Repository, q: Path)
    requires Named(root, paths, ids) && p in paths && WellParented(root, paths, ids, p, r) && Nearest(paths, q, p)
    ensures q in paths && q in ids && |q| < |p| && p == q + r.mount && r.parent == ids[q]
  {
    assert p == q + p[|q|..];
  }

  lemma TopAt(root: Path, paths: set<Path>, ids: map<Path, Id>, p: Path, r: Repository)
    requires Named(root, paths, ids) && p in paths && WellParented(root, paths, ids, p, r) && !Enclosed(paths, p)
    ensures r.parent == "" && p == root + r.mount
  {
    assert p == root + p[|root|..];
  }

  /** What was assigned to one path. */
  lemma Assigned(root: Path, paths: set<Path>, ids: map<Path, Id>, f: Forest, p: Path)
      returns (enclosing: Path)
    requires IsDiscovered(root, paths, ids, f) && p in paths
    ensures p in ids && ids[p] in f && root <= p
    ensures Enclosed(paths, p) ==>
              && Nearest(paths, enclosing, p) && enclosing in paths && |enclosing| < |p|
              && p == enclosing + f[ids[p]].mount && f[ids[p]].parent == ids[enclosing] != ""
    ensures !Enclosed(paths, p) ==> f[ids[p]].parent == "" && p == root + f[ids[p]].mount
  {
    NearestOrNone(paths, p);
    enclosing := p;
    DiscoveredAt(root, paths, ids, f, p);
    hide IsDiscovered, Enclosed, Named, Nearest, WellParented;
    if Enclosed(paths, p) {
      enclosing :| Nearest(paths, enclosing, p);
      NearestAt(root, paths, ids, p, f[ids[p]], enclosing);
      DiscoveredAt(root, paths, ids, f, enclosing);
    } else {
      TopAt(root, paths, ids, p, f[ids[p]]);
    }
  }

  /** The mounts of a discovered repository, joined under the root, are its path. */
  lemma {:induction false} PathIsRestored(root: Path, paths: set<Path>, ids: map<Path, Id>, f: Forest, p: Path)
    requires IsDiscovered(root, paths, ids, f) && p in paths
    ensures p in ids && Rooted(f, ids[p]) && root + PathOf(f, ids[p]) == p
    decreases |p|
  {
    hide IsDiscovered, Nearest, Enclosed;
    var q := Assigned(root, paths, ids, f, p);
    var id := ids[p];
    if Enclosed(paths, p) {
      PathIsRestored(root, paths, ids, f, q);
      RootedByParent(f, id);
      DepthStep(f, id);
      assert root + (PathOf(f, ids[q]) + f[id].mount) == root + PathOf(f, ids[q]) + f[id].mount;
    } else {
      assert HasDepth(f, id, 0);
      DepthStep(f, id);
    }
  }

  /** The ancestors of a discovered repository are exactly the repositories that enclose it. */
  lemma {:induction false} AncestorsEnclose(root: Path, paths: set<Path>, ids: map<Path, Id>, f: Forest, q: Path,
                                            p: Path)
    requires IsDiscovered(root, paths, ids, f) && p in paths && q in paths
    ensures Ancestor(f, ids[q], ids[p]) <==> q < p
    decreases |p|
  {
    var n := Assigned(root, paths, ids, f, p);
    AncestorStep(f, ids[q], ids[p]);
    if Enclosed(paths, p) {
      EnclosingChain(paths, q, p, n);
      AncestorsEnclose(root, paths, ids, f, q, n);
    } else {
      assert "" !in f;
      NowhereHasNoAncestor(f, ids[q]);
    }
  }

  lemma IdHasPath(root: Path, paths: set<Path>, ids: map<Path, Id>, f: Forest, id: Id)
      returns (p: Path)
    requires IsDiscovered(root, paths, ids, f) && id in f
    ensures p in paths && p in ids && ids[p] == id && id != ""
  {
    p :| p in paths && ids[p] == id;
  }

  lemma IdIsSound(root: Path, paths: set<Path>, ids: map<Path, Id>, f: Forest, id: Id)
    requires IsDiscovered(root, paths, ids, f) && id in f
    ensures id != "" && Rooted(f, id) && (f[id].parent == "" || f[id].parent in f)
    ensures f[id].mount == [] ==> f[id].parent == "" && SoleTopLevel(f, id)
  {
    hide *;
    var p := IdHasPath(root, paths, ids, f, id);
    PathIsRestored(root, paths, ids, f, p);
    var q := Assigned(root, paths, ids, f, p);
    if Enclosed(paths, p) {
      var _ := Assigned(root, paths, ids, f, q);
    } else if f[id].mount == [] {
      assert p == root;
      OnlyTheRootIsTop(root, paths, ids, f);
    }
  }

  /** Discovery gives a forest, and "." only to a repository at the root, which is then the only one at the top. */
  lemma DiscoveredIsForest(root: Path, paths: set<Path>, ids: map<Path, Id>, f: Forest)
    requires IsDiscovered(root, paths, ids, f)
    ensures Closed(f) && AllRooted(f)
    ensures forall id | id in f && f[id].mount == [] :: f[id].parent == "" && SoleTopLevel(f, id)
  {
    hide IsDiscovered, Rooted, SoleTopLevel;
    forall id | id in f
      ensures id != "" && Rooted(f, id) && (f[id].parent == "" || f[id].parent in f)
      ensures f[id].mount == [] ==> f[id].parent == "" && SoleTopLevel(f, id)
    {
      IdIsSound(root, paths, ids, f, id);
    }
  }

  lemma OnlyTheRootIsTop(root: Path, paths: set<Path>, ids: map<Path, Id>, f: Forest)
    requires IsDiscovered(root, paths, ids, f) && root in paths
    ensures root in ids && SoleTopLevel(f, ids[root])
  {
    var _ := Assigned(root, paths, ids, f, root);
    forall other | other in f && f[other].parent == ""
      ensures other == ids[root]
    {
      hide IsDiscovered, Nearest;
      var p := IdHasPath(root, paths, ids, f, other);
      var q := Assigned(root, paths, ids, f, p);
      assert !(root < p);
    }
  }

  // ----- the round trip through the resolver

  /** Every component below the root may appear in a mount. */
  ghost predicate AllowedBelow(root: Path, paths: set<Path>)
    requires forall p | p in paths :: root <= p
  {
    forall p | p in paths :: AllAllowed(p[|root|..])
  }

  predicate AllAllowed(p: Path) {
    forall c | c in p :: AllowedComponent(c)
  }

  /** No two of the paths overlap only when case is ignored. */
  ghost predicate NoAliases(paths: set<Path>) {
    forall p, q | p in paths && q in paths && p != q && Overlap(p, q) :: p < q || q < p
  }

  lemma AllowedAppend(p: Path, q: Path)
    ensures AllAllowed(p + q) <==> AllAllowed(p) && AllAllowed(q)
  {
    hide AllowedComponent;
    if AllAllowed(p + q) {
      assert forall c | c in p :: c in p + q;
      assert forall c | c in q :: c in p + q;
    }
  }

  lemma MountIsAllowed(root: Path, paths: set<Path>, ids: map<Path, Id>, f: Forest, p: Path)
    requires IsDiscovered(root, paths, ids, f) && p in paths && root <= p && AllAllowed(p[|root|..])
    ensures p in ids && ids[p] in f && MountAllowed(f[ids[p]].parent == "", f[ids[p]].mount)
  {
    hide IsDiscovered, Nearest, AllAllowed, AllowedComponent;
    var q := Assigned(root, paths, ids, f, p);
    var mount := f[ids[p]].mount;
    if Enclosed(paths, p) {
      var _ := Assigned(root, paths, ids, f, q);
      assert p[|root|..] == q[|root|..] + mount;
      AllowedAppend(q[|root|..], mount);
    } else {
      assert p[|root|..] == mount;
    }
    assert AllAllowed(mount);
    AllAllowedIsMount(f[ids[p]].parent == "", mount);
  }

  lemma AllAllowedIsMount(topLevel: bool, mount: Path)
    requires mount != [] || topLevel
    ensures MountAllowed(topLevel, mount) <==> AllAllowed(mount)
  {
  }

  /** Where every mount is allowed, every component of every path below the root is. */
  lemma {:induction false} PathIsAllowed(f: Forest, id: Id)
    requires MountsAllowed(f) && Rooted(f, id)
    ensures AllAllowed(PathOf(f, id))
    decreases Depth(f, id)
  {
    hide AllowedComponent, AllAllowed;
    DepthStep(f, id);
    assert MountAllowed(f[id].parent == "", f[id].mount);
    AllAllowedIsMount(true, f[id].mount);
    if f[id].parent != "" {
      PathIsAllowed(f, f[id].parent);
      AllowedAppend(PathOf(f, f[id].parent), f[id].mount);
    }
  }

  lemma MountsAreAllowed(root: Path, paths: set<Path>, ids: map<Path, Id>, f: Forest)
    requires IsDiscovered(root, paths, ids, f)
    ensures forall p | p in paths :: root <= p
    ensures MountsAllowed(f) <==> AllowedBelow(root, paths)
  {
    assert forall p | p in paths :: root <= p;
    hide IsDiscovered, AllAllowed, MountAllowed;
    if AllowedBelow(root, paths) {
      forall id | id in f
        ensures MountAllowed(f[id].parent == "", f[id].mount)
      {
        var p := IdHasPath(root, paths, ids, f, id);
        MountIsAllowed(root, paths, ids, f, p);
      }
    }
    if MountsAllowed(f) {
      forall p | p in paths
        ensures AllAllowed(p[|root|..])
      {
        PathIsRestored(root, paths, ids, f, p);
        PathIsAllowed(f, ids[p]);
        assert p[|root|..] == PathOf(f, ids[p]);
      }
    }
  }

  /** The paths of two repositories are separated exactly when they are nested or do not overlap. */
  lemma PairIsNested(root: Path, paths: set<Path>, ids: map<Path, Id>, f: Forest, p: Path, q: Path)
    requires IsDiscovered(root, paths, ids, f) && p in paths && q in paths
    ensures p in ids && q in ids && Rooted(f, ids[p]) && Rooted(f, ids[q])
    ensures PairSeparated(f, ids[p], ids[q]) <==> (Overlap(p, q) ==> p < q || q < p)
  {
    hide IsDiscovered, Overlap, Ancestor;
    PathIsRestored(root, paths, ids, f, p);
    PathIsRestored(root, paths, ids, f, q);
    AncestorsEnclose(root, paths, ids, f, p, q);
    AncestorsEnclose(root, paths, ids, f, q, p);
    OverlapUnderRoot(root, PathOf(f, ids[p]), PathOf(f, ids[q]));
  }

  lemma SeparatedMeansNoAliases(root: Path, paths: set<Path>, ids: map<Path, Id>, f: Forest)
    requires IsDiscovered(root, paths, ids, f)
    ensures AllRooted(f) && (Separated(f) <==> NoAliases(paths))
  {
    DiscoveredIsForest(root, paths, ids, f);
    assert forall p, q | p in paths && q in paths && p != q ::
        p in ids && q in ids && ids[p] in f && ids[q] in f && ids[p] != ids[q];
    hide IsDiscovered, PairSeparated, Overlap;
    if Separated(f) {
      forall p, q | p in paths && q in paths && p != q && Overlap(p, q)
        ensures p < q || q < p
      {
        PairIsNested(root, paths, ids, f, p, q);
      }
    }
    if NoAliases(paths) {
      forall l, r | l in f && r in f && l != r
        ensures PairSeparated(f, l, r)
      {
        var p := IdHasPath(root, paths, ids, f, l);
        var q := IdHasPath(root, paths, ids, f, r);
        PairIsNested(root, paths, ids, f, p, q);
      }
    }
  }

  /**
   The round trip. With any top-level repository as the base, the resolver accepts what was discovered exactly when the
   names below the root may appear in mounts and no two paths overlap by case alone; it then gives back every path.
  */
  lemma DiscoveryRoundTrip(root: Path, paths: set<Path>, ids: map<Path, Id>, f: Forest, base: Id)
    requires IsDiscovered(root, paths, ids, f) && base in f && f[base].parent == ""
    ensures forall p | p in paths :: root <= p && p in ids && ids[p] in f
    ensures Resolvable(f, base, map[]) <==> AllowedBelow(root, paths) && NoAliases(paths)
    ensures AllRooted(f) && WithMounts(f, map[]) == f && forall p | p in paths :: Under(root, f)[ids[p]] == p
  {
    assert forall p | p in paths :: root <= p && p in ids && ids[p] in f;
    hide IsDiscovered, Separated, NoAliases, AllowedBelow, MountsAllowed, AllRooted, Closed, SoleTopLevel;
    DiscoveredIsForest(root, paths, ids, f);
    MountsAreAllowed(root, paths, ids, f);
    SeparatedMeansNoAliases(root, paths, ids, f);
    assert WithMounts(f, map[]) == f;
    assert Means(f, base, base);
    assert base != "";
    assert WellDeclared(f, base) <==> MountsAllowed(f);
    PathsAreRestored(root, paths, ids, f);
  }

  lemma PathsAreRestored(root: Path, paths: set<Path>, ids: map<Path, Id>, f: Forest)
    requires IsDiscovered(root, paths, ids, f) && AllRooted(f)
    ensures forall p | p in paths :: p in ids && ids[p] in f && Under(root, f)[ids[p]] == p
  {
    forall p | p in paths
      ensures p in ids && ids[p] in f && Under(root, f)[ids[p]] == p
    {
      hide IsDiscovered;
      PathIsRestored(root, paths, ids, f, p);
    }
  }

  lemma CaseAlias()
    ensures !NoAliases({["a"], ["A"]})
  {
    var p, q: Path := ["a"], ["A"];
    assert Fold("a") == Fold("A");
    assert FoldPath(p) == FoldPath(q);
    assert p[0] != q[0] && !(p < q) && !(q < p);
    assert p in {p, q} && q in {p, q};
  }

  /** Two directories side by side below the root. */
  ghost predicate SideBySide(paths: set<Path>, p: Path, q: Path) {
    p != q && |p| == |q| == 1 && p in paths && q in paths && forall r | r in paths :: r == p || r == q
  }

  lemma TwoAtTop(paths: set<Path>, p: Path, q: Path, ids: map<Path, Id>, f: Forest)
    requires SideBySide(paths, p, q) && Named([], paths, ids)
    requires f == map[ids[p] := Repository("", p), ids[q] := Repository("", q)]
    ensures IsDiscovered([], paths, ids, f)
  {
    assert ids[p] != ids[q];
    forall r | r in paths
      ensures ids[r] in f && WellParented([], paths, ids, r, f[ids[r]])
    {
      AloneAtTop(paths, p, q, ids, r);
    }
  }

  lemma AloneAtTop(paths: set<Path>, p: Path, q: Path, ids: map<Path, Id>, r: Path)
    requires SideBySide(paths, p, q) && Named([], paths, ids) && r in paths
    ensures WellParented([], paths, ids, r, Repository("", r))
  {
    assert !Enclosed(paths, r);
    NearestOrNone(paths, r);
    assert r[0..] == r;
  }

  /** What discovery finds for them. */
  lemma CaseAliasesAreDiscovered() returns (ids: map<Path, Id>, f: Forest)
    ensures IsDiscovered([], {["a"], ["A"]}, ids, f) && "x" in f && f["x"].parent == ""
  {
    var p, q: Path := ["a"], ["A"];
    assert p[0] != q[0];
    ids := map[p := "x", q := "y"];
    AliasesAreNamed(ids);
    f := map[ids[p] := Repository("", p), ids[q] := Repository("", q)];
    assert SideBySide({p, q}, p, q);
    TwoAtTop({p, q}, p, q, ids, f);
    hide IsDiscovered;
    assert "x"[0] != "y"[0];
  }

  lemma AliasesAreNamed(ids: map<Path, Id>)
    requires ["a"] in ids && ids[["a"]] == "x" && ["A"] in ids && ids[["A"]] == "y"
    ensures Named([], {["a"], ["A"]}, ids)
  {
    assert "a"[0] != '/' && "A"[0] != '/' && "x"[0] != "y"[0];
    assert Clean(["a"]) && Clean(["A"]);
  }

  /** Two repositories whose names differ by case alone are discovered, and never resolve. */
  lemma CaseAliasesDoNotResolve(ids: map<Path, Id>, f: Forest, base: Id)
    requires IsDiscovered([], {["a"], ["A"]}, ids, f) && base in f && f[base].parent == ""
    ensures !Resolvable(f, base, map[])
  {
    hide *;
    CaseAlias();
    DiscoveryRoundTrip([], {["a"], ["A"]}, ids, f, base);
  }
}
