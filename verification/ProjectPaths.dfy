/** The paths of a project's repositories under a workspace root (internal/domain/project.go:28-91). */
module ProjectPaths {
  import opened Options
  import opened Forest
  import opened Ordering
  import opened Mounts
  import opened Placement
  import RepositoryOrder

  /** The forest with the mounts of one workspace. */
  function WithMounts(f: Forest, mounts: map<Id, Path>): Forest {
    map id | id in f :: Repository(f[id].parent, if id in mounts then mounts[id] else f[id].mount)
  }

  predicate SameParents(f: Forest, g: Forest) {
    f.Keys == g.Keys && forall id | id in f :: f[id].parent == g[id].parent
  }

  lemma {:induction false} SameDepths(f: Forest, g: Forest, id: Id, d: nat)
    requires SameParents(f, g)
    ensures HasDepth(f, id, d) <==> HasDepth(g, id, d)
    decreases d
  {
    if id in f && d != 0 {
      SameDepths(f, g, f[id].parent, d - 1);
    }
  }

  lemma {:induction false} SameClimb(f: Forest, g: Forest, id: Id, n: nat)
    requires SameParents(f, g)
    ensures Climb(f, id, n) == Climb(g, id, n)
    decreases n
  {
    if n != 0 {
      SameClimb(f, g, if id in f then f[id].parent else "", n - 1);
    }
  }

  /** Depths, ancestors and rootedness depend on the parents only. */
  lemma SameAncestry(f: Forest, g: Forest)
    requires SameParents(f, g)
    ensures AllRooted(f) <==> AllRooted(g)
    ensures forall a, b :: Ancestor(f, a, b) <==> Ancestor(g, a, b)
  {
    forall id, d: nat
      ensures HasDepth(f, id, d) <==> HasDepth(g, id, d)
    {
      SameDepths(f, g, id, d);
    }
    forall id, n: nat
      ensures Climb(f, id, n) == Climb(g, id, n)
    {
      SameClimb(f, g, id, n);
    }
    assert forall id | id in f :: Rooted(f, id) <==> Rooted(g, id);
  }

  /** What makes a choice of mounts work. */
  ghost predicate Placeable(g: Forest) {
    MountsAllowed(g) && AllRooted(g) && Separated(g)
  }

  /** Every repository at the root joined with its mounts. */
  ghost function Under(root: Path, g: Forest): map<Id, Path>
    requires AllRooted(g)
  {
    map id | id in g :: root + PathOf(g, id)
  }

  /** The new path is not that of an earlier repository, and overlaps only with those of ancestors. */
  ghost predicate Fits(g: Forest, paths: map<Id, Path>, id: Id, path: Path) {
    forall other | other in paths :: FitsBeside(g, paths, id, path, other)
  }

  ghost predicate FitsBeside(g: Forest, paths: map<Id, Path>, id: Id, path: Path, other: Id)
    requires other in paths
  {
    FoldPath(paths[other]) != FoldPath(path) && (Overlap(paths[other], path) ==> Ancestor(g, other, id))
  }

  /** The place of a repository beside the earlier ones, if it has one. */
  ghost function PlaceBeside(f: Forest, g: Forest, root: Path, paths: map<Id, Path>, id: Id): Option<Path>
    requires id in f && id in g && (f[id].parent != "" ==> f[id].parent in paths)
  {
    var path := (if f[id].parent == "" then root else paths[f[id].parent]) + g[id].mount;
    if MountAllowed(f[id].parent == "", g[id].mount) && Fits(f, paths, id, path) then Some(path) else None
  }

  /** Places one repository beside the earlier ones. */
  method PlaceOne(f: Forest, root: Path, mounts: map<Id, Path>, paths: map<Id, Path>, id: Id)
      returns (result: Option<Path>)
    requires "" !in f && AllRooted(f) && id in f && "" !in paths
    requires f[id].parent != "" ==> f[id].parent in paths && root <= paths[f[id].parent]
    ensures result == PlaceBeside(f, WithMounts(f, mounts), root, paths, id)
  {
    var mount := f[id].mount;
    if id in mounts {
      mount := mounts[id];
    }
    var parentPath := if f[id].parent in paths then paths[f[id].parent] else [];
    result := ResolveMount(root, parentPath, mount, f[id].parent == "");
    if result.None? {
      return;
    }
    var resolved, todo := result.value, paths.Keys;
    assert Rooted(f, id);
    hide WithMounts, MountAllowed, AllRooted;
    while todo != {}
      invariant todo <= paths.Keys
      invariant forall other | other in paths.Keys - todo :: FitsBeside(f, paths, id, resolved, other)
      decreases todo
    {
      var other :| other in todo;
      todo := todo - {other};
      var equal := CaseFoldedPathEqual(paths[other], resolved);
      if equal {
        assert !FitsBeside(f, paths, id, resolved, other);
        return None;
      }
      var overlap := CaseFoldedPathOverlap(paths[other], resolved);
      if overlap {
        var above := IsAncestor(f, other, id);
        if !above {
          assert !FitsBeside(f, paths, id, resolved, other);
          return None;
        }
      }
    }
  }

  /** What holds once the first repositories of the order are placed. */
  ghost predicate PlacedSoFar(g: Forest, root: Path, placed: seq<Id>, paths: map<Id, Path>)
    requires AllRooted(g)
  {
    && (forall id :: id in paths <==> id in placed)
    && (forall id | id in placed :: id in g && paths[id] == root + PathOf(g, id))
    && (forall id | id in placed :: MountAllowed(g[id].parent == "", g[id].mount))
    && (forall l, r | l in placed && r in placed && l != r :: PairSeparated(g, l, r))
  }

  /** In parent-first order the parent has its place already. */
  lemma ParentIsPlaced(f: Forest, ordered: seq<Id>, i: nat)
    requires "" !in f && AllRooted(f) && RepositoryOrder.IsParentFirst(f, ordered) && i < |ordered|
    ensures ordered[i] in f && ordered[i] !in ordered[..i]
    ensures f[ordered[i]].parent != "" ==> f[ordered[i]].parent in ordered[..i]
    ensures forall other | other in ordered[..i] :: !Ancestor(f, ordered[i], other)
  {
    assert ordered[i] in f.Keys;
    var id := ordered[i];
    var parent := f[id].parent;
    if parent != "" {
      DepthStep(f, id);
      assert parent in f.Keys;
      var k :| 0 <= k < |ordered| && ordered[k] == parent;
      assert Climb(f, id, 1) == parent;
      RepositoryOrder.AncestorsComeFirst(f, "", ordered, k, i);
      assert ordered[..i][k] == parent;
    }
    forall other | other in ordered[..i]
      ensures !Ancestor(f, id, other)
    {
      var k :| 0 <= k < i && ordered[k] == other;
      if Ancestor(f, id, other) {
        RepositoryOrder.AncestorsComeFirst(f, "", ordered, i, k);
      }
    }
  }

  lemma {:induction false} PathStep(g: Forest, root: Path, paths: map<Id, Path>, placed: seq<Id>, id: Id)
    requires AllRooted(g) && PlacedSoFar(g, root, placed, paths) && id in g
    requires g[id].parent != "" ==> g[id].parent in placed
    ensures root + PathOf(g, id) == (if g[id].parent == "" then root else paths[g[id].parent]) + g[id].mount
    ensures g[id].parent != "" ==> root <= paths[g[id].parent]
  {
    DepthStep(g, id);
    if g[id].parent != "" {
      assert root + (PathOf(g, g[id].parent) + g[id].mount) == root + PathOf(g, g[id].parent) + g[id].mount;
    }
  }

  /** A repository that fits keeps everything placed separated. */
  lemma OneMorePlaced(g: Forest, root: Path, placed: seq<Id>, paths: map<Id, Path>, id: Id)
    requires AllRooted(g) && PlacedSoFar(g, root, placed, paths) && id in g && id !in placed
    requires MountAllowed(g[id].parent == "", g[id].mount)
    requires Fits(g, paths, id, root + PathOf(g, id))
    ensures PlacedSoFar(g, root, placed + [id], paths[id := root + PathOf(g, id)])
  {
    forall other | other in placed
      ensures PairSeparated(g, other, id) && PairSeparated(g, id, other)
    {
      assert FitsBeside(g, paths, id, root + PathOf(g, id), other);
      OverlapUnderRoot(root, PathOf(g, other), PathOf(g, id));
    }
  }

  /** A repository that does not fit shows that the mounts do not work. */
  lemma CannotPlace(g: Forest, root: Path, placed: seq<Id>, paths: map<Id, Path>, id: Id)
    requires "" !in g && AllRooted(g) && PlacedSoFar(g, root, placed, paths) && id in g && id !in placed
    requires forall other | other in placed :: !Ancestor(g, id, other)
    requires MountAllowed(g[id].parent == "", g[id].mount) ==> !Fits(g, paths, id, root + PathOf(g, id))
    ensures !Placeable(g)
  {
    if Placeable(g) {
      var other :| other in paths && !FitsBeside(g, paths, id, root + PathOf(g, id), other);
      OverlapUnderRoot(root, PathOf(g, other), PathOf(g, id));
      assert PairSeparated(g, other, id);
      assert Ancestor(g, other, id);
      DescendantLiesBelow(g, other, id);
    }
  }

  /** The next repository of the order finds its parent placed. */
  lemma ParentHasPath(f: Forest, g: Forest, root: Path, ordered: seq<Id>, i: nat, paths: map<Id, Path>)
    requires "" !in f && AllRooted(f) && SameParents(f, g) && AllRooted(g)
    requires RepositoryOrder.IsParentFirst(f, ordered) && i < |ordered| && PlacedSoFar(g, root, ordered[..i], paths)
    ensures var id := ordered[i];
            && id in f && id in g && "" !in paths
            && (f[id].parent != "" ==> f[id].parent in paths && root <= paths[f[id].parent])
  {
    ParentIsPlaced(f, ordered, i);
    PathStep(g, root, paths, ordered[..i], ordered[i]);
  }

  /** The place beside the earlier ones is the one its mounts name. */
  lemma PlaceIsPath(f: Forest, g: Forest, root: Path, placed: seq<Id>, paths: map<Id, Path>, id: Id)
    requires SameParents(f, g) && AllRooted(g) && PlacedSoFar(g, root, placed, paths)
    requires id in f && id in g && (f[id].parent != "" ==> f[id].parent in placed)
    ensures f[id].parent != "" ==> f[id].parent in paths
    ensures var path := root + PathOf(g, id);
            PlaceBeside(f, g, root, paths, id) ==
              if MountAllowed(g[id].parent == "", g[id].mount) && Fits(g, paths, id, path) then Some(path) else None
  {
    SameAncestry(f, g);
    PathStep(g, root, paths, placed, id);
    SameFit(f, g, paths, id, root + PathOf(g, id));
  }

  /** The next repository of the order: it is placed where its mounts say, or the mounts do not work. */
  lemma NextPlaced(f: Forest, g: Forest, root: Path, placed: seq<Id>, paths: map<Id, Path>, id: Id)
    requires "" !in f && SameParents(f, g) && AllRooted(g) && PlacedSoFar(g, root, placed, paths)
    requires id in f && id in g && id !in placed && (f[id].parent != "" ==> f[id].parent in placed)
    requires forall other | other in placed :: !Ancestor(f, id, other)
    ensures f[id].parent != "" ==> f[id].parent in paths
    ensures match PlaceBeside(f, g, root, paths, id)
            case None => !Placeable(g)
            case Some(path) => PlacedSoFar(g, root, placed + [id], paths[id := path])
  {
    PlaceIsPath(f, g, root, placed, paths, id);
    SameAncestry(f, g);
    assert "" !in g;
    hide *;
    if PlaceBeside(f, g, root, paths, id).None? {
      CannotPlace(g, root, placed, paths, id);
    } else {
      OneMorePlaced(g, root, placed, paths, id);
    }
  }

  lemma NextInOrder(f: Forest, g: Forest, root: Path, ordered: seq<Id>, i: nat, paths: map<Id, Path>)
    requires "" !in f && AllRooted(f) && SameParents(f, g) && AllRooted(g)
    requires RepositoryOrder.IsParentFirst(f, ordered) && i < |ordered| && PlacedSoFar(g, root, ordered[..i], paths)
    ensures var id := ordered[i];
            && id in f && id in g && "" !in paths
            && (f[id].parent != "" ==> f[id].parent in paths && root <= paths[f[id].parent])
    ensures match PlaceBeside(f, g, root, paths, ordered[i])
            case None => !Placeable(g)
            case Some(path) => PlacedSoFar(g, root, ordered[..i + 1], paths[ordered[i] := path])
  {
    hide *;
    ParentHasPath(f, g, root, ordered, i, paths);
    ParentIsPlaced(f, ordered, i);
    NextPlaced(f, g, root, ordered[..i], paths, ordered[i]);
    assert ordered[..i + 1] == ordered[..i] + [ordered[i]];
  }

  lemma SameFit(f: Forest, g: Forest, paths: map<Id, Path>, id: Id, path: Path)
    requires forall a, b :: Ancestor(f, a, b) <==> Ancestor(g, a, b)
    ensures Fits(f, paths, id, path) <==> Fits(g, paths, id, path)
  {
    forall other | other in paths
      ensures FitsBeside(f, paths, id, path, other) <==> FitsBeside(g, paths, id, path, other)
    {
    }
  }

  lemma AllPlaced(g: Forest, root: Path, ordered: seq<Id>, paths: map<Id, Path>)
    requires AllRooted(g) && Enumerates(ordered, g.Keys) && PlacedSoFar(g, root, ordered, paths)
    ensures Placeable(g) && paths == Under(root, g)
  {
  }

  /** Places all repositories, parents first. */
  method PlaceAll(f: Forest, listed: seq<Id>, root: Path, mounts: map<Id, Path>) returns (result: Option<map<Id, Path>>)
    requires "" !in f && AllRooted(f) && Enumerates(listed, f.Keys)
    ensures result.Some? <==> Placeable(WithMounts(f, mounts))
    ensures result.Some? ==> result.value == Under(root, WithMounts(f, mounts))
  {
    ghost var g := WithMounts(f, mounts);
    SameAncestry(f, g);
    var ordered := RepositoryOrder.ParentFirst(f, listed);
    assert Enumerates(ordered, g.Keys);
    assert AllRooted(g) && SameParents(f, g);
    var paths: map<Id, Path> := map[];
    assert PlacedSoFar(g, root, [], paths);
    hide *;
    for i := 0 to |ordered|
      invariant PlacedSoFar(g, root, ordered[..i], paths)
    {
      var id := ordered[i];
      NextInOrder(f, g, root, ordered, i, paths);
      var one := PlaceOne(f, root, mounts, paths, id);
      if one.None? {
        return None;
      }
      paths := paths[id := one.value];
    }
    assert ordered[..|ordered|] == ordered;
    AllPlaced(g, root, ordered, paths);
    return Some(paths);
  }

  /** Everything the resolver requires of a project and of the mounts of a workspace. */
  ghost predicate Resolvable(f: Forest, declared: Id, mounts: map<Id, Path>) {
    ProjectValid(f, declared) && mounts.Keys <= f.Keys && Placeable(WithMounts(f, mounts))
  }

  /**
   The resolver succeeds exactly when the project is valid, every override names a repository, and the overridden
   mounts are allowed and separated; it then returns the root joined with the mounts along each parent chain.
  */
  method EffectivePaths(declared: Id, entries: seq<Entry>, root: Path, mounts: map<Id, Path>)
      returns (result: Option<map<Id, Path>>)
    ensures result.Some? ==> exists f :: Declares(entries, f) && Resolvable(f, declared, mounts)
    ensures forall f | Declares(entries, f) && Resolvable(f, declared, mounts) ::
              result == Some(Under(root, WithMounts(f, mounts)))
  {
    var project := ValidateProject(declared, entries);
    if project.None? {
      return None;
    }
    var f := project.value;
    if exists id | id in mounts :: id !in f {
      return None;
    }
    result := PlaceAll(f, Ids(entries), root, mounts);
  }

  /**
   The check of a manifest and the resolver of the project it describes agree on every input: the manifest is accepted
   exactly when its repositories resolve, and then they resolve to the paths that were checked.
  */
  lemma ManifestsAndProjectsAgree(f: Forest, base: Id)
    requires base != ""
    ensures WithMounts(f, map[]) == f
    ensures Accepted(f, base) <==> Resolvable(f, base, map[])
  {
    assert WithMounts(f, map[]) == f;
    assert Means(f, base, base);
  }

  /** Two repositories placed by the resolver overlap, case ignored, exactly when one descends from the other. */
  lemma ResolvedPathsFollowAncestry(f: Forest, declared: Id, mounts: map<Id, Path>, root: Path, l: Id, r: Id)
    requires Resolvable(f, declared, mounts) && l in f && r in f && l != r
    ensures AllRooted(WithMounts(f, mounts))
    ensures var paths := Under(root, WithMounts(f, mounts));
            && (Overlap(paths[l], paths[r]) <==> Ancestor(f, l, r) || Ancestor(f, r, l))
            && FoldPath(paths[l]) != FoldPath(paths[r])
  {
    var g := WithMounts(f, mounts);
    SameAncestry(f, g);
    OverlapUnderRoot(root, PathOf(g, l), PathOf(g, r));
    assert PairSeparated(g, l, r);
    if Ancestor(g, l, r) {
      DescendantLiesBelow(g, l, r);
    } else if Ancestor(g, r, l) {
      DescendantLiesBelow(g, r, l);
    }
  }
}
