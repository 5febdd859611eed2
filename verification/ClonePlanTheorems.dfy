/**
 A clone plan can be carried out in the order it gives (internal/service/clone_plan.go:666-699, 709-760): nothing is
 created twice, everything is created inside something that exists, and every repository is verified before anything
 is done below it.
*/
module ClonePlanTheorems {
  import opened Forest
  import opened Ordering
  import opened Mounts
  import opened Placement
  import opened ProjectPaths
  import opened ClonePlan
  import RepositoryOrder

  // ----- what is created

  predicate Creates(step: Step) {
    step.kind == CreateGroupingDirectory || step.kind == CloneRepository
  }

  /** The paths that the steps create, in order. */
  function Created(steps: seq<Step>): seq<Path> {
    if steps == [] then []
    else
      var last := steps[|steps| - 1];
      Created(steps[..|steps| - 1]) + (if Creates(last) then [last.path] else [])
  }

  lemma {:induction false} CreatedAppend(a: seq<Step>, b: seq<Step>)
    ensures Created(a + b) == Created(a) + Created(b)
    decreases |b|
  {
    if b == [] {
      assert a + b == a;
    } else {
      var n := |b| - 1;
      CreatedAppend(a, b[..n]);
      assert (a + b)[..|a + b| - 1] == a + b[..n];
    }
  }

  /** The directory of a created path is the root, or was created before. */
  ghost predicate Inside(root: Path, before: seq<Path>, p: Path) {
    p == root || (p != [] && (p[..|p| - 1] == root || p[..|p| - 1] in before))
  }

  ghost predicate Grounded(root: Path, created: seq<Path>) {
    forall i | 0 <= i < |created| :: Inside(root, created[..i], created[i])
  }

  lemma CreateOne(root: Path, created: seq<Path>, p: Path)
    requires Distinct(created) && Grounded(root, created) && p !in created && Inside(root, created, p)
    ensures Distinct(created + [p]) && Grounded(root, created + [p])
  {
    var all := created + [p];
    forall i | 0 <= i < |all|
      ensures Inside(root, all[..i], all[i])
    {
      assert all[..i] == created[..i];
      assert i < |created| ==> Inside(root, created[..i], created[i]);
      assert i == |created| ==> created[..i] == created;
    }
  }

  // ----- grouping directories

  /** After the grouping directories for n components: each is there once, inside something. */
  ghost predicate GroupsCreated(root: Path, before: seq<Path>, known: set<Path>, above: Path, mount: Path, n: nat)
    requires n <= |mount|
  {
    var all := before + Created(NewGroups(above, mount, n, known));
    && Distinct(all) && Grounded(root, all)
    && forall p :: p in all <==> p in before || p in Groups(above, mount, n)
  }

  /** Where the grouping directories may be created: above is there, and what is there already is known. */
  ghost predicate MayCreate(root: Path, before: seq<Path>, known: set<Path>, above: Path, mount: Path) {
    && (above == root || above in before)
    && (forall p | p in known :: p in before)
    && (forall j | 1 <= j < |mount| :: above + mount[..j] in known || above + mount[..j] !in before)
  }

  lemma {:induction false} CreateGroups(root: Path, before: seq<Path>, known: set<Path>, above: Path, mount: Path,
                                        n: nat)
    requires n <= |mount| && Distinct(before) && Grounded(root, before) && MayCreate(root, before, known, above, mount)
    ensures GroupsCreated(root, before, known, above, mount, n)
    decreases n
  {
    hide *;
    if n <= 1 {
      NoGroups(root, before, known, above, mount, n);
    } else {
      CreateGroups(root, before, known, above, mount, n - 1);
      CreateGroup(root, before, known, above, mount, n - 1);
    }
  }

  lemma NoGroups(root: Path, before: seq<Path>, known: set<Path>, above: Path, mount: Path, n: nat)
    requires n <= |mount| && n <= 1 && Distinct(before) && Grounded(root, before)
    ensures GroupsCreated(root, before, known, above, mount, n)
  {
    hide Distinct, Grounded;
    assert Created([]) == [];
    assert before + [] == before;
    assert Groups(above, mount, n) == {};
  }

  lemma CreateGroup(root: Path, before: seq<Path>, known: set<Path>, above: Path, mount: Path, n: nat)
    requires 1 <= n < |mount| && MayCreate(root, before, known, above, mount)
    requires GroupsCreated(root, before, known, above, mount, n)
    ensures GroupsCreated(root, before, known, above, mount, n + 1)
  {
    var path, groups := above + mount[..n], NewGroups(above, mount, n, known);
    var all := before + Created(groups);
    OneMoreGroup(above, mount, n, known, []);
    hide Distinct, Grounded;
    if path in known {
      assert NewGroups(above, mount, n + 1, known) == groups;
    } else {
      CreatedGroup(above, mount, n, known);
      assert before + Created(NewGroups(above, mount, n + 1, known)) == all + [path];
      hide NewGroups, Created;
      assert Inside(root, all, path) by { GroupIsInside(root, all, above, mount, n); }
      CreateOne(root, all, path);
    }
  }

  lemma CreatedGroup(above: Path, mount: Path, n: nat, known: set<Path>)
    requires 1 <= n < |mount| && above + mount[..n] !in known
    ensures Created(NewGroups(above, mount, n + 1, known)) ==
            Created(NewGroups(above, mount, n, known)) + [above + mount[..n]]
  {
    var groups, step := NewGroups(above, mount, n, known), Step(CreateGroupingDirectory, "", above + mount[..n], "");
    assert NewGroups(above, mount, n + 1, known) == groups + [step];
    assert (groups + [step])[..|groups|] == groups;
  }

  lemma GroupIsInside(root: Path, all: seq<Path>, above: Path, mount: Path, n: nat)
    requires 1 <= n <= |mount| && (above == root || above in all)
    requires forall p | p in Groups(above, mount, n) :: p in all
    ensures Inside(root, all, above + mount[..n])
  {
    var path := above + mount[..n];
    assert path[..|path| - 1] == above + mount[..n - 1];
    if n == 1 {
      assert above + mount[..n - 1] == above;
    } else {
      assert above + mount[..n - 1] in Groups(above, mount, n);
    }
  }

  // ----- repositories and grouping directories

  /** Where the mount of a repository starts, below the root. */
  ghost function Above(f: Forest, id: Id): Path
    requires AllRooted(f) && id in f
  {
    DepthStep(f, id);
    if f[id].parent == "" then [] else PathOf(f, f[id].parent)
  }

  lemma AboveAndMount(f: Forest, id: Id)
    requires AllRooted(f) && id in f
    ensures PathOf(f, id) == Above(f, id) + f[id].mount
  {
    DepthStep(f, id);
  }

  /** A grouping directory is never a repository, nor one in disguise on a case-insensitive file system. */
  lemma GroupingIsNotRepository(f: Forest, base: Id, id: Id, j: nat, other: Id)
    requires Accepted(f, base) && id in f && other in f && 1 <= j < |f[id].mount|
    ensures FoldPath(Above(f, id) + f[id].mount[..j]) != FoldPath(PathOf(f, other))
  {
    var above, mount := Above(f, id), f[id].mount;
    var group := above + mount[..j];
    AboveAndMount(f, id);
    DepthStep(f, id);
    hide AllRooted, Separated, PathOf, Overlap;
    assert PathOf(f, id) == group + mount[j..];
    FoldAppend(group, mount[j..]);
    if FoldPath(group) == FoldPath(PathOf(f, other)) {
      assert |group| == |PathOf(f, other)|;
      PlacementFollowsAncestry(f, base, other, id);
      AncestorStep(f, other, id);
      if f[id].parent == "" {
        NowhereHasNoAncestor(f, other);
      } else if f[id].parent != other {
        AncestorPathIsShorter(f, other, f[id].parent);
      }
    }
  }

  // ----- the order of the steps

  ghost predicate Has(steps: seq<Step>, kind: Kind, id: Id) {
    exists j :: 0 <= j < |steps| && steps[j].kind == kind && steps[j].id == id
  }

  /** What must have been done before a step. */
  ghost predicate Ready(f: Forest, before: seq<Step>, step: Step) {
    match step.kind
    case VerifyParentIgnore =>
      step.id in f && f[step.id].parent == step.parent != "" && Has(before, VerifyRepository, step.parent)
    case CloneRepository =>
      step.id in f &&
      (f[step.id].parent != "" ==>
         Has(before, VerifyRepository, f[step.id].parent) && Has(before, VerifyParentIgnore, step.id))
    case FetchSelectedBranch => Has(before, CloneRepository, step.id)
    case CheckoutSelectedBranch => Has(before, FetchSelectedBranch, step.id)
    case VerifyRepository => Has(before, CheckoutSelectedBranch, step.id)
    case VerifyTrackedManifest => Has(before, VerifyRepository, step.id)
    case VerifyBaseMetadataIgnore => Has(before, VerifyTrackedManifest, step.id)
    case CreateGroupingDirectory => true
    case WriteLocalConfiguration => forall id | id in f :: Has(before, VerifyRepository, id)
    case PublishDestination => Has(before, WriteLocalConfiguration, "")
    case PublishWorkspaceState => Has(before, PublishDestination, "")
    case RegisterProject => Has(before, PublishWorkspaceState, "")
  }

  ghost predicate InOrder(f: Forest, steps: seq<Step>) {
    forall i | 0 <= i < |steps| :: Ready(f, steps[..i], steps[i])
  }

  lemma HasMore(steps: seq<Step>, step: Step)
    ensures Has(steps + [step], step.kind, step.id)
    ensures forall kind, id | Has(steps, kind, id) :: Has(steps + [step], kind, id)
  {
    var all := steps + [step];
    assert all[|steps|] == step;
    forall kind, id | Has(steps, kind, id)
      ensures Has(all, kind, id)
    {
      var j :| 0 <= j < |steps| && steps[j].kind == kind && steps[j].id == id;
      assert all[j] == steps[j];
    }
  }

  lemma DoOne(f: Forest, steps: seq<Step>, step: Step)
    requires InOrder(f, steps) && Ready(f, steps, step)
    ensures InOrder(f, steps + [step])
    ensures Has(steps + [step], step.kind, step.id)
    ensures forall kind, id | Has(steps, kind, id) :: Has(steps + [step], kind, id)
  {
    hide Has, Ready;
    HasMore(steps, step);
    var all := steps + [step];
    forall i | 0 <= i < |all|
      ensures Ready(f, all[..i], all[i])
    {
      assert all[..i] == steps[..i];
      assert i == |steps| ==> steps[..i] == steps;
    }
  }

  lemma {:induction false} DoGroups(f: Forest, steps: seq<Step>, above: Path, mount: Path, n: nat, known: set<Path>)
    requires n <= |mount| && InOrder(f, steps)
    ensures var all := steps + NewGroups(above, mount, n, known);
            InOrder(f, all) && forall kind, id | Has(steps, kind, id) :: Has(all, kind, id)
    decreases n
  {
    hide Has, InOrder;
    if n <= 1 {
      assert steps + NewGroups(above, mount, n, known) == steps;
    } else {
      DoGroups(f, steps, above, mount, n - 1, known);
      var before := NewGroups(above, mount, n - 1, known);
      var path := above + mount[..n - 1];
      if path in known {
        assert NewGroups(above, mount, n, known) == before;
      } else {
        var step := Step(CreateGroupingDirectory, "", path, "");
        DoOne(f, steps + before, step);
        assert steps + (before + [step]) == steps + before + [step];
      }
    }
  }

  /** The steps of one repository, after its parent has been verified. */
  lemma DoRepository(f: Forest, base: Id, steps: seq<Step>, id: Id, path: Path)
    requires InOrder(f, steps) && id in f && (f[id].parent != "" ==> Has(steps, VerifyRepository, f[id].parent))
    ensures var all := steps + RepositorySteps(f, base, id, path);
            && InOrder(f, all) && Has(all, VerifyRepository, id) && Has(all, CloneRepository, id)
            && forall kind, other | Has(steps, kind, other) :: Has(all, kind, other)
  {
    hide Has, InOrder;
    var s := steps;
    if f[id].parent != "" {
      DoOne(f, s, Step(VerifyParentIgnore, id, path, f[id].parent));
      s := s + [Step(VerifyParentIgnore, id, path, f[id].parent)];
    }
    DoOne(f, s, Step(CloneRepository, id, path, ""));
    s := s + [Step(CloneRepository, id, path, "")];
    DoOne(f, s, Step(FetchSelectedBranch, id, path, ""));
    s := s + [Step(FetchSelectedBranch, id, path, "")];
    DoOne(f, s, Step(CheckoutSelectedBranch, id, path, ""));
    s := s + [Step(CheckoutSelectedBranch, id, path, "")];
    DoOne(f, s, Step(VerifyRepository, id, path, ""));
    s := s + [Step(VerifyRepository, id, path, "")];
    if id == base {
      DoOne(f, s, Step(VerifyTrackedManifest, id, path, ""));
      s := s + [Step(VerifyTrackedManifest, id, path, "")];
      DoOne(f, s, Step(VerifyBaseMetadataIgnore, id, path, ""));
      s := s + [Step(VerifyBaseMetadataIgnore, id, path, "")];
    }
    assert s == steps + RepositorySteps(f, base, id, path);
  }

  // ----- the whole plan

  /** The path is a directory that some mount passes through. */
  ghost predicate IsGrouping(f: Forest, paths: map<Id, Path>, root: Path, placed: seq<Id>, p: Path)
    requires forall id | id in placed :: id in f
  {
    exists id, j: nat :: id in placed && PassesThrough(f, paths, root, id, j, p)
  }

  ghost predicate PassesThrough(f: Forest, paths: map<Id, Path>, root: Path, id: Id, j: nat, p: Path)
    requires id in f
  {
    1 <= j < |f[id].mount| && p == ParentPath(f, paths, root, id) + f[id].mount[..j]
  }

  ghost predicate IsRepository(paths: map<Id, Path>, placed: seq<Id>, p: Path) {
    exists id :: id in placed && id in paths && paths[id] == p
  }

  lemma {:induction false} GroupsAreGroupings(f: Forest, paths: map<Id, Path>, root: Path, placed: seq<Id>, p: Path)
    requires forall id | id in placed :: id in f
    ensures p in GroupsUpTo(f, paths, root, placed) <==> IsGrouping(f, paths, root, placed, p)
  {
    if placed != [] {
      var n := |placed| - 1;
      var id := placed[n];
      GroupsAreGroupings(f, paths, root, placed[..n], p);
      assert placed == placed[..n] + [id];
      var above, mount := ParentPath(f, paths, root, id), f[id].mount;
      hide ParentPath;
      assert forall j | PassesThrough(f, paths, root, id, j, p) :: p in Groups(above, mount, |mount|);
      if p in Groups(above, mount, |mount|) {
        var j :| 1 <= j < |mount| && above + mount[..j] == p;
        assert PassesThrough(f, paths, root, id, j, p);
      }
    }
  }

  /** What holds once the first repositories of the order have been planned. */
  ghost predicate PlannedSoFar(f: Forest, base: Id, root: Path, placed: seq<Id>, paths: map<Id, Path>)
    requires forall id | id in placed :: id in f && id in paths
  {
    var steps := Blocks(f, paths, root, base, placed);
    && CreatedSoFar(f, root, placed, paths, Created(steps))
    && InOrder(f, steps) && forall id | id in placed :: Has(steps, VerifyRepository, id)
  }

  ghost predicate CreatedSoFar(f: Forest, root: Path, placed: seq<Id>, paths: map<Id, Path>, created: seq<Path>)
    requires forall id | id in placed :: id in f && id in paths
  {
    && Distinct(created) && Grounded(root, created)
    && forall p :: p in created <==> IsGrouping(f, paths, root, placed, p) || IsRepository(paths, placed, p)
  }

  lemma UnderAbove(f: Forest, root: Path, id: Id)
    requires "" !in f && AllRooted(f) && id in f
    ensures ParentPath(f, Under(root, f), root, id) == root + Above(f, id)
    ensures Under(root, f)[id] == ParentPath(f, Under(root, f), root, id) + f[id].mount
  {
    AboveAndMount(f, id);
    DepthStep(f, id);
    assert root + (Above(f, id) + f[id].mount) == root + Above(f, id) + f[id].mount;
    assert root + [] == root;
  }

  lemma Associate(a: Path, b: Path, c: Path)
    ensures a + b + c == a + (b + c)
  {
  }

  /** A directory that a mount passes through is not where a repository lies. */
  lemma GroupingsAreApart(f: Forest, base: Id, root: Path, id: Id, j: nat, other: Id)
    requires Accepted(f, base) && id in f && other in f && 1 <= j < |f[id].mount|
    ensures FoldPath(ParentPath(f, Under(root, f), root, id) + f[id].mount[..j]) != FoldPath(Under(root, f)[other])
  {
    GroupingIsNotRepository(f, base, id, j, other);
    UnderAbove(f, root, id);
    var above, within, path := Above(f, id), f[id].mount[..j], PathOf(f, other);
    assert Under(root, f)[other] == root + path;
    hide *;
    OverlapUnderRoot(root, above + within, path);
    Associate(root, above, within);
  }

  lemma RepositoriesAreApart(f: Forest, base: Id, root: Path, id: Id, other: Id)
    requires Accepted(f, base) && id in f && other in f && id != other
    ensures FoldPath(Under(root, f)[id]) != FoldPath(Under(root, f)[other])
  {
    PlacementFollowsAncestry(f, base, id, other);
    OverlapUnderRoot(root, PathOf(f, id), PathOf(f, other));
  }

  /** The paths of the next repository may be created. */
  lemma NextMayCreate(f: Forest, base: Id, root: Path, placed: seq<Id>, id: Id, created: seq<Path>)
    requires Accepted(f, base) && id in f && id !in placed && (f[id].parent != "" ==> f[id].parent in placed)
    requires forall x | x in placed :: x in f
    requires CreatedSoFar(f, root, placed, Under(root, f), created)
    ensures var paths := Under(root, f);
            var above, mount := ParentPath(f, paths, root, id), f[id].mount;
            MayCreate(root, created, GroupsUpTo(f, paths, root, placed), above, mount)
  {
    var paths := Under(root, f);
    var above, mount, known := ParentPath(f, paths, root, id), f[id].mount, GroupsUpTo(f, paths, root, placed);
    if f[id].parent != "" {
      assert IsRepository(paths, placed, above);
    }
    hide Accepted, Distinct, Grounded, ParentPath, GroupsUpTo, Under;
    forall p
      ensures p in known <==> IsGrouping(f, paths, root, placed, p)
    {
      GroupsAreGroupings(f, paths, root, placed, p);
    }
    forall j | 1 <= j < |mount|
      ensures !IsRepository(paths, placed, above + mount[..j])
    {
      forall other | other in placed
        ensures paths[other] != above + mount[..j]
      {
        GroupingsAreApart(f, base, root, id, j, other);
      }
    }
  }

  lemma NextIsNew(f: Forest, base: Id, root: Path, placed: seq<Id>, id: Id)
    requires Accepted(f, base) && id in f && id !in placed && forall x | x in placed :: x in f
    ensures var p := Under(root, f)[id];
            && !IsGrouping(f, Under(root, f), root, placed, p) && !IsRepository(Under(root, f), placed, p)
            && p !in Groups(ParentPath(f, Under(root, f), root, id), f[id].mount, |f[id].mount|)
  {
    var paths := Under(root, f);
    UnderAbove(f, root, id);
    hide Accepted, ParentPath, FoldPath, Under;
    forall other, j: nat | other in placed && PassesThrough(f, paths, root, other, j, paths[id])
      ensures false
    {
      GroupingsAreApart(f, base, root, other, j, id);
    }
    forall other | other in placed
      ensures paths[other] != paths[id]
    {
      RepositoriesAreApart(f, base, root, id, other);
    }
  }

  lemma GroupingsOfOneMore(f: Forest, paths: map<Id, Path>, root: Path, placed: seq<Id>, id: Id, p: Path)
    requires (forall x | x in placed :: x in f) && id in f && id in paths
    ensures IsGrouping(f, paths, root, placed + [id], p) <==>
            || IsGrouping(f, paths, root, placed, p)
            || p in Groups(ParentPath(f, paths, root, id), f[id].mount, |f[id].mount|)
    ensures IsRepository(paths, placed + [id], p) <==> IsRepository(paths, placed, p) || p == paths[id]
  {
    var above, mount := ParentPath(f, paths, root, id), f[id].mount;
    hide ParentPath;
    assert forall x :: x in placed + [id] <==> x in placed || x == id;
    assert forall j | PassesThrough(f, paths, root, id, j, p) :: p in Groups(above, mount, |mount|);
    if p in Groups(above, mount, |mount|) {
      var j :| 1 <= j < |mount| && above + mount[..j] == p;
      assert PassesThrough(f, paths, root, id, j, p);
    }
  }

  /** The clone itself happens inside a directory that is there. */
  lemma CloneIsInside(f: Forest, base: Id, root: Path, id: Id, all: seq<Path>)
    requires Accepted(f, base) && id in f
    requires var above, mount := ParentPath(f, Under(root, f), root, id), f[id].mount;
             (above == root || above in all) && forall p | p in Groups(above, mount, |mount|) :: p in all
    ensures Inside(root, all, Under(root, f)[id])
  {
    var above, mount := ParentPath(f, Under(root, f), root, id), f[id].mount;
    UnderAbove(f, root, id);
    DepthStep(f, id);
    assert MountAllowed(f[id].parent == "", mount);
    if mount == [] {
      assert root + [] == root && above + mount == above;
    } else {
      assert mount[..|mount|] == mount;
      GroupIsInside(root, all, above, mount, |mount|);
    }
  }

  lemma OneMoreCreated(f: Forest, base: Id, root: Path, placed: seq<Id>, id: Id, created: seq<Path>)
    requires Accepted(f, base) && id in f && id !in placed && (f[id].parent != "" ==> f[id].parent in placed)
    requires forall x | x in placed :: x in f
    requires CreatedSoFar(f, root, placed, Under(root, f), created)
    ensures var paths := Under(root, f);
            var above, mount := ParentPath(f, paths, root, id), f[id].mount;
            var groups := Created(NewGroups(above, mount, |mount|, GroupsUpTo(f, paths, root, placed)));
            CreatedSoFar(f, root, placed + [id], paths, created + groups + [paths[id]])
  {
    var paths := Under(root, f);
    var above, mount, known := ParentPath(f, paths, root, id), f[id].mount, GroupsUpTo(f, paths, root, placed);
    var all := created + Created(NewGroups(above, mount, |mount|, known));
    NextMayCreate(f, base, root, placed, id, created);
    assert Distinct(created) && Grounded(root, created);
    CreateGroups(root, created, known, above, mount, |mount|);
    assert Distinct(all) && Grounded(root, all);
    assert forall p :: p in all <==> p in created || p in Groups(above, mount, |mount|);
    assert above == root || above in all;
    NextIsNew(f, base, root, placed, id);
    CloneIsInside(f, base, root, id, all);
    hide Distinct, Grounded, Accepted, ParentPath, GroupsUpTo, Under, NewGroups, Groups, Inside, IsGrouping,
         IsRepository;
    CreateOne(root, all, paths[id]);
    forall p
      ensures p in all + [paths[id]] <==>
              IsGrouping(f, paths, root, placed + [id], p) || IsRepository(paths, placed + [id], p)
    {
      GroupingsOfOneMore(f, paths, root, placed, id, p);
    }
  }

  lemma CreatedByRepository(f: Forest, base: Id, id: Id, path: Path)
    requires id in f
    ensures Created(RepositorySteps(f, base, id, path)) == [path]
  {
    var first := if f[id].parent != "" then [Step(VerifyParentIgnore, id, path, f[id].parent)] else [];
    var clone := Step(CloneRepository, id, path, "");
    var rest := AfterClone(base, id, path);
    assert RepositorySteps(f, base, id, path) == first + [clone] + rest;
    assert forall s | s in first :: !Creates(s);
    hide Created, RepositorySteps, AfterClone;
    CreatedAppend(first + [clone], rest);
    CreatedStep(first, clone);
    NothingCreated(first);
    CreatedAfterClone(base, id, path);
  }

  function AfterClone(base: Id, id: Id, path: Path): seq<Step> {
    [Step(FetchSelectedBranch, id, path, ""), Step(CheckoutSelectedBranch, id, path, ""),
     Step(VerifyRepository, id, path, "")] +
    (if id == base then [Step(VerifyTrackedManifest, id, path, ""),
                         Step(VerifyBaseMetadataIgnore, id, path, "")] else [])
  }

  lemma CreatedAfterClone(base: Id, id: Id, path: Path)
    ensures Created(AfterClone(base, id, path)) == []
  {
    NothingCreated(AfterClone(base, id, path));
  }

  lemma CreatedStep(steps: seq<Step>, step: Step)
    ensures Created(steps + [step]) == Created(steps) + if Creates(step) then [step.path] else []
  {
    assert (steps + [step])[..|steps|] == steps;
  }

  lemma {:induction false} NothingCreated(steps: seq<Step>)
    requires forall s | s in steps :: !Creates(s)
    ensures Created(steps) == []
  {
    if steps != [] {
      NothingCreated(steps[..|steps| - 1]);
    }
  }

  /** The steps of the plan so far, and those of the next repository. */
  lemma NextBlock(f: Forest, paths: map<Id, Path>, root: Path, base: Id, placed: seq<Id>, id: Id)
    requires (forall x | x in placed :: x in f && x in paths) && id in f && id in paths
    ensures var above, mount, known := ParentPath(f, paths, root, id), f[id].mount, GroupsUpTo(f, paths, root, placed);
            var before, groups := Blocks(f, paths, root, base, placed), NewGroups(above, mount, |mount|, known);
            var after := Blocks(f, paths, root, base, placed + [id]);
            && after == before + groups + RepositorySteps(f, base, id, paths[id])
            && Created(after) == Created(before) + Created(groups) + [paths[id]]
  {
    var above, mount, known := ParentPath(f, paths, root, id), f[id].mount, GroupsUpTo(f, paths, root, placed);
    var before, groups := Blocks(f, paths, root, base, placed), NewGroups(above, mount, |mount|, known);
    var order := placed + [id];
    assert order[..|placed|] == placed && order[..|placed| + 1] == order;
    hide ParentPath, GroupsUpTo, NewGroups, Created, RepositorySteps, Blocks;
    OneMoreBlock(f, paths, root, base, order, |placed|);
    CreatedAppend(before + groups, RepositorySteps(f, base, id, paths[id]));
    CreatedAppend(before, groups);
    CreatedByRepository(f, base, id, paths[id]);
  }

  lemma OneMoreInOrder(f: Forest, base: Id, root: Path, placed: seq<Id>, id: Id, paths: map<Id, Path>)
    requires (forall x | x in placed :: x in f && x in paths) && id in f && id in paths
    requires f[id].parent != "" ==> f[id].parent in placed
    requires var steps := Blocks(f, paths, root, base, placed);
             InOrder(f, steps) && forall x | x in placed :: Has(steps, VerifyRepository, x)
    ensures var steps := Blocks(f, paths, root, base, placed + [id]);
            InOrder(f, steps) && forall x | x in placed + [id] :: Has(steps, VerifyRepository, x)
  {
    hide ParentPath, GroupsUpTo, NewGroups, Created, RepositorySteps, Blocks, InOrder, Has;
    var above, mount, known := ParentPath(f, paths, root, id), f[id].mount, GroupsUpTo(f, paths, root, placed);
    var steps, groups := Blocks(f, paths, root, base, placed), NewGroups(above, mount, |mount|, known);
    DoGroups(f, steps, above, mount, |mount|, known);
    DoRepository(f, base, steps + groups, id, paths[id]);
    NextBlock(f, paths, root, base, placed, id);
  }

  /** One more repository is planned. */
  lemma OneMorePlanned(f: Forest, base: Id, root: Path, placed: seq<Id>, id: Id)
    requires Accepted(f, base) && id in f && id !in placed && (f[id].parent != "" ==> f[id].parent in placed)
    requires (forall x | x in placed :: x in f) && PlannedSoFar(f, base, root, placed, Under(root, f))
    ensures PlannedSoFar(f, base, root, placed + [id], Under(root, f))
  {
    var paths := Under(root, f);
    assert id in paths && forall x | x in placed :: x in paths;
    hide Accepted, ParentPath, GroupsUpTo, Under, NewGroups, Created, RepositorySteps, Blocks, CreatedSoFar, InOrder,
         Has;
    OneMoreCreated(f, base, root, placed, id, Created(Blocks(f, paths, root, base, placed)));
    NextBlock(f, paths, root, base, placed, id);
    OneMoreInOrder(f, base, root, placed, id, paths);
  }

  /** What acceptance says of the declarations. */
  lemma AcceptedIsForest(f: Forest, base: Id)
    requires Accepted(f, base)
    ensures "" !in f && Closed(f) && AllRooted(f) && base in f
  {
  }

  ghost predicate Planned(f: Forest, base: Id, root: Path, placed: seq<Id>) {
    AllRooted(f) && (forall id | id in placed :: id in f) && PlannedSoFar(f, base, root, placed, Under(root, f))
  }

  lemma NextIsPlanned(f: Forest, base: Id, root: Path, order: seq<Id>, k: nat)
    requires Accepted(f, base) && RepositoryOrder.IsMetadataFirst(f, base, order) && k < |order|
    requires Planned(f, base, root, order[..k])
    ensures Planned(f, base, root, order[..k + 1])
  {
    hide *;
    AcceptedIsForest(f, base);
    ParentComesFirst(f, base, order, k);
    OneMoreIsPlanned(f, base, root, order[..k], order[k]);
    assert order[..k + 1] == order[..k] + [order[k]];
  }

  lemma OneMoreIsPlanned(f: Forest, base: Id, root: Path, placed: seq<Id>, id: Id)
    requires Accepted(f, base) && id in f && id !in placed && (f[id].parent != "" ==> f[id].parent in placed)
    requires Planned(f, base, root, placed)
    ensures Planned(f, base, root, placed + [id])
  {
    hide Accepted, PlannedSoFar, Under, AllRooted;
    OneMorePlanned(f, base, root, placed, id);
  }

  lemma NothingIsPlanned(f: Forest, base: Id, root: Path)
    requires Accepted(f, base)
    ensures Planned(f, base, root, [])
  {
    AcceptedIsForest(f, base);
    hide Accepted, AllRooted;
    NothingPlanned(f, base, root, Under(root, f));
  }

  lemma NothingPlanned(f: Forest, base: Id, root: Path, paths: map<Id, Path>)
    ensures PlannedSoFar(f, base, root, [], paths)
  {
  }

  lemma {:induction false} AllPlanned(f: Forest, base: Id, root: Path, order: seq<Id>, k: nat)
    requires Accepted(f, base) && RepositoryOrder.IsMetadataFirst(f, base, order) && k <= |order|
    ensures Planned(f, base, root, order[..k])
    decreases k
  {
    hide *;
    if k > 0 {
      AllPlanned(f, base, root, order, k - 1);
      NextIsPlanned(f, base, root, order, k - 1);
    } else {
      assert order[..k] == [];
      NothingIsPlanned(f, base, root);
    }
  }

  lemma ParentComesFirst(f: Forest, base: Id, order: seq<Id>, k: nat)
    requires "" !in f && Closed(f) && AllRooted(f) && RepositoryOrder.IsMetadataFirst(f, base, order) && k < |order|
    ensures order[k] in f && order[k] !in order[..k]
    ensures f[order[k]].parent != "" ==> f[order[k]].parent in order[..k]
  {
    assert order[k] in f.Keys;
    var parent := f[order[k]].parent;
    if parent != "" {
      assert parent in f.Keys;
      var i :| 0 <= i < |order| && order[i] == parent;
      assert Climb(f, order[k], 1) == parent;
      RepositoryOrder.AncestorsComeFirst(f, base, order, i, k);
      assert order[..k][i] == parent;
    }
  }

  /**
   The steps can be carried out: every path is created once, in a directory that is the root or was created before;
   exactly the repositories and the directories their mounts pass through are created; every step comes after what it
   needs; and every repository is verified.
  */
  ghost predicate Executable(f: Forest, root: Path, order: seq<Id>, steps: seq<Step>)
    requires AllRooted(f) && forall id | id in order :: id in f
  {
    var paths := Under(root, f);
    && Distinct(Created(steps)) && Grounded(root, Created(steps))
    && (forall p :: p in Created(steps) <==> IsGrouping(f, paths, root, order, p) || IsRepository(paths, order, p))
    && InOrder(f, steps) && (forall id | id in f :: Has(steps, VerifyRepository, id))
  }

  /** The plan of an accepted manifest can be carried out. */
  lemma ClonePlanIsExecutable(f: Forest, base: Id, root: Path, order: seq<Id>)
    requires Accepted(f, base) && RepositoryOrder.IsMetadataFirst(f, base, order)
    ensures base in f && forall id | id in order :: id in f
    ensures Executable(f, root, order, Plan(f, Under(root, f), root, base, order))
  {
    AcceptedIsForest(f, base);
    AllPlanned(f, base, root, order, |order|);
    assert order[..|order|] == order;
    assert forall id | id in f.Keys :: id in order;
    var paths := Under(root, f);
    hide Executable;
    var blocks, closing := Blocks(f, paths, root, base, order), Closing(root, paths[base]);
    assert CreatedSoFar(f, root, order, paths, Created(blocks)) && InOrder(f, blocks);
    assert forall id | id in f :: Has(blocks, VerifyRepository, id);
    CreatedByClosing(root, paths[base]);
    assert Plan(f, paths, root, base, order) == blocks + closing;
    hide *;
    CreatedAppend(blocks, closing);
    assert Created(blocks) + [] == Created(blocks);
    DoClosing(f, blocks, root, paths[base]);
    CreatedFacts(f, root, order, paths, Created(blocks));
    ExecutableParts(f, root, order, Plan(f, paths, root, base, order));
  }

  /** What it says, part by part. */
  lemma ExecutableParts(f: Forest, root: Path, order: seq<Id>, steps: seq<Step>)
    requires AllRooted(f) && forall id | id in order :: id in f
    ensures var paths := Under(root, f);
            Executable(f, root, order, steps) <==>
            && Distinct(Created(steps)) && Grounded(root, Created(steps))
            && (forall p ::
                  p in Created(steps) <==> IsGrouping(f, paths, root, order, p) || IsRepository(paths, order, p))
            && InOrder(f, steps) && (forall id | id in f :: Has(steps, VerifyRepository, id))
  {
  }

  lemma CreatedFacts(f: Forest, root: Path, placed: seq<Id>, paths: map<Id, Path>, created: seq<Path>)
    requires (forall id | id in placed :: id in f && id in paths) && CreatedSoFar(f, root, placed, paths, created)
    ensures Distinct(created) && Grounded(root, created)
    ensures forall p :: p in created <==> IsGrouping(f, paths, root, placed, p) || IsRepository(paths, placed, p)
  {
  }

  lemma CreatedByClosing(root: Path, basePath: Path)
    ensures Created(Closing(root, basePath)) == []
  {
    NothingCreated(Closing(root, basePath));
  }

  lemma DoClosing(f: Forest, steps: seq<Step>, root: Path, basePath: Path)
    requires InOrder(f, steps) && forall id | id in f :: Has(steps, VerifyRepository, id)
    ensures InOrder(f, steps + Closing(root, basePath))
    ensures forall id | id in f :: Has(steps + Closing(root, basePath), VerifyRepository, id)
  {
    hide Has, InOrder;
    var s := steps;
    DoOne(f, s, Step(WriteLocalConfiguration, "", basePath + [".wtree.yml"], ""));
    s := s + [Step(WriteLocalConfiguration, "", basePath + [".wtree.yml"], "")];
    DoOne(f, s, Step(PublishDestination, "", root, ""));
    s := s + [Step(PublishDestination, "", root, "")];
    DoOne(f, s, Step(PublishWorkspaceState, "", root, ""));
    s := s + [Step(PublishWorkspaceState, "", root, "")];
    DoOne(f, s, Step(RegisterProject, "", root, ""));
    s := s + [Step(RegisterProject, "", root, "")];
    assert s == steps + Closing(root, basePath);
  }

  /** A directory below the root is created before anything under it. */
  lemma {:induction false} DirectoriesComeFirst(root: Path, created: seq<Path>, i: nat, j: nat)
    requires Distinct(created) && Grounded(root, created) && i < |created| && j < |created|
    requires root < created[i] && created[i] < created[j]
    ensures i < j
    decreases |created[j]|
  {
    var p, q := created[i], created[j];
    var directory := q[..|q| - 1];
    assert Inside(root, created[..j], q);
    assert p == q[..|p|];
    assert directory in created[..j];
    var m :| 0 <= m < j && created[m] == directory;
    if directory != p {
      assert p == directory[..|p|];
      DirectoriesComeFirst(root, created, i, m);
    }
  }

  /** Each grouping directory of a plan is created before everything under it. */
  lemma GroupingsComeFirst(f: Forest, base: Id, root: Path, order: seq<Id>, i: nat, j: nat)
    requires Accepted(f, base) && RepositoryOrder.IsMetadataFirst(f, base, order)
    requires base in Under(root, f) && forall id | id in order :: id in f && id in Under(root, f)
    requires var created := Created(Plan(f, Under(root, f), root, base, order));
             i < |created| && j < |created| && created[i] < created[j] &&
             IsGrouping(f, Under(root, f), root, order, created[i])
    ensures i < j
  {
    ClonePlanIsExecutable(f, base, root, order);
    AcceptedIsForest(f, base);
    var created := Created(Plan(f, Under(root, f), root, base, order));
    hide Accepted, Plan, Created, Under, ParentPath, Distinct, Grounded, RepositoryOrder.IsMetadataFirst;
    var id, n: nat :| id in order && PassesThrough(f, Under(root, f), root, id, n, created[i]);
    UnderAbove(f, root, id);
    Associate(root, Above(f, id), f[id].mount[..n]);
    DirectoriesComeFirst(root, created, i, j);
  }

  // ----- where case is ignored

  /** No two of the directories that mounts pass through differ by case alone. */
  ghost predicate GroupingsDiffer(f: Forest, paths: map<Id, Path>, root: Path, order: seq<Id>)
    requires forall id | id in order :: id in f
  {
    forall p, q | IsGrouping(f, paths, root, order, p) && IsGrouping(f, paths, root, order, q) && p != q ::
      FoldPath(p) != FoldPath(q)
  }

  /** Of two paths one of which is a repository, neither is the other in disguise. */
  lemma RepositoriesStandOut(f: Forest, base: Id, root: Path, order: seq<Id>, p: Path, q: Path)
    requires Accepted(f, base) && forall id | id in order :: id in f
    requires IsRepository(Under(root, f), order, p) && p != q
    requires IsGrouping(f, Under(root, f), root, order, q) || IsRepository(Under(root, f), order, q)
    ensures FoldPath(p) != FoldPath(q)
  {
    var paths := Under(root, f);
    hide Accepted, Under, ParentPath, FoldPath;
    var id :| id in order && id in paths && paths[id] == p;
    if IsRepository(paths, order, q) {
      var other :| other in order && other in paths && paths[other] == q;
      RepositoriesAreApart(f, base, root, id, other);
    } else {
      var other, j: nat :| other in order && PassesThrough(f, paths, root, other, j, q);
      GroupingsAreApart(f, base, root, other, j, id);
    }
  }

  /**
   On a file system that ignores case the plan creates nothing twice exactly when no two grouping directories differ by
   case alone; repositories never collide.
  */
  lemma CreatedOnceIgnoringCase(f: Forest, base: Id, root: Path, order: seq<Id>)
    requires Accepted(f, base) && RepositoryOrder.IsMetadataFirst(f, base, order)
    ensures base in Under(root, f) && forall id | id in order :: id in f && id in Under(root, f)
    ensures var created := Created(Plan(f, Under(root, f), root, base, order));
            (forall i, j | 0 <= i < j < |created| :: FoldPath(created[i]) != FoldPath(created[j]))
            <==> GroupingsDiffer(f, Under(root, f), root, order)
  {
    ClonePlanIsExecutable(f, base, root, order);
    AcceptedIsForest(f, base);
    var created := Created(Plan(f, Under(root, f), root, base, order));
    hide *;
    ExecutableParts(f, root, order, Plan(f, Under(root, f), root, base, order));
    if GroupingsDiffer(f, Under(root, f), root, order) {
      DifferSoOnce(f, base, root, order, created);
    }
    if forall i, j | 0 <= i < j < |created| :: FoldPath(created[i]) != FoldPath(created[j]) {
      OnceSoDiffer(f, Under(root, f), root, order, created);
    }
  }

  lemma DifferSoOnce(f: Forest, base: Id, root: Path, order: seq<Id>, created: seq<Path>)
    requires Accepted(f, base) && Distinct(created) && forall id | id in order :: id in f
    requires forall p | p in created ::
               IsGrouping(f, Under(root, f), root, order, p) || IsRepository(Under(root, f), order, p)
    requires GroupingsDiffer(f, Under(root, f), root, order)
    ensures forall i, j | 0 <= i < j < |created| :: FoldPath(created[i]) != FoldPath(created[j])
  {
    var paths := Under(root, f);
    hide Accepted, Under, FoldPath, IsGrouping, IsRepository;
    forall i, j | 0 <= i < j < |created|
      ensures FoldPath(created[i]) != FoldPath(created[j])
    {
      var p, q := created[i], created[j];
      assert p in created && q in created && p != q;
      if IsRepository(paths, order, p) {
        RepositoriesStandOut(f, base, root, order, p, q);
      } else if IsRepository(paths, order, q) {
        RepositoriesStandOut(f, base, root, order, q, p);
      }
    }
  }

  lemma OnceSoDiffer(f: Forest, paths: map<Id, Path>, root: Path, order: seq<Id>, created: seq<Path>)
    requires forall id | id in order :: id in f
    requires forall p | IsGrouping(f, paths, root, order, p) :: p in created
    requires forall i, j | 0 <= i < j < |created| :: FoldPath(created[i]) != FoldPath(created[j])
    ensures GroupingsDiffer(f, paths, root, order)
  {
    hide FoldPath, IsGrouping;
    forall p, q | IsGrouping(f, paths, root, order, p) && IsGrouping(f, paths, root, order, q) && p != q
      ensures FoldPath(p) != FoldPath(q)
    {
      var i :| 0 <= i < |created| && created[i] == p;
      var j :| 0 <= j < |created| && created[j] == q;
    }
  }

  /** The mounts A/b and a/c of two top-level repositories. */
  function Aliasing(): Forest {
    map["x" := Repository("", ["A", "b"]), "y" := Repository("", ["a", "c"])]
  }

  lemma LettersAreAllowed(c: string)
    requires c in {"A", "a", "b", "c"}
    ensures AllowedComponent(c)
  {
    assert BeforeDot(c[1..]) == "";
    assert BeforeDot(c) == [c[0]];
    assert |Fold(BeforeDot(c))| == 1 && |Fold(c)| == 1;
  }

  lemma AliasingIsDeclared()
    ensures Aliasing().Keys == {"x", "y"} && WellDeclared(Aliasing(), "x")
  {
    LettersAreAllowed("A");
    LettersAreAllowed("a");
    LettersAreAllowed("b");
    LettersAreAllowed("c");
    hide AllowedComponent;
  }

  lemma AliasingPaths()
    ensures var f := Aliasing();
            && AllRooted(f) && PathOf(f, "x") == ["A", "b"] && PathOf(f, "y") == ["a", "c"]
  {
    var f := Aliasing();
    assert f.Keys == {"x", "y"};
    assert HasDepth(f, "x", 0) && HasDepth(f, "y", 0);
    DepthStep(f, "x");
    DepthStep(f, "y");
  }

  lemma AliasingIsAccepted()
    ensures Accepted(Aliasing(), "x")
  {
    var f := Aliasing();
    AliasingIsDeclared();
    AliasingPaths();
    hide Aliasing, WellDeclared, PathOf, AllRooted;
    assert Fold("b")[0] == 'b' && Fold("c")[0] == 'c';
    assert FoldPath(["A", "b"])[1] != FoldPath(["a", "c"])[1];
    assert !Overlap(["A", "b"], ["a", "c"]) && !Overlap(["a", "c"], ["A", "b"]);
  }

  lemma TwoComponents(f: Forest, paths: map<Id, Path>, order: seq<Id>, id: Id, first: string, second: string)
    requires (forall x | x in order :: x in f) && "" !in paths
    requires id in order && f[id] == Repository("", [first, second])
    ensures IsGrouping(f, paths, [], order, [first])
  {
    assert [first, second][..1] == [first];
    assert PassesThrough(f, paths, [], id, 1, [first]);
  }

  lemma AlikeNames()
    ensures FoldPath(["A"]) == FoldPath(["a"]) && ["A"] != ["a"]
  {
    assert Fold("A") == Fold("a");
    assert ["A"][0] != ["a"][0];
  }

  lemma AliasingOrder()
    ensures RepositoryOrder.IsMetadataFirst(Aliasing(), "x", ["x", "y"])
  {
    var f, s := Aliasing(), ["x", "y"];
    AliasingIsDeclared();
    AliasingPaths();
    DepthStep(f, "x");
    DepthStep(f, "y");
    var depths := RepositoryOrder.Depths(f);
    assert RepositoryOrder.At(depths, "x") == 0 && RepositoryOrder.At(depths, "y") == 0;
    assert "x"[0] != "y"[0];
    assert s[0] == "x" && s[1] == "y";
    assert RepositoryOrder.MetadataFirstLess(depths, "x")(s[0], s[1]);
    hide Aliasing, RepositoryOrder.Depths;
    assert Ascending(s, RepositoryOrder.MetadataFirstLess(depths, "x"));
    assert forall x :: x in s <==> x == "x" || x == "y";
  }

  /**
   Grouping directories are told apart by their exact names: the plan of an accepted manifest, in its metadata-first
   order, may create two paths that are one where case is ignored.
  */
  lemma GroupingsMayAlias()
    ensures Accepted(Aliasing(), "x") && RepositoryOrder.IsMetadataFirst(Aliasing(), "x", ["x", "y"])
    ensures "x" in Under([], Aliasing())
    ensures forall id | id in ["x", "y"] :: id in Aliasing() && id in Under([], Aliasing())
    ensures var created := Created(Plan(Aliasing(), Under([], Aliasing()), [], "x", ["x", "y"]));
            exists i, j :: 0 <= i < j < |created| && FoldPath(created[i]) == FoldPath(created[j])
  {
    AliasingIsAccepted();
    AliasingOrder();
    hide *;
    GroupingsDoAlias();
    AcceptedIsForest(Aliasing(), "x");
    CreatedOnceIgnoringCase(Aliasing(), "x", [], ["x", "y"]);
    var created := Created(Plan(Aliasing(), Under([], Aliasing()), [], "x", ["x", "y"]));
    assert !forall i, j | 0 <= i < j < |created| :: FoldPath(created[i]) != FoldPath(created[j]);
  }

  lemma GroupingsDoAlias()
    ensures Accepted(Aliasing(), "x")
    ensures forall id | id in ["x", "y"] :: id in Aliasing()
    ensures !GroupingsDiffer(Aliasing(), Under([], Aliasing()), [], ["x", "y"])
  {
    AliasingIsAccepted();
    AliasingIsDeclared();
    AlikeNames();
    var f := Aliasing();
    assert f["x"] == Repository("", ["A", "b"]) && f["y"] == Repository("", ["a", "c"]);
    assert "" !in Under([], f);
    hide Accepted, Under, Aliasing, IsGrouping, FoldPath;
    assert forall id | id in ["x", "y"] :: id in f;
    TwoComponents(f, Under([], f), ["x", "y"], "x", "A", "b");
    TwoComponents(f, Under([], f), ["x", "y"], "y", "a", "c");
  }
}
