/** Exactly which steps a clone plan has, each of them once (internal/service/clone_plan.go:709-760). */
module ClonePlanSteps {
  import opened Forest
  import opened Ordering
  import opened Mounts
  import opened Placement
  import opened ProjectPaths
  import opened ClonePlan
  import opened ClonePlanTheorems
  import RepositoryOrder

  // ----- which steps there are

  /** The steps that the repositories placed so far call for. */
  ghost predicate CalledFor(f: Forest, paths: map<Id, Path>, root: Path, base: Id, placed: seq<Id>, s: Step)
    requires forall id | id in placed :: id in f && id in paths
  {
    match s.kind
    case CreateGroupingDirectory => s.id == "" && s.parent == "" && IsGrouping(f, paths, root, placed, s.path)
    case VerifyParentIgnore =>
      s.id in placed && s.path == paths[s.id] && s.parent != "" && s.parent == f[s.id].parent
    case CloneRepository | FetchSelectedBranch | CheckoutSelectedBranch | VerifyRepository =>
      s.id in placed && s.path == paths[s.id] && s.parent == ""
    case VerifyTrackedManifest | VerifyBaseMetadataIgnore =>
      s.id == base && s.id in placed && s.path == paths[s.id] && s.parent == ""
    case _ => false
  }

  /** The steps of the whole plan. */
  ghost predicate Called(f: Forest, paths: map<Id, Path>, root: Path, base: Id, order: seq<Id>, s: Step)
    requires base in paths && forall id | id in order :: id in f && id in paths
  {
    || CalledFor(f, paths, root, base, order, s)
    || s == Step(WriteLocalConfiguration, "", paths[base] + [".wtree.yml"], "")
    || (s == Step(s.kind, "", root, "") && s.kind in {PublishDestination, PublishWorkspaceState, RegisterProject})
  }

  lemma {:induction false} NewGroupSteps(above: Path, mount: Path, n: nat, created: set<Path>, s: Step)
    requires n <= |mount|
    ensures s in NewGroups(above, mount, n, created) <==>
            && s == Step(CreateGroupingDirectory, "", s.path, "")
            && s.path in Groups(above, mount, n) && s.path !in created
  {
    if n > 1 {
      NewGroupSteps(above, mount, n - 1, created, s);
      assert Groups(above, mount, n) == Groups(above, mount, n - 1) + {above + mount[..n - 1]};
    }
  }

  lemma StepsOfOne(f: Forest, paths: map<Id, Path>, root: Path, base: Id, id: Id, s: Step)
    requires id in f && id in paths
    ensures s in RepositorySteps(f, base, id, paths[id]) <==>
            s.kind != CreateGroupingDirectory && CalledFor(f, paths, root, base, [id], s)
  {
    RepositoryStep(f, base, id, paths[id], s);
    hide IsGrouping, RepositorySteps;
    assert s.id in [id] <==> s.id == id;
  }

  lemma RepositoryStep(f: Forest, base: Id, id: Id, path: Path, s: Step)
    requires id in f
    ensures s in RepositorySteps(f, base, id, path) <==>
            || (f[id].parent != "" && s == Step(VerifyParentIgnore, id, path, f[id].parent))
            || (s == Step(s.kind, id, path, "") &&
                (|| s.kind in {CloneRepository, FetchSelectedBranch, CheckoutSelectedBranch, VerifyRepository}
                 || (id == base && s.kind in {VerifyTrackedManifest, VerifyBaseMetadataIgnore})))
  {
  }

  lemma CalledForOneMore(f: Forest, paths: map<Id, Path>, root: Path, base: Id, placed: seq<Id>, id: Id, s: Step)
    requires (forall x | x in placed :: x in f && x in paths) && id in f && id in paths
    ensures var groups := Groups(ParentPath(f, paths, root, id), f[id].mount, |f[id].mount|);
            CalledFor(f, paths, root, base, placed + [id], s) <==>
            || CalledFor(f, paths, root, base, placed, s)
            || (s == Step(CreateGroupingDirectory, "", s.path, "") && s.path in groups)
            || (s.kind != CreateGroupingDirectory && CalledFor(f, paths, root, base, [id], s))
  {
    GroupingsOfOneMore(f, paths, root, placed, id, s.path);
    hide IsGrouping, Groups, ParentPath;
    assert s.id in placed + [id] <==> s.id in placed || s.id == id;
  }

  lemma {:induction false} BlocksAreCalledFor(f: Forest, paths: map<Id, Path>, root: Path, base: Id, placed: seq<Id>,
                                              s: Step)
    requires forall x | x in placed :: x in f && x in paths
    ensures s in Blocks(f, paths, root, base, placed) <==> CalledFor(f, paths, root, base, placed, s)
  {
    if placed != [] {
      var n := |placed| - 1;
      var before, id := placed[..n], placed[n];
      assert placed == before + [id];
      BlocksAreCalledFor(f, paths, root, base, before, s);
      NextBlock(f, paths, root, base, before, id);
      var above, mount, known := ParentPath(f, paths, root, id), f[id].mount, GroupsUpTo(f, paths, root, before);
      NewGroupSteps(above, mount, |mount|, known, s);
      GroupsAreGroupings(f, paths, root, before, s.path);
      StepsOfOne(f, paths, root, base, id, s);
      CalledForOneMore(f, paths, root, base, before, id, s);
      GroupingIsCalledFor(f, paths, root, base, before, s);
      hide *;
    }
  }

  lemma GroupingIsCalledFor(f: Forest, paths: map<Id, Path>, root: Path, base: Id, placed: seq<Id>, s: Step)
    requires forall x | x in placed :: x in f && x in paths
    ensures s == Step(CreateGroupingDirectory, "", s.path, "") ==>
              (CalledFor(f, paths, root, base, placed, s) <==> IsGrouping(f, paths, root, placed, s.path))
  {
  }

  // ----- each of them once

  lemma {:induction false} CreatedOf(steps: seq<Step>, i: nat)
    requires i < |steps| && Creates(steps[i])
    ensures steps[i].path in Created(steps)
  {
    if i < |steps| - 1 {
      CreatedOf(steps[..|steps| - 1], i);
    }
  }

  /** Where no path is created twice, no creating step is there twice. */
  lemma {:induction false} CreatingOnce(steps: seq<Step>, i: nat, j: nat)
    requires Distinct(Created(steps)) && i < j < |steps| && Creates(steps[i])
    ensures steps[i] != steps[j]
  {
    var n := |steps| - 1;
    var before := steps[..n];
    assert steps == before + [steps[n]];
    CreatedStep(before, steps[n]);
    if j < n {
      assert forall k | 0 <= k < |Created(before)| :: Created(before)[k] == Created(steps)[k];
      CreatingOnce(before, i, j);
    } else {
      CreatedOf(before, i);
      var created := Created(before);
      var k :| 0 <= k < |created| && created[k] == steps[i].path;
      assert Created(steps)[k] == steps[i].path;
      assert Creates(steps[n]) ==> Created(steps)[|created|] == steps[n].path;
    }
  }

  lemma OnceTogether(a: seq<Step>, b: seq<Step>)
    requires Distinct(a) && Distinct(b) && forall s | s in b :: s !in a
    ensures Distinct(a + b)
  {
    forall i, j | 0 <= i < j < |a + b|
      ensures (a + b)[i] != (a + b)[j]
    {
      assert i < |a| <= j ==> b[j - |a|] in b && a[i] in a;
    }
  }

  lemma RepositoryStepsOnce(f: Forest, base: Id, id: Id, path: Path)
    requires id in f
    ensures Distinct(RepositorySteps(f, base, id, path))
  {
    var first := if f[id].parent != "" then [Step(VerifyParentIgnore, id, path, f[id].parent)] else [];
    var middle := [Step(CloneRepository, id, path, ""), Step(FetchSelectedBranch, id, path, ""),
                   Step(CheckoutSelectedBranch, id, path, ""), Step(VerifyRepository, id, path, "")];
    var last := if id == base then [Step(VerifyTrackedManifest, id, path, ""),
                                    Step(VerifyBaseMetadataIgnore, id, path, "")] else [];
    assert RepositorySteps(f, base, id, path) == first + middle + last;
    OnceTogether(first, middle);
    OnceTogether(first + middle, last);
  }

  /** The steps of the next repository are new. */
  lemma OneMoreOnce(f: Forest, paths: map<Id, Path>, root: Path, base: Id, placed: seq<Id>, id: Id)
    requires (forall x | x in placed :: x in f && x in paths) && id in f && id in paths && id !in placed && id != ""
    requires Distinct(Blocks(f, paths, root, base, placed))
    requires Distinct(Created(Blocks(f, paths, root, base, placed + [id])))
    ensures Distinct(Blocks(f, paths, root, base, placed + [id]))
  {
    hide Blocks, GroupsUpTo, NewGroups, ParentPath, RepositorySteps, CalledFor, Created, Distinct;
    NextBlock(f, paths, root, base, placed, id);
    var above, mount, known := ParentPath(f, paths, root, id), f[id].mount, GroupsUpTo(f, paths, root, placed);
    var before, groups := Blocks(f, paths, root, base, placed), NewGroups(above, mount, |mount|, known);
    var own := RepositorySteps(f, base, id, paths[id]);
    forall s
      ensures s in before ==> s.id == "" || s.id in placed
      ensures s in groups ==> Creates(s) && s.id == ""
      ensures s in own ==> s.id == id
    {
      BlocksAreCalledFor(f, paths, root, base, placed, s);
      NewGroupSteps(above, mount, |mount|, known, s);
      StepsOfOne(f, paths, root, base, id, s);
      IdsOfSteps(f, paths, root, base, placed, s);
      IdsOfSteps(f, paths, root, base, [id], s);
    }
    GroupsOnce(before, groups, Created(groups), paths[id]);
    RepositoryStepsOnce(f, base, id, paths[id]);
    OnceTogether(before + groups, own);
  }

  lemma IdsOfSteps(f: Forest, paths: map<Id, Path>, root: Path, base: Id, placed: seq<Id>, s: Step)
    requires forall x | x in placed :: x in f && x in paths
    ensures CalledFor(f, paths, root, base, placed, s) ==>
              if s.kind == CreateGroupingDirectory then s.id == "" else s.id in placed
  {
  }

  /** Creating steps at the end of a list that creates nothing twice. */
  lemma GroupsOnce(before: seq<Step>, groups: seq<Step>, created: seq<Path>, path: Path)
    requires Distinct(before) && created == Created(groups) && Distinct(Created(before) + created + [path])
    requires forall s | s in groups :: Creates(s)
    ensures Distinct(before + groups)
  {
    var all := before + groups;
    CreatedAppend(before, groups);
    assert forall k | 0 <= k < |Created(all)| :: Created(all)[k] == (Created(before) + created + [path])[k];
    hide Created;
    forall i, j | 0 <= i < j < |all|
      ensures all[i] != all[j]
    {
      if Creates(all[i]) {
        CreatingOnce(all, i, j);
      } else if j >= |before| {
        assert groups[j - |before|] in groups;
      }
    }
  }

  lemma PrefixOnce<T(!new)>(prefix: seq<T>, all: seq<T>)
    requires prefix <= all && Distinct(all)
    ensures Distinct(prefix)
    ensures prefix < all ==> all[|prefix|] !in prefix
  {
  }

  lemma {:induction false} BlocksOnce(f: Forest, paths: map<Id, Path>, root: Path, base: Id, placed: seq<Id>)
    requires (forall x | x in placed :: x in f && x in paths) && Distinct(placed) && "" !in placed
    requires Distinct(Created(Blocks(f, paths, root, base, placed)))
    ensures Distinct(Blocks(f, paths, root, base, placed))
  {
    if placed != [] {
      var n := |placed| - 1;
      var before, id := placed[..n], placed[n];
      assert placed == before + [id];
      hide Blocks, Created, GroupsUpTo, NewGroups, ParentPath, RepositorySteps;
      NextBlock(f, paths, root, base, before, id);
      var earlier, all := Created(Blocks(f, paths, root, base, before)), Created(Blocks(f, paths, root, base, placed));
      assert earlier <= all;
      PrefixOnce(earlier, all);
      PrefixOnce(before, placed);
      hide Distinct;
      BlocksOnce(f, paths, root, base, before);
      OneMoreOnce(f, paths, root, base, before, id);
    }
  }

  // ----- main theorem

  /**
   The steps are exactly those that the repositories call for and the four closing ones, each of them once, and the
   closing ones at the end, in this order.
  */
  ghost predicate Exact(f: Forest, paths: map<Id, Path>, root: Path, base: Id, order: seq<Id>, steps: seq<Step>)
    requires base in paths && forall id | id in order :: id in f && id in paths
  {
    && Distinct(steps) && (forall s :: s in steps <==> Called(f, paths, root, base, order, s))
    && |steps| >= 4 && steps[|steps| - 4].kind == WriteLocalConfiguration
    && steps[|steps| - 3].kind == PublishDestination && steps[|steps| - 2].kind == PublishWorkspaceState
    && steps[|steps| - 1].kind == RegisterProject
  }

  /** The plan of an accepted manifest has exactly these steps. */
  lemma StepsAreExact(f: Forest, base: Id, root: Path, order: seq<Id>)
    requires Accepted(f, base) && RepositoryOrder.IsMetadataFirst(f, base, order)
    ensures var paths := Under(root, f);
            && base in paths && (forall id | id in order :: id in f && id in paths)
            && Exact(f, paths, root, base, order, Plan(f, paths, root, base, order))
  {
    AcceptedIsForest(f, base);
    PlanCreatesOnce(f, base, root, order);
    assert forall id | id in order :: id in f.Keys;
    hide Exact, Plan, Called, Blocks, Created;
    PlanIsExact(f, Under(root, f), root, base, order);
  }

  lemma PlanIsExact(f: Forest, paths: map<Id, Path>, root: Path, base: Id, order: seq<Id>)
    requires base in paths && (forall id | id in order :: id in f && id in paths) && Distinct(order) && "" !in order
    requires Distinct(Created(Blocks(f, paths, root, base, order)))
    ensures Exact(f, paths, root, base, order, Plan(f, paths, root, base, order))
  {
    var blocks, closing := Blocks(f, paths, root, base, order), Closing(root, paths[base]);
    var steps := Plan(f, paths, root, base, order);
    assert steps == blocks + closing;
    hide Blocks, Created, Plan, CalledFor, Called;
    BlocksOnce(f, paths, root, base, order);
    forall s
      ensures s in blocks <==> CalledFor(f, paths, root, base, order, s)
    {
      BlocksAreCalledFor(f, paths, root, base, order, s);
    }
    ClosingSteps(f, paths, root, base, order);
    hide Closing;
    OnceTogether(blocks, closing);
    assert forall s :: s in steps <==> s in blocks || s in closing;
  }

  lemma ClosingSteps(f: Forest, paths: map<Id, Path>, root: Path, base: Id, order: seq<Id>)
    requires base in paths && forall id | id in order :: id in f && id in paths
    ensures var closing := Closing(root, paths[base]);
            && |closing| == 4 && closing[0].kind == WriteLocalConfiguration && closing[1].kind == PublishDestination
            && closing[2].kind == PublishWorkspaceState && closing[3].kind == RegisterProject
            && Distinct(closing) && (forall s | s in closing :: !CalledFor(f, paths, root, base, order, s))
            && forall s :: Called(f, paths, root, base, order, s) <==>
                           CalledFor(f, paths, root, base, order, s) || s in closing
  {
  }

  lemma PlanCreatesOnce(f: Forest, base: Id, root: Path, order: seq<Id>)
    requires Accepted(f, base) && RepositoryOrder.IsMetadataFirst(f, base, order)
    ensures forall id | id in order :: id in f && id in Under(root, f)
    ensures Distinct(Created(Blocks(f, Under(root, f), root, base, order)))
  {
    AllPlanned(f, base, root, order, |order|);
    assert order[..|order|] == order;
    hide Accepted, Blocks, Created, InOrder, Has, Distinct, Grounded;
  }
}
