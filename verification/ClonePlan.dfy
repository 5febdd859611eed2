/** The actions of a clone plan and the order they come in (internal/service/clone_plan.go:709-760). */
module ClonePlan {
  import opened Forest
  import opened Ordering
  import opened Mounts
  import opened Placement
  import RepositoryOrder

  datatype Kind =
    | CreateGroupingDirectory | VerifyParentIgnore | CloneRepository | FetchSelectedBranch | CheckoutSelectedBranch
    | VerifyRepository | VerifyTrackedManifest | VerifyBaseMetadataIgnore | WriteLocalConfiguration
    | PublishDestination | PublishWorkspaceState | RegisterProject

  datatype Step = Step(kind: Kind, id: Id, path: Path, parent: Id)

  /** One numbered action of the plan. */
  datatype Action = Action(sequence: nat, step: Step)

  function Numbered(steps: seq<Step>): (actions: seq<Action>)
    ensures |actions| == |steps|
    ensures forall i | 0 <= i < |steps| :: actions[i] == Action(i + 1, steps[i])
  {
    seq(|steps|, i requires 0 <= i < |steps| => Action(i + 1, steps[i]))
  }

  // ----- the steps of one repository

  function ParentPath(f: Forest, paths: map<Id, Path>, root: Path, id: Id): Path {
    if id in f && f[id].parent in paths then paths[f[id].parent] else root
  }

  /** The directories between the parent and the repository, for the first n components of the mount. */
  function Groups(above: Path, mount: Path, n: nat): set<Path>
    requires n <= |mount|
  {
    set j | 1 <= j < n :: above + mount[..j]
  }

  /** The steps that create those of them that are not there yet, outermost first. */
  function NewGroups(above: Path, mount: Path, n: nat, created: set<Path>): seq<Step>
    requires n <= |mount|
  {
    if n <= 1 then []
    else
      var path := above + mount[..n - 1];
      NewGroups(above, mount, n - 1, created) +
      (if path in created then [] else [Step(CreateGroupingDirectory, "", path, "")])
  }

  function RepositorySteps(f: Forest, base: Id, id: Id, path: Path): seq<Step>
    requires id in f
  {
    (if f[id].parent != "" then [Step(VerifyParentIgnore, id, path, f[id].parent)] else []) +
    [Step(CloneRepository, id, path, ""), Step(FetchSelectedBranch, id, path, ""),
     Step(CheckoutSelectedBranch, id, path, ""), Step(VerifyRepository, id, path, "")] +
    (if id == base then [Step(VerifyTrackedManifest, id, path, ""),
                         Step(VerifyBaseMetadataIgnore, id, path, "")] else [])
  }

  function Block(f: Forest, paths: map<Id, Path>, root: Path, base: Id, id: Id, created: set<Path>): seq<Step>
    requires id in f && id in paths
  {
    NewGroups(ParentPath(f, paths, root, id), f[id].mount, |f[id].mount|, created) +
    RepositorySteps(f, base, id, paths[id])
  }

  // ----- the whole plan

  function GroupsUpTo(f: Forest, paths: map<Id, Path>, root: Path, order: seq<Id>): set<Path>
    requires forall id | id in order :: id in f
  {
    if order == [] then {}
    else
      var id := order[|order| - 1];
      GroupsUpTo(f, paths, root, order[..|order| - 1]) +
      Groups(ParentPath(f, paths, root, id), f[id].mount, |f[id].mount|)
  }

  function Blocks(f: Forest, paths: map<Id, Path>, root: Path, base: Id, order: seq<Id>): seq<Step>
    requires forall id | id in order :: id in f && id in paths
  {
    if order == [] then []
    else
      var rest, id := order[..|order| - 1], order[|order| - 1];
      Blocks(f, paths, root, base, rest) + Block(f, paths, root, base, id, GroupsUpTo(f, paths, root, rest))
  }

  function Closing(root: Path, basePath: Path): seq<Step> {
    [Step(WriteLocalConfiguration, "", basePath + [".wtree.yml"], ""), Step(PublishDestination, "", root, ""),
     Step(PublishWorkspaceState, "", root, ""), Step(RegisterProject, "", root, "")]
  }

  /** The plan for the repositories in the given order. */
  function Plan(f: Forest, paths: map<Id, Path>, root: Path, base: Id, order: seq<Id>): seq<Step>
    requires base in paths && forall id | id in order :: id in f && id in paths
  {
    Blocks(f, paths, root, base, order) + Closing(root, paths[base])
  }

  // ----- the program

  /** Adds one action with the next number. */
  function Add(actions: seq<Action>, step: Step): seq<Action> {
    actions + [Action(|actions| + 1, step)]
  }

  lemma AddNumbers(steps: seq<Step>, step: Step)
    ensures Add(Numbered(steps), step) == Numbered(steps + [step])
  {
  }

  /** The grouping directories of one mount, from the innermost outwards, as the program collects them. */
  method Directories(mount: Path) returns (directories: seq<Path>)
    ensures |directories| == if |mount| == 0 then 0 else |mount| - 1
    ensures forall k | 0 <= k < |directories| :: directories[k] == mount[..|mount| - 1 - k]
  {
    directories := [];
    var length: int := |mount| - 1;
    while length > 0
      invariant |mount| == 0 || 0 <= length == |mount| - 1 - |directories|
      invariant |mount| == 0 ==> |directories| == 0 && length < 0
      invariant forall k | 0 <= k < |directories| :: directories[k] == mount[..|mount| - 1 - k]
      decreases length
    {
      directories := directories + [mount[..length]];
      length := length - 1;
    }
  }

  /** Creates the missing grouping directories of one repository, outermost first. */
  method AddGroupings(actions: seq<Action>, created: set<Path>, above: Path, mount: Path, ghost steps: seq<Step>)
      returns (actions': seq<Action>, created': set<Path>)
    requires actions == Numbered(steps)
    ensures actions' == Numbered(steps + NewGroups(above, mount, |mount|, created))
    ensures created' == created + Groups(above, mount, |mount|)
  {
    actions', created' := actions, created;
    var directories := Directories(mount);
    var index := |directories|;
    ghost var n: nat := if |mount| == 0 then 0 else 1;
    assert steps + NewGroups(above, mount, n, created) == steps;
    while index > 0
      invariant 0 <= index <= |directories| && n <= |mount|
      invariant |mount| == 0 ==> n == 0 && index == 0
      invariant |mount| > 0 ==> n == |mount| - index
      invariant actions' == Numbered(steps + NewGroups(above, mount, n, created))
      invariant created' == created + Groups(above, mount, n)
    {
      index := index - 1;
      var path := above + directories[index];
      OneMoreGroup(above, mount, n, created, steps);
      if path !in created' {
        actions' := Add(actions', Step(CreateGroupingDirectory, "", path, ""));
        created' := created' + {path};
      }
      n := n + 1;
    }
  }

  lemma OneMoreGroup(above: Path, mount: Path, n: nat, created: set<Path>, steps: seq<Step>)
    requires 1 <= n < |mount|
    ensures var path := above + mount[..n];
            && path !in Groups(above, mount, n)
            && Groups(above, mount, n + 1) == Groups(above, mount, n) + {path}
            && Numbered(steps + NewGroups(above, mount, n + 1, created)) ==
               if path in created then Numbered(steps + NewGroups(above, mount, n, created))
               else Add(Numbered(steps + NewGroups(above, mount, n, created)),
                        Step(CreateGroupingDirectory, "", path, ""))
  {
    var path := above + mount[..n];
    var before := NewGroups(above, mount, n, created);
    forall j | 1 <= j < n
      ensures above + mount[..j] != path
    {
      assert |above + mount[..j]| != |path|;
    }
    if path in created {
      assert NewGroups(above, mount, n + 1, created) == before;
    } else {
      var step := Step(CreateGroupingDirectory, "", path, "");
      AddNumbers(steps + before, step);
      assert steps + (before + [step]) == steps + before + [step];
    }
  }

  /** Adds the steps of one repository. */
  method AddRepository(actions: seq<Action>, f: Forest, base: Id, id: Id, path: Path, ghost steps: seq<Step>)
      returns (actions': seq<Action>)
    requires id in f && actions == Numbered(steps)
    ensures actions' == Numbered(steps + RepositorySteps(f, base, id, path))
  {
    actions' := actions;
    if f[id].parent != "" {
      actions' := Add(actions', Step(VerifyParentIgnore, id, path, f[id].parent));
    }
    actions' := Add(actions', Step(CloneRepository, id, path, ""));
    actions' := Add(actions', Step(FetchSelectedBranch, id, path, ""));
    actions' := Add(actions', Step(CheckoutSelectedBranch, id, path, ""));
    actions' := Add(actions', Step(VerifyRepository, id, path, ""));
    if id == base {
      actions' := Add(actions', Step(VerifyTrackedManifest, id, path, ""));
      actions' := Add(actions', Step(VerifyBaseMetadataIgnore, id, path, ""));
    }
  }

  /** The action list of a plan. */
  method ClonePlanActions(f: Forest, paths: map<Id, Path>, root: Path, base: Id, order: seq<Id>)
      returns (actions: seq<Action>)
    requires "" !in paths && base in paths && forall id | id in order :: id in f && id in paths
    ensures actions == Numbered(Plan(f, paths, root, base, order))
  {
    actions := [];
    var created: set<Path> := {};
    assert Blocks(f, paths, root, base, order[..0]) == [];
    hide Blocks, GroupsUpTo, NewGroups, RepositorySteps, Groups, Closing, ParentPath;
    for k := 0 to |order|
      invariant actions == Numbered(Blocks(f, paths, root, base, order[..k]))
      invariant created == GroupsUpTo(f, paths, root, order[..k])
    {
      var id := order[k];
      var above := ParentPath(f, paths, root, id);
      ghost var before := Blocks(f, paths, root, base, order[..k]);
      ghost var groups := NewGroups(above, f[id].mount, |f[id].mount|, created);
      actions, created := AddGroupings(actions, created, above, f[id].mount, before);
      actions := AddRepository(actions, f, base, id, paths[id], before + groups);
      OneMoreBlock(f, paths, root, base, order, k);
    }
    assert order[..|order|] == order;
    actions := AddAll(actions, Closing(root, paths[base]), Blocks(f, paths, root, base, order));
  }

  lemma OneMoreBlock(f: Forest, paths: map<Id, Path>, root: Path, base: Id, order: seq<Id>, k: nat)
    requires k < |order| && forall id | id in order :: id in f && id in paths
    ensures var id, before, created := order[k], order[..k], GroupsUpTo(f, paths, root, order[..k]);
            var above, mount := ParentPath(f, paths, root, id), f[id].mount;
            && Blocks(f, paths, root, base, order[..k + 1]) ==
               Blocks(f, paths, root, base, before) + NewGroups(above, mount, |mount|, created) +
               RepositorySteps(f, base, id, paths[id])
            && GroupsUpTo(f, paths, root, order[..k + 1]) == created + Groups(above, mount, |mount|)
  {
    assert order[..k + 1][..k] == order[..k];
    hide NewGroups, RepositorySteps, Groups, ParentPath;
  }

  method AddAll(actions: seq<Action>, more: seq<Step>, ghost steps: seq<Step>) returns (actions': seq<Action>)
    requires actions == Numbered(steps)
    ensures actions' == Numbered(steps + more)
  {
    actions' := actions;
    for i := 0 to |more|
      invariant actions' == Numbered(steps + more[..i])
    {
      actions' := Add(actions', more[i]);
      assert steps + more[..i + 1] == steps + more[..i] + [more[i]];
    }
    assert more[..|more|] == more;
  }
}
