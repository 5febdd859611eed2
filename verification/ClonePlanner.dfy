/**
 Planning a clone: the checked manifest, the order of its repositories, their paths and the actions
 (internal/service/clone_plan.go:360-393).
*/
module ClonePlanner {
  import opened Options
  import opened Forest
  import opened Ordering
  import opened Mounts
  import opened Placement
  import opened ProjectPaths
  import opened ClonePlan
  import opened ClonePlanTheorems
  import opened ClonePlanSteps
  import RepositoryOrder

  /** Some of the repositories of the manifest are listed, the others remain. */
  ghost predicate Listed(f: Forest, entries: seq<Entry>, remaining: Forest) {
    && remaining.Keys <= f.Keys && (forall id | id in remaining :: remaining[id] == f[id])
    && Declares(entries, f - remaining.Keys)
  }

  lemma ListOneMore(f: Forest, entries: seq<Entry>, remaining: Forest, id: Id)
    requires Listed(f, entries, remaining) && id in remaining
    ensures Listed(f, entries + [Entry(id, remaining[id])], remaining - {id})
  {
    var before := f - remaining.Keys;
    DeclareOneMore(entries, before, Entry(id, f[id]));
    assert f - (remaining - {id}).Keys == before[id := f[id]];
  }

  lemma AllListed(f: Forest, entries: seq<Entry>)
    ensures Listed(f, entries, map[]) <==> Declares(entries, f)
    ensures Listed(f, [], f)
  {
    assert f - {} == f && f - f.Keys == map[];
  }

  /** The project that a manifest describes, with its repositories in no particular order. */
  method CloneDomainProject(f: Forest) returns (entries: seq<Entry>)
    ensures Declares(entries, f)
  {
    hide Listed, Declares;
    entries := [];
    var remaining := f;
    AllListed(f, entries);
    while |remaining| > 0
      invariant Listed(f, entries, remaining)
      decreases |remaining|
    {
      var id :| id in remaining;
      ListOneMore(f, entries, remaining, id);
      entries := entries + [Entry(id, remaining[id])];
      remaining := remaining - {id};
    }
    AllListed(f, entries);
  }

  /** What is planned: the repositories in their order, where each is put, and the actions. */
  datatype CloneForest = CloneForest(order: seq<Id>, paths: map<Id, Path>, actions: seq<Action>)

  /** The plan follows the manifest, and its actions can be carried out one after the other. */
  ghost predicate PlanFor(f: Forest, base: Id, root: Path, plan: CloneForest)
    requires Accepted(f, base)
  {
    && RepositoryOrder.IsMetadataFirst(f, base, plan.order) && (forall id | id in plan.order :: id in f)
    && plan.paths == Under(root, f)
    && exists steps :: plan.actions == Numbered(steps) && Executable(f, root, plan.order, steps) &&
                       Exact(f, plan.paths, root, base, plan.order, steps)
  }

  /**
   A manifest gets a plan exactly when it is accepted: ordering its repositories and resolving their paths cannot fail
   after that.
  */
  method PlanClone(f: Forest, base: Id, root: Path) returns (result: Option<CloneForest>)
    ensures result.Some? <==> Accepted(f, base)
    ensures result.Some? ==> PlanFor(f, base, root, result.value)
    ensures result.Some? ==>
              result.value.actions == Numbered(Plan(f, Under(root, f), root, base, result.value.order))
  {
    var ok := ValidateManifest(f, base);
    if !ok {
      return None;
    }
    AcceptedIsForest(f, base);
    var order := RepositoryOrder.PortableRepositoryOrder(f, base);
    ClonePlanIsExecutable(f, base, root, order.value);
    StepsAreExact(f, base, root, order.value);
    ManifestsAndProjectsAgree(f, base);
    var entries := CloneDomainProject(f);
    var paths := EffectivePaths(base, entries, root, map[]);
    var actions := ClonePlanActions(f, paths.value, root, base, order.value);
    return Some(CloneForest(order.value, paths.value, actions));
  }
}
