/**
 Where the repositories of a project lie: the check of a portable manifest
 (internal/config/portable_manifest.go:186-294, 777-788) and the resolver of a project
 (internal/domain/project.go:30-91, 107-207).
*/
module Placement {
  import opened Options
  import opened Forest
  import opened Ordering
  import opened Mounts
  import RepositoryOrder

  // ----- paths

  /** The mounts along the parent chain, joined. */
  ghost function PathOf(f: Forest, id: Id): Path
    requires Rooted(f, id)
    decreases Depth(f, id)
  {
    DepthStep(f, id);
    if f[id].parent == "" then f[id].mount else PathOf(f, f[id].parent) + f[id].mount
  }

  /** Every mount is allowed where it stands. */
  predicate MountsAllowed(f: Forest) {
    forall id {:trigger f[id].mount} | id in f :: MountAllowed(f[id].parent == "", f[id].mount)
  }

  /** Below an ancestor there is always at least one more component. */
  lemma {:induction false} AncestorPathIsShorter(f: Forest, a: Id, b: Id)
    requires "" !in f && AllRooted(f) && MountsAllowed(f) && b in f && Ancestor(f, a, b)
    ensures a in f && |PathOf(f, a)| < |PathOf(f, b)| && PathOf(f, a) <= PathOf(f, b)
    decreases Depth(f, b)
  {
    DepthStep(f, b);
    AncestorStep(f, a, b);
    var parent := f[b].parent;
    if parent == "" {
      NowhereHasNoAncestor(f, a);
    } else if parent != a {
      AncestorPathIsShorter(f, a, parent);
    }
  }

  // ----- separation

  /** Overlapping paths belong to an ancestor and a descendant. */
  ghost predicate PairSeparated(f: Forest, l: Id, r: Id)
    requires Rooted(f, l) && Rooted(f, r)
  {
    Overlap(PathOf(f, l), PathOf(f, r)) ==> Ancestor(f, l, r) || Ancestor(f, r, l)
  }

  ghost predicate Separated(f: Forest)
    requires AllRooted(f)
  {
    forall l, r {:trigger PairSeparated(f, l, r)} | l in f && r in f && l != r :: PairSeparated(f, l, r)
  }

  /** The declarations make sense one by one. */
  predicate WellDeclared(f: Forest, base: Id) {
    && Closed(f) && MountsAllowed(f)
    && base in f && f[base].parent == ""
    && (forall id {:trigger SoleTopLevel(f, id)} | id in f && f[id].parent == "" && f[id].mount == [] ::
        SoleTopLevel(f, id))
  }

  predicate SoleTopLevel(f: Forest, id: Id) {
    forall other | other in f && f[other].parent == "" :: other == id
  }

  /** What an accepted manifest satisfies. */
  ghost predicate Accepted(f: Forest, base: Id) {
    WellDeclared(f, base) && AllRooted(f) && Separated(f)
  }

  /**
   In an accepted manifest one repository lies below another, case ignored, exactly when it is its descendant, and no
   two repositories lie at the same place.
  */
  lemma PlacementFollowsAncestry(f: Forest, base: Id, l: Id, r: Id)
    requires Accepted(f, base) && l in f && r in f && l != r
    ensures FoldPath(PathOf(f, l)) <= FoldPath(PathOf(f, r)) <==> Ancestor(f, l, r)
    ensures Overlap(PathOf(f, l), PathOf(f, r)) <==> Ancestor(f, l, r) || Ancestor(f, r, l)
    ensures FoldPath(PathOf(f, l)) != FoldPath(PathOf(f, r))
  {
    assert PairSeparated(f, l, r);
    assert "" !in f && MountsAllowed(f);
    hide Ancestor, WellDeclared, Separated, FoldPath;
    if Ancestor(f, l, r) {
      DescendantLiesBelow(f, l, r);
    } else if Ancestor(f, r, l) {
      DescendantLiesBelow(f, r, l);
    }
  }

  /** A descendant lies strictly below its ancestor, and the reverse is not true as well. */
  lemma DescendantLiesBelow(f: Forest, a: Id, b: Id)
    requires "" !in f && AllRooted(f) && MountsAllowed(f) && b in f && Ancestor(f, a, b)
    ensures a in f && FoldPath(PathOf(f, a)) < FoldPath(PathOf(f, b))
  {
    AncestorPathIsShorter(f, a, b);
    hide Ancestor, MountsAllowed;
    var p, q := PathOf(f, a), PathOf(f, b);
    FoldAppend(p, q[|p|..]);
    assert q == p + q[|p|..];
  }

  // ----- the check of a manifest

  /** The memoised path of one repository; fails when the parent chain comes back to a repository being visited. */
  method Resolve(f: Forest, id: Id, visiting: set<Id>, paths: map<Id, Path>)
      returns (result: Option<Path>, paths': map<Id, Path>)
    requires Closed(f) && id in f && LeadTo(f, visiting, id) && Resolved(f, paths)
    ensures result.Some? <==> Rooted(f, id)
    ensures result.Some? ==> result.value == PathOf(f, id) && id in paths'
    ensures Resolved(f, paths') && paths.Keys <= paths'.Keys
    decreases f.Keys - visiting
  {
    if id in paths {
      return Some(paths[id]), paths;
    }
    if id in visiting {
      var n: nat :| 0 < n && Climb(f, id, n) == id;
      CyclesAreNotRooted(f, id, n);
      return None, paths;
    }
    var parent, resolved := f[id].parent, f[id].mount;
    paths' := paths;
    if parent != "" {
      LeadOneMore(f, visiting, id);
      var above: Option<Path>;
      above, paths' := Resolve(f, parent, visiting + {id}, paths);
      if above.None? {
        if Rooted(f, id) {
          DepthStep(f, id);
        }
        return None, paths';
      }
      resolved := above.value + f[id].mount;
      RootedByParent(f, id);
    } else {
      assert HasDepth(f, id, 0);
    }
    paths' := paths'[id := resolved];
    return Some(resolved), paths';
  }

  ghost predicate Resolved(f: Forest, paths: map<Id, Path>) {
    forall id | id in paths :: Rooted(f, id) && paths[id] == PathOf(f, id)
  }

  method ResolveAll(f: Forest) returns (result: Option<map<Id, Path>>)
    requires Closed(f)
    ensures result.Some? <==> AllRooted(f)
    ensures result.Some? ==> Resolved(f, result.value) && result.value.Keys == f.Keys
  {
    var todo, paths := f.Keys, map[];
    while todo != {}
      invariant todo <= f.Keys && f.Keys - todo <= paths.Keys
      invariant Resolved(f, paths)
      decreases todo
    {
      var id :| id in todo;
      var one, more := Resolve(f, id, {}, paths);
      if one.None? {
        return None;
      }
      paths := more;
      todo := todo - {id};
    }
    return Some(paths);
  }

  /** The conflicts of one repository with those of larger ID. */
  method SeparatedFrom(f: Forest, paths: map<Id, Path>, left: Id) returns (ok: bool)
    requires "" !in f && AllRooted(f) && Resolved(f, paths) && paths.Keys == f.Keys && left in f
    ensures ok <==> forall right | right in f && LexLess(left, right) :: PairSeparated(f, left, right)
  {
    var todo := f.Keys;
    while todo != {}
      invariant todo <= f.Keys
      invariant forall right | right in f.Keys - todo && LexLess(left, right) :: PairSeparated(f, left, right)
      decreases todo
    {
      var right :| right in todo;
      todo := todo - {right};
      var overlap := CaseFoldedPathOverlap(paths[left], paths[right]);
      if !LexLess(left, right) || !overlap {
        continue;
      }
      LexTrichotomy(left, left);
      var above := IsAncestor(f, left, right);
      var below := IsAncestor(f, right, left);
      if !above && !below {
        return false;
      }
    }
    return true;
  }

  method CheckSeparation(f: Forest, paths: map<Id, Path>) returns (ok: bool)
    requires "" !in f && AllRooted(f) && Resolved(f, paths) && paths.Keys == f.Keys
    ensures ok <==> Separated(f)
  {
    var todo := f.Keys;
    while todo != {}
      invariant todo <= f.Keys
      invariant forall left | left in f.Keys - todo :: AheadSeparated(f, left)
      decreases todo
    {
      var left :| left in todo;
      todo := todo - {left};
      var one := SeparatedFrom(f, paths, left);
      if !one {
        NotAhead(f, left);
        return false;
      }
    }
    AheadIsEnough(f);
    return true;
  }

  ghost predicate AheadSeparated(f: Forest, left: Id)
    requires AllRooted(f) && left in f
  {
    forall right | right in f && LexLess(left, right) :: PairSeparated(f, left, right)
  }

  /** Every pair is examined once, from the smaller ID. */
  lemma AheadIsEnough(f: Forest)
    requires AllRooted(f) && forall left | left in f :: AheadSeparated(f, left)
    ensures Separated(f)
  {
    forall l, r | l in f && r in f && l != r
      ensures PairSeparated(f, l, r)
    {
      LexTrichotomy(l, r);
      assert AheadSeparated(f, l) && AheadSeparated(f, r);
      assert LexLess(l, r) || PairSeparated(f, r, l);
    }
  }

  lemma NotAhead(f: Forest, left: Id)
    requires AllRooted(f) && left in f && !AheadSeparated(f, left)
    ensures !Separated(f)
  {
    var right :| right in f && LexLess(left, right) && !PairSeparated(f, left, right);
    LexTrichotomy(left, left);
  }

  /** The declarations, one by one. */
  method CheckDeclarations(f: Forest, base: Id) returns (ok: bool)
    ensures ok <==> WellDeclared(f, base)
  {
    if f == map[] {
      return false;
    }
    if exists id | id in f :: id == "" || !MountAllowed(f[id].parent == "", f[id].mount) {
      return false;
    }
    var top := set id | id in f && f[id].parent == "";
    assert base in f && f[base].parent == "" ==> base in top;
    if |top| == 0 {
      return false;
    }
    if |top| > 1 {
      NotSole(f, top);
      if exists id | id in f :: f[id].parent == "" && f[id].mount == [] {
        ghost var id :| id in f && f[id].parent == "" && f[id].mount == [];
        assert id in top && !SoleTopLevel(f, id);
        return false;
      }
    }
    if base !in f || f[base].parent != "" {
      return false;
    }
    if exists id | id in f :: f[id].parent != "" && f[id].parent !in f {
      return false;
    }
    if |top| == 1 {
      OnlyOne(f, top);
    }
    return true;
  }

  lemma NotSole(f: Forest, top: set<Id>)
    requires top == (set id | id in f && f[id].parent == "") && |top| > 1
    ensures forall id | id in top :: !SoleTopLevel(f, id)
  {
    forall id | id in top
      ensures !SoleTopLevel(f, id)
    {
      assert |top - {id}| > 0;
      var other :| other in top - {id};
    }
  }

  lemma OnlyOne(f: Forest, top: set<Id>)
    requires top == (set id | id in f && f[id].parent == "") && |top| == 1
    ensures forall id | id in top :: SoleTopLevel(f, id)
  {
    forall id, other | id in top && other in f && f[other].parent == ""
      ensures other == id
    {
      assert |top - {id}| == 0;
      assert top - {id} == {};
      assert other in top;
    }
  }

  /** The validation of a manifest accepts exactly the well-declared, acyclic and separated ones. */
  method ValidateManifest(f: Forest, base: Id) returns (ok: bool)
    ensures ok <==> Accepted(f, base)
  {
    ok := CheckDeclarations(f, base);
    if !ok {
      return;
    }
    var paths := ResolveAll(f);
    if paths.None? {
      return false;
    }
    ok := CheckSeparation(f, paths.value);
  }

  // ----- the resolver of a project

  /** A project lists its repositories. */
  datatype Entry = Entry(id: Id, repository: Repository)

  function Ids(entries: seq<Entry>): (ids: seq<Id>)
    ensures |ids| == |entries| && forall i | 0 <= i < |entries| :: ids[i] == entries[i].id
  {
    seq(|entries|, i requires 0 <= i < |entries| => entries[i].id)
  }

  ghost predicate Declares(entries: seq<Entry>, f: Forest) {
    && Enumerates(Ids(entries), f.Keys)
    && forall e | e in entries :: e.id in f && f[e.id] == e.repository
  }

  /** The base a project means: the declared one, or the only top-level repository. */
  ghost predicate Means(f: Forest, declared: Id, base: Id) {
    if declared != "" then base == declared else base in f && f[base].parent == "" && SoleTopLevel(f, base)
  }

  ghost predicate ProjectValid(f: Forest, declared: Id) {
    AllRooted(f) && exists base :: Means(f, declared, base) && WellDeclared(f, base)
  }

  /** Collects the listed repositories by ID; an empty or repeated ID or a bad mount is refused. */
  method Collect(entries: seq<Entry>) returns (result: Option<Forest>)
    ensures result.Some? ==> Declares(entries, result.value) && "" !in result.value && MountsAllowed(result.value)
    ensures forall f | Declares(entries, f) && "" !in f && MountsAllowed(f) :: result == Some(f)
  {
    var f: Forest := map[];
    for i := 0 to |entries|
      invariant Declares(entries[..i], f) && "" !in f && MountsAllowed(f)
    {
      var e := entries[i];
      if e.id == "" || e.id in f || !MountAllowed(e.repository.parent == "", e.repository.mount) {
        CannotDeclare(entries, i, f);
        return None;
      }
      DeclareOneMore(entries[..i], f, e);
      assert entries[..i + 1] == entries[..i] + [e];
      f := f[e.id := e.repository];
    }
    assert entries[..|entries|] == entries;
    forall g | Declares(entries, g)
      ensures g == f
    {
      DeclaresOne(entries, f, g);
    }
    return Some(f);
  }

  lemma DeclaresOne(entries: seq<Entry>, f: Forest, g: Forest)
    requires Declares(entries, f) && Declares(entries, g)
    ensures f == g
  {
    assert forall id :: id in f.Keys <==> id in Ids(entries);
    assert forall id :: id in g.Keys <==> id in Ids(entries);
    assert f.Keys == g.Keys;
    forall id | id in f
      ensures f[id] == g[id]
    {
      assert id in Ids(entries);
      var k :| 0 <= k < |entries| && Ids(entries)[k] == id;
      assert entries[k] in entries;
    }
  }

  lemma DeclareOneMore(entries: seq<Entry>, f: Forest, e: Entry)
    requires Declares(entries, f) && e.id !in f
    ensures Declares(entries + [e], f[e.id := e.repository])
  {
    assert Ids(entries + [e]) == Ids(entries) + [e.id];
    assert forall k | 0 <= k < |entries| :: Ids(entries)[k] in Ids(entries);
  }

  lemma CannotDeclare(entries: seq<Entry>, i: nat, before: Forest)
    requires i < |entries| && Declares(entries[..i], before)
    requires var e := entries[i];
             e.id == "" || e.id in before || !MountAllowed(e.repository.parent == "", e.repository.mount)
    ensures forall f | Declares(entries, f) && "" !in f :: !MountsAllowed(f)
  {
    var e := entries[i];
    assert e in entries;
    if e.id in before {
      assert e.id in Ids(entries[..i]);
      var k :| 0 <= k < i && Ids(entries[..i])[k] == e.id;
      assert Ids(entries)[k] == Ids(entries)[i];
    }
  }

  method CheckProject(f: Forest, declared: Id) returns (ok: bool)
    requires "" !in f && MountsAllowed(f)
    ensures ok <==> ProjectValid(f, declared)
  {
    var baseId := declared;
    var top := set id | id in f && f[id].parent == "";
    assert forall id | id in f && f[id].parent == "" :: id in top;
    if |top| == 0 {
      return false;
    }
    if exists id | id in f :: f[id].parent != "" && f[id].parent !in f {
      return false;
    }
    if |top| == 1 {
      OnlyOne(f, top);
    } else {
      NotSole(f, top);
    }
    if declared == "" && |top| == 1 {
      baseId :| baseId in top;
    }
    if baseId == "" || baseId !in f || f[baseId].parent != "" {
      return false;
    }
    assert Means(f, declared, baseId);
    if |top| != 1 && exists id | id in f :: f[id].parent == "" && f[id].mount == [] {
      return false;
    }
    assert WellDeclared(f, baseId);
    ok := CheckHierarchy(f);
  }

  method ValidateProject(declared: Id, entries: seq<Entry>) returns (result: Option<Forest>)
    ensures result.Some? ==> Declares(entries, result.value) && ProjectValid(result.value, declared)
    ensures result.Some? ==> "" !in result.value && AllRooted(result.value) && MountsAllowed(result.value)
    ensures forall f | Declares(entries, f) && ProjectValid(f, declared) :: result == Some(f)
  {
    result := Collect(entries);
    if result.Some? {
      var ok := CheckProject(result.value, declared);
      if !ok {
        result := None;
      }
    }
  }
}
