/**
 The orders in which the repositories of a project are visited (internal/domain/project.go), and the layered order
 computed for a portable manifest (internal/service/clone_plan.go).
*/
module RepositoryOrder {
  import opened Options
  import opened Forest
  import opened Ordering

  // ----- comparisons

  /** A lookup in a Go map: zero for a missing key. */
  function At(depths: map<Id, nat>, id: Id): nat {
    if id in depths then depths[id] else 0
  }

  predicate Shallow(depths: map<Id, nat>, a: Id, b: Id) {
    if At(depths, a) != At(depths, b) then At(depths, a) < At(depths, b) else LexLess(a, b)
  }

  function ParentFirstLess(depths: map<Id, nat>): (Id, Id) -> bool {
    (a, b) => Shallow(depths, a, b)
  }

  predicate Deep(depths: map<Id, nat>, a: Id, b: Id) {
    if At(depths, a) != At(depths, b) then At(depths, a) > At(depths, b) else LexLess(b, a)
  }

  function ChildFirstLess(depths: map<Id, nat>): (Id, Id) -> bool {
    (a, b) => Deep(depths, a, b)
  }

  predicate BaseThenShallow(depths: map<Id, nat>, base: Id, a: Id, b: Id) {
    if At(depths, a) != At(depths, b) then At(depths, a) < At(depths, b)
    else if At(depths, a) == 0 && a == base then true
    else if At(depths, b) == 0 && b == base then false
    else LexLess(a, b)
  }

  /** Parent first, but with the base in front of the other top-level repositories. */
  function MetadataFirstLess(depths: map<Id, nat>, base: Id): (Id, Id) -> bool {
    (a, b) => BaseThenShallow(depths, base, a, b)
  }

  predicate BaseThenLex(f: Forest, base: Id, a: Id, b: Id) {
    if a in f && f[a].parent == "" && a == base then true
    else if b in f && f[b].parent == "" && b == base then false
    else LexLess(a, b)
  }

  /** The comparison inside one layer. */
  function ReadyLess(f: Forest, base: Id): (Id, Id) -> bool {
    (a, b) => BaseThenLex(f, base, a, b)
  }

  lemma LexOrders(domain: set<Id>)
    ensures Orders(LexLess, domain)
  {
    forall a, b | a in domain && b in domain && a != b
      ensures LexLess(a, b) <==> !LexLess(b, a)
    {
      LexTrichotomy(a, b);
    }
    forall a, b, c | a in domain && b in domain && c in domain && LexLess(a, b) && LexLess(b, c)
      ensures LexLess(a, c)
    {
      LexTransitive(a, b, c);
    }
  }

  lemma ComparisonsOrder(f: Forest, depths: map<Id, nat>, base: Id, domain: set<Id>)
    ensures Orders(ParentFirstLess(depths), domain)
    ensures Orders(ChildFirstLess(depths), domain)
    ensures Orders(MetadataFirstLess(depths, base), domain)
    ensures Orders(ReadyLess(f, base), domain)
  {
    LexOrders(domain);
    hide LexLess;
    assert Orders(ParentFirstLess(depths), domain);
    assert Orders(ChildFirstLess(depths), domain);
    assert Orders(MetadataFirstLess(depths, base), domain);
    assert Orders(ReadyLess(f, base), domain);
  }

  // ----- what the orders are

  /** The depth of every repository that has one. */
  ghost function Depths(f: Forest): map<Id, nat> {
    map id | id in f && Rooted(f, id) :: Depth(f, id)
  }

  /** Increasing depth, then increasing ID. */
  ghost predicate IsParentFirst(f: Forest, s: seq<Id>) {
    Enumerates(s, f.Keys) && Ascending(s, ParentFirstLess(Depths(f)))
  }

  /** Decreasing depth, then decreasing ID. */
  ghost predicate IsChildFirst(f: Forest, s: seq<Id>) {
    Enumerates(s, f.Keys) && Ascending(s, ChildFirstLess(Depths(f)))
  }

  /** Increasing depth, a top-level base first, then increasing ID. */
  ghost predicate IsMetadataFirst(f: Forest, base: Id, s: seq<Id>) {
    Enumerates(s, f.Keys) && Ascending(s, MetadataFirstLess(Depths(f), base))
  }

  /** Each of the three orders is one list only: two ways to compute it agree. */
  lemma OrdersAreUnique(f: Forest, base: Id, s: seq<Id>, t: seq<Id>)
    ensures IsParentFirst(f, s) && IsParentFirst(f, t) ==> s == t
    ensures IsChildFirst(f, s) && IsChildFirst(f, t) ==> s == t
    ensures IsMetadataFirst(f, base, s) && IsMetadataFirst(f, base, t) ==> s == t
  {
    hide Orders, Enumerates, Ascending;
    ComparisonsOrder(f, Depths(f), base, f.Keys);
    if IsParentFirst(f, s) && IsParentFirst(f, t) {
      AscendingIsUnique(s, t, ParentFirstLess(Depths(f)), f.Keys);
    }
    if IsChildFirst(f, s) && IsChildFirst(f, t) {
      AscendingIsUnique(s, t, ChildFirstLess(Depths(f)), f.Keys);
    }
    if IsMetadataFirst(f, base, s) && IsMetadataFirst(f, base, t) {
      AscendingIsUnique(s, t, MetadataFirstLess(Depths(f), base), f.Keys);
    }
  }

  /** Which of two repositories comes first, told by depth and by the bytes of the IDs. */
  ghost predicate Precedes(f: Forest, a: Id, b: Id)
    requires a in f && b in f && AllRooted(f)
  {
    Depth(f, a) < Depth(f, b) || (Depth(f, a) == Depth(f, b) && ByteBefore(a, b))
  }

  predicate TopLevelBase(f: Forest, base: Id, id: Id) {
    id == base && id in f && f[id].parent == ""
  }

  /**
   What the three orders are: by depth, and among equals by the bytes of the IDs, both reversed for child-first; in
   metadata-first order a top-level base comes before everything else.
  */
  lemma OrdersFollowBytes(f: Forest, base: Id, s: seq<Id>, i: nat, j: nat)
    requires AllRooted(f) && Enumerates(s, f.Keys) && i < |s| && j < |s| && i != j
    ensures s[i] in f && s[j] in f
    ensures IsParentFirst(f, s) ==> (i < j <==> Precedes(f, s[i], s[j]))
    ensures IsChildFirst(f, s) ==> (i < j <==> Precedes(f, s[j], s[i]))
    ensures IsMetadataFirst(f, base, s) ==>
              (i < j <==> TopLevelBase(f, base, s[i]) || (!TopLevelBase(f, base, s[j]) && Precedes(f, s[i], s[j])))
  {
    var a, b := s[i], s[j];
    assert a in f.Keys && b in f.Keys && a != b;
    LexIsByteOrder(a, b);
    LexIsByteOrder(b, a);
    LexTrichotomy(a, b);
    TopIsShallowest(f, a);
    TopIsShallowest(f, b);
    hide LexLess, ByteBefore, Depth, Enumerates;
    var depths := Depths(f);
    assert At(depths, a) == Depth(f, a) && At(depths, b) == Depth(f, b);
    if i < j {
      assert IsParentFirst(f, s) ==> ParentFirstLess(depths)(s[i], s[j]);
      assert IsChildFirst(f, s) ==> ChildFirstLess(depths)(s[i], s[j]);
      assert IsMetadataFirst(f, base, s) ==> MetadataFirstLess(depths, base)(s[i], s[j]);
    } else {
      assert IsParentFirst(f, s) ==> ParentFirstLess(depths)(s[j], s[i]);
      assert IsChildFirst(f, s) ==> ChildFirstLess(depths)(s[j], s[i]);
      assert IsMetadataFirst(f, base, s) ==> MetadataFirstLess(depths, base)(s[j], s[i]);
    }
  }

  lemma TopIsShallowest(f: Forest, id: Id)
    requires AllRooted(f) && id in f
    ensures Depth(f, id) == 0 <==> f[id].parent == ""
  {
    DepthStep(f, id);
  }

  /** Child-first is exactly parent-first backwards. */
  lemma ChildFirstIsParentFirstReversed(f: Forest, children: seq<Id>, parents: seq<Id>)
    requires IsChildFirst(f, children) && IsParentFirst(f, parents)
    ensures children == Reverse(parents)
  {
    var r := Reverse(parents);
    forall i, j | 0 <= i < j < |r|
      ensures ChildFirstLess(Depths(f))(r[i], r[j]) && r[i] != r[j]
    {
      var a, b := |r| - 1 - j, |r| - 1 - i;
      assert ParentFirstLess(Depths(f))(parents[a], parents[b]) && parents[a] != parents[b];
    }
    forall x
      ensures x in r <==> x in f.Keys
    {
      if x in parents {
        var k :| 0 <= k < |parents| && parents[k] == x;
        assert r[|r| - 1 - k] == x;
      }
    }
    assert IsChildFirst(f, r);
    OrdersAreUnique(f, "", children, r);
  }

  /** In parent-first and in metadata-first order every repository comes after all of its ancestors. */
  lemma AncestorsComeFirst(f: Forest, base: Id, s: seq<Id>, i: nat, j: nat)
    requires "" !in f && AllRooted(f) && (IsParentFirst(f, s) || IsMetadataFirst(f, base, s))
    requires i < |s| && j < |s| && Ancestor(f, s[i], s[j])
    ensures i < j
  {
    assert s[j] in f.Keys;
    AncestorIsHigher(f, s[i], s[j]);
    var depths := Depths(f);
    assert At(depths, s[i]) < At(depths, s[j]);
    assert !ParentFirstLess(depths)(s[j], s[i]) && !MetadataFirstLess(depths, base)(s[j], s[i]);
  }

  // ----- depths

  /** The memoised depth of one repository. */
  method DepthOf(f: Forest, id: Id, memo: map<Id, nat>) returns (value: nat, memo': map<Id, nat>)
    requires "" !in f && Rooted(f, id)
    requires forall x | x in memo :: x in f && Rooted(f, x) && memo[x] == Depth(f, x)
    ensures value == Depth(f, id)
    ensures memo.Keys <= memo'.Keys && id in memo'
    ensures forall x | x in memo' :: x in f && Rooted(f, x) && memo'[x] == Depth(f, x)
    decreases Depth(f, id)
  {
    if id in memo {
      return memo[id], memo;
    }
    DepthStep(f, id);
    if f[id].parent == "" {
      return 0, memo[id := 0];
    }
    value, memo' := DepthOf(f, f[id].parent, memo);
    value := value + 1;
    memo' := memo'[id := value];
  }

  method ComputeDepths(f: Forest) returns (depths: map<Id, nat>)
    requires "" !in f && AllRooted(f)
    ensures depths == Depths(f)
  {
    depths := map[];
    var todo := f.Keys;
    while todo != {}
      invariant todo <= f.Keys && f.Keys - todo <= depths.Keys
      invariant forall x | x in depths :: x in f && Rooted(f, x) && depths[x] == Depth(f, x)
      decreases todo
    {
      var id :| id in todo;
      var _, more := DepthOf(f, id, depths);
      depths := more;
      todo := todo - {id};
    }
  }

  // ----- sorting by depth

  method ParentFirst(f: Forest, listed: seq<Id>) returns (ordered: seq<Id>)
    requires "" !in f && AllRooted(f) && Enumerates(listed, f.Keys)
    ensures IsParentFirst(f, ordered)
  {
    var depths := ComputeDepths(f);
    ordered := Sorted(listed, ParentFirstLess(depths));
    ComparisonsOrder(f, depths, "", f.Keys);
    SortedIsAscending(listed, ParentFirstLess(depths), f.Keys);
  }

  method ChildFirst(f: Forest, listed: seq<Id>) returns (ordered: seq<Id>)
    requires "" !in f && AllRooted(f) && Enumerates(listed, f.Keys)
    ensures IsChildFirst(f, ordered)
    ensures forall parents | IsParentFirst(f, parents) :: ordered == Reverse(parents)
  {
    var depths := ComputeDepths(f);
    ordered := Sorted(listed, ChildFirstLess(depths));
    ComparisonsOrder(f, depths, "", f.Keys);
    SortedIsAscending(listed, ChildFirstLess(depths), f.Keys);
    forall parents | IsParentFirst(f, parents)
      ensures ordered == Reverse(parents)
    {
      ChildFirstIsParentFirstReversed(f, ordered, parents);
    }
  }

  /** The base of a project: the declared one, or else the first top-level repository listed. */
  method MetadataBase(f: Forest, declared: Id, listed: seq<Id>) returns (base: Id)
    requires Enumerates(listed, f.Keys) && "" !in f
    ensures declared != "" ==> base == declared
    ensures declared == "" && base != "" ==> base in f && f[base].parent == ""
    ensures declared == "" && base == "" ==> forall id | id in f :: f[id].parent != ""
  {
    if declared != "" {
      return declared;
    }
    for i := 0 to |listed|
      invariant forall k | 0 <= k < i :: f[listed[k]].parent != ""
    {
      if f[listed[i]].parent == "" {
        return listed[i];
      }
    }
    return "";
  }

  /** Shifts the elements before the given position up by one and puts the element there in front. */
  method MoveToFront(a: array<Id>, index: nat)
    requires index < a.Length
    modifies a
    ensures a[..] == [old(a[index])] + old(a[..index]) + old(a[index + 1..])
  {
    var moved := a[index];
    var j := index;
    while j > 0
      invariant 0 <= j <= index
      invariant forall k | 0 <= k < j :: a[k] == old(a[k])
      invariant forall k | j < k <= index :: a[k] == old(a[k - 1])
      invariant forall k | index < k < a.Length :: a[k] == old(a[k])
    {
      a[j] := a[j - 1];
      j := j - 1;
    }
    a[0] := moved;
  }

  /** The list r is s with its element x taken to the front. */
  ghost predicate FrontMoved(s: seq<Id>, x: Id, r: seq<Id>) {
    exists i :: 0 <= i < |s| && s[i] == x && r == [x] + s[..i] + s[i + 1..]
  }

  /**
   Metadata-first order: parent-first with the base moved to the front. For a top-level base this is the order that
   compares depth, then the base, then the ID; a base that is not declared changes nothing.
  */
  method MetadataFirst(f: Forest, declared: Id, listed: seq<Id>) returns (base: Id, ordered: array<Id>)
    requires "" !in f && AllRooted(f) && Enumerates(listed, f.Keys)
    ensures declared != "" ==> base == declared
    ensures base !in f ==> IsParentFirst(f, ordered[..])
    ensures base in f ==> forall s | IsParentFirst(f, s) :: FrontMoved(s, base, ordered[..])
    ensures base in f && f[base].parent == "" ==> IsMetadataFirst(f, base, ordered[..])
  {
    base := MetadataBase(f, declared, listed);
    var sorted := ParentFirst(f, listed);
    ordered := new Id[|sorted|](i requires 0 <= i < |sorted| => sorted[i]);
    assert ordered[..] == sorted;
    for index := 0 to ordered.Length
      invariant ordered[..] == sorted && base !in sorted[..index]
    {
      if ordered[index] == base {
        MoveToFront(ordered, index);
        assert base in f.Keys;
        assert FrontMoved(sorted, base, ordered[..]);
        OnlyParentFirst(f, sorted);
        hide FrontMoved;
        if f[base].parent == "" {
          BaseInFront(f, base, sorted, index);
        }
        return;
      }
    }
    assert sorted[..ordered.Length] == sorted;
  }

  lemma OnlyParentFirst(f: Forest, s: seq<Id>)
    requires IsParentFirst(f, s)
    ensures forall t | IsParentFirst(f, t) :: t == s
  {
    forall t | IsParentFirst(f, t)
      ensures t == s
    {
      OrdersAreUnique(f, "", s, t);
    }
  }

  lemma BaseInFront(f: Forest, base: Id, s: seq<Id>, index: nat)
    requires IsParentFirst(f, s) && index < |s| && s[index] == base && base in f && f[base].parent == ""
    requires AllRooted(f)
    ensures IsMetadataFirst(f, base, [base] + s[..index] + s[index + 1..])
  {
    var r := [base] + s[..index] + s[index + 1..];
    assert At(Depths(f), base) == 0 by { DepthStep(f, base); }
    BaseInFrontAscends(Depths(f), base, s, index);
    assert s == s[..index] + [base] + s[index + 1..];
    assert forall x :: x in r <==> x in s;
  }

  lemma BaseInFrontAscends(depths: map<Id, nat>, base: Id, s: seq<Id>, index: nat)
    requires Distinct(s) && Ascending(s, ParentFirstLess(depths))
    requires index < |s| && s[index] == base && At(depths, base) == 0
    ensures var r := [base] + s[..index] + s[index + 1..]; Distinct(r) && Ascending(r, MetadataFirstLess(depths, base))
  {
    var r := [base] + s[..index] + s[index + 1..];
    forall i, j | 0 <= i < j < |r|
      ensures r[i] != r[j] && MetadataFirstLess(depths, base)(r[i], r[j])
    {
      var b := if j <= index then j - 1 else j;
      assert r[j] == s[b] && s[b] != base;
      if i > 0 {
        var a := if i <= index then i - 1 else i;
        assert r[i] == s[a] && s[a] != base;
        assert s[a] != s[b] && ParentFirstLess(depths)(s[a], s[b]);
      } else {
        assert r[i] == base;
      }
    }
  }

  /** With a base that is not top-level the metadata-first comparison is the parent-first one. */
  lemma OnlyATopLevelBaseMatters(f: Forest, base: Id, s: seq<Id>)
    requires AllRooted(f) && !(base in f && f[base].parent == "")
    ensures IsMetadataFirst(f, base, s) <==> IsParentFirst(f, s)
  {
    var depths := Depths(f);
    if Enumerates(s, f.Keys) {
      forall i, j | 0 <= i < j < |s|
        ensures MetadataFirstLess(depths, base)(s[i], s[j]) <==> ParentFirstLess(depths)(s[i], s[j])
      {
        assert s[i] in f.Keys && s[j] in f.Keys;
        DepthStep(f, s[i]);
        DepthStep(f, s[j]);
      }
    }
  }

  // ----- layer by layer

  /** The repositories whose depth is known to be below k. */
  ghost predicate Shallower(f: Forest, k: nat, seen: set<Id>) {
    forall id :: id in seen <==> exists d: nat :: d < k && HasDepth(f, id, d)
  }

  /** Among what is left, the repositories whose parent has been seen are those of depth k. */
  lemma ReadyIsOneLayer(f: Forest, k: nat, seen: set<Id>, id: Id)
    requires "" !in f && Shallower(f, k, seen) && id in f && id !in seen
    ensures f[id].parent == "" || f[id].parent in seen <==> HasDepth(f, id, k)
  {
    var parent := f[id].parent;
    if parent == "" {
      assert HasDepth(f, id, 0);
    } else if parent in seen {
      var d: nat :| d < k && HasDepth(f, parent, d);
      assert HasDepth(f, id, d + 1);
    }
  }

  lemma NextLayer(f: Forest, k: nat, seen: set<Id>, layer: set<Id>)
    requires Shallower(f, k, seen) && forall id :: id in layer <==> id !in seen && HasDepth(f, id, k)
    ensures Shallower(f, k + 1, seen + layer)
  {
    forall id | id in seen + layer
      ensures exists d: nat :: d < k + 1 && HasDepth(f, id, d)
    {
      if id in seen {
        var d: nat :| d < k && HasDepth(f, id, d);
        assert d < k + 1 && HasDepth(f, id, d);
      } else {
        assert k < k + 1 && HasDepth(f, id, k);
      }
    }
    forall id, d: nat | d < k + 1 && HasDepth(f, id, d)
      ensures id in seen + layer
    {
      if d < k {
        assert exists e: nat :: e < k && HasDepth(f, id, e);
      } else {
        assert HasDepth(f, id, k);
      }
    }
  }

  /** When no repository has depth k, none is deeper: whatever is left never reaches the top. */
  lemma StuckMeansUnrooted(f: Forest, k: nat, seen: set<Id>, id: Id)
    requires "" !in f && Shallower(f, k, seen) && id in f && id !in seen
    requires forall x | x in f && x !in seen :: !HasDepth(f, x, k)
    ensures !Rooted(f, id)
  {
    if Rooted(f, id) {
      var d := Depth(f, id);
      assert d >= k;
      ClimbLosesDepth(f, id, d, d - k);
      var x := Climb(f, id, d - k);
      assert HasDepth(f, x, k);
      if x in seen {
        var e: nat :| e < k && HasDepth(f, x, e);
        DepthIsUnique(f, x, e, k);
      }
    }
  }

  /** The repositories of what remains that are ready, in the arbitrary order of the map. */
  method Ready(remaining: Forest, seen: set<Id>) returns (ready: seq<Id>)
    ensures Enumerates(ready, set id | id in remaining && (remaining[id].parent == "" || remaining[id].parent in seen))
  {
    ready := [];
    var todo := remaining.Keys;
    while todo != {}
      invariant todo <= remaining.Keys
      invariant Distinct(ready)
      invariant forall id :: id in ready <==>
                             id in remaining && id !in todo &&
                             (remaining[id].parent == "" || remaining[id].parent in seen)
      decreases todo
    {
      var id :| id in todo;
      if remaining[id].parent == "" || remaining[id].parent in seen {
        ready := ready + [id];
      }
      todo := todo - {id};
    }
  }

  /** Everything before one layer and the layer itself, put together. */
  lemma AppendLayer(f: Forest, base: Id, k: nat, order: seq<Id>, seen: set<Id>, layer: seq<Id>)
    requires Shallower(f, k, seen) && Enumerates(order, seen) && Ascending(order, MetadataFirstLess(Depths(f), base))
    requires Distinct(layer) && Ascending(layer, ReadyLess(f, base))
    requires forall id | id in layer :: id in f && id !in seen && HasDepth(f, id, k)
    ensures Distinct(order + layer) && Ascending(order + layer, MetadataFirstLess(Depths(f), base))
  {
    var depths, all := Depths(f), order + layer;
    forall id | id in seen
      ensures At(depths, id) < k
    {
      var d: nat :| d < k && HasDepth(f, id, d);
      DepthIsUnique(f, id, Depth(f, id), d);
    }
    forall id | id in layer
      ensures At(depths, id) == k
    {
      DepthIsUnique(f, id, Depth(f, id), k);
    }
    forall i, j | 0 <= i < j < |all|
      ensures all[i] != all[j] && MetadataFirstLess(depths, base)(all[i], all[j])
    {
      var x, y := all[i], all[j];
      if j < |order| {
        assert x == order[i] && y == order[j];
      } else {
        assert y == layer[j - |order|] && y in layer;
        if i < |order| {
          assert order[i] == x && x in seen;
        } else {
          assert x == layer[i - |order|] && x in layer;
          assert ReadyLess(f, base)(x, y);
        }
      }
    }
  }

  /** Moves the repositories of one layer from those that remain to those that have been seen. */
  method MarkSeen(layer: seq<Id>, seen: set<Id>, remaining: Forest) returns (seen': set<Id>, remaining': Forest)
    ensures seen' == seen + (set id | id in layer)
    ensures remaining' == remaining - (set id | id in layer)
  {
    seen', remaining' := seen, remaining;
    for i := 0 to |layer|
      invariant forall id :: id in seen' <==> id in seen || id in layer[..i]
      invariant remaining' == map id | id in remaining && id !in layer[..i] :: remaining[id]
    {
      assert layer[..i + 1] == layer[..i] + [layer[i]];
      seen' := seen' + {layer[i]};
      remaining' := remaining' - {layer[i]};
    }
    assert layer[..|layer|] == layer;
  }

  ghost predicate Split(f: Forest, seen: set<Id>, remaining: Forest) {
    && seen !! remaining.Keys && seen + remaining.Keys == f.Keys
    && (forall id | id in remaining :: remaining[id] == f[id])
  }

  /** What holds after k layers: the repositories of depth below k are in order, the others remain. */
  ghost predicate AfterLayers(f: Forest, base: Id, k: nat, order: seq<Id>, seen: set<Id>, remaining: Forest) {
    && Split(f, seen, remaining)
    && Shallower(f, k, seen)
    && Enumerates(order, seen)
    && Ascending(order, MetadataFirstLess(Depths(f), base))
  }

  /** The ready repositories are exactly the layer of depth k. */
  lemma ReadyIsTheLayer(f: Forest, k: nat, seen: set<Id>, remaining: Forest, ready: seq<Id>)
    requires "" !in f && Shallower(f, k, seen) && Split(f, seen, remaining)
    requires Enumerates(ready, set id | id in remaining && (remaining[id].parent == "" || remaining[id].parent in seen))
    ensures forall id :: id in ready <==> id !in seen && HasDepth(f, id, k)
  {
    forall id
      ensures id in ready <==> id !in seen && HasDepth(f, id, k)
    {
      if id in remaining {
        ReadyIsOneLayer(f, k, seen, id);
      }
    }
  }

  lemma {:induction false} OneMoreLayer(f: Forest, base: Id, k: nat, order: seq<Id>, seen: set<Id>, remaining: Forest,
                                        ready: seq<Id>)
    requires "" !in f && AfterLayers(f, base, k, order, seen, remaining)
    requires Enumerates(ready, set id | id in remaining && (remaining[id].parent == "" || remaining[id].parent in seen))
    ensures var layer, elements := Sorted(ready, ReadyLess(f, base)), set id | id in ready;
            && AfterLayers(f, base, k + 1, order + layer, seen + elements, remaining - elements)
            && elements == (set id | id in layer)
            && (|ready| > 0 ==> |remaining - elements| < |remaining|)
  {
    hide HasDepth, Sorted, Shallower, Ascending, Distinct, Split;
    var layer, elements := Sorted(ready, ReadyLess(f, base)), set id | id in ready;
    ReadyIsTheLayer(f, k, seen, remaining, ready);
    SplitLayer(f, seen, remaining, ready);
    ReadySorted(f, base, ready);
    AppendLayer(f, base, k, order, seen, layer);
    NextLayer(f, k, seen, elements);
    assert forall id :: id in order + layer <==> id in seen + elements;
  }

  lemma FewerRemain(remaining: Forest, ready: seq<Id>)
    requires |ready| > 0 && forall id | id in ready :: id in remaining
    ensures |remaining - (set id | id in ready)| < |remaining|
  {
    var left := remaining - (set id | id in ready);
    assert ready[0] in ready;
    assert left.Keys < remaining.Keys;
    SmallerSet(left.Keys, remaining.Keys);
  }

  lemma ReadySorted(f: Forest, base: Id, ready: seq<Id>)
    requires Distinct(ready)
    ensures var layer := Sorted(ready, ReadyLess(f, base));
            && Distinct(layer) && Ascending(layer, ReadyLess(f, base)) && (forall id :: id in layer <==> id in ready)
            && (set id | id in layer) == (set id | id in ready)
  {
    var domain := set id | id in ready;
    ComparisonsOrder(f, map[], base, domain);
    hide Ascending, Orders, Distinct, Sorted;
    SortedIsAscending(ready, ReadyLess(f, base), domain);
  }

  /** Moving the ready repositories over keeps the split. */
  lemma SplitLayer(f: Forest, seen: set<Id>, remaining: Forest, ready: seq<Id>)
    requires Split(f, seen, remaining)
    requires Enumerates(ready, set id | id in remaining && (remaining[id].parent == "" || remaining[id].parent in seen))
    ensures var elements := set id | id in ready;
            && Split(f, seen + elements, remaining - elements)
            && Distinct(ready) && (forall id | id in ready :: id in f && id !in seen)
            && (|ready| > 0 ==> |remaining - elements| < |remaining|)
  {
    hide Distinct;
    assert forall id | id in ready :: id in remaining;
    if |ready| > 0 {
      FewerRemain(remaining, ready);
    }
  }

  lemma NoLayersYet(f: Forest, base: Id)
    ensures AfterLayers(f, base, 0, [], {}, f)
  {
  }

  lemma NothingReady(f: Forest, base: Id, k: nat, order: seq<Id>, seen: set<Id>, remaining: Forest)
    requires "" !in f && AfterLayers(f, base, k, order, seen, remaining) && remaining != map[]
    requires Enumerates([], set id | id in remaining && (remaining[id].parent == "" || remaining[id].parent in seen))
    ensures !AllRooted(f)
  {
    ReadyIsTheLayer(f, k, seen, remaining, []);
    var id :| id in remaining;
    StuckMeansUnrooted(f, k, seen, id);
  }

  lemma NothingRemains(f: Forest, base: Id, k: nat, order: seq<Id>, seen: set<Id>)
    requires AfterLayers(f, base, k, order, seen, map[])
    ensures AllRooted(f) && IsMetadataFirst(f, base, order)
  {
    assert seen == f.Keys;
    forall id | id in f
      ensures Rooted(f, id)
    {
      assert id in seen;
    }
  }

  /**
   The layered order of a manifest. It fails exactly when some parent chain never reaches the top, and otherwise
   computes the metadata-first order, without computing depths.
  */
  method PortableRepositoryOrder(f: Forest, base: Id) returns (result: Option<seq<Id>>)
    requires "" !in f
    ensures result.Some? <==> AllRooted(f)
    ensures result.Some? ==> IsMetadataFirst(f, base, result.value)
  {
    hide *;
    var remaining := f;
    var order: seq<Id> := [];
    var seen: set<Id> := {};
    ghost var k: nat := 0;
    NoLayersYet(f, base);
    while |remaining| > 0
      invariant AfterLayers(f, base, k, order, seen, remaining)
      decreases |remaining|
    {
      var ready := Ready(remaining, seen);
      if |ready| == 0 {
        NothingReady(f, base, k, order, seen, remaining);
        return None;
      }
      OneMoreLayer(f, base, k, order, seen, remaining, ready);
      var layer := Sorted(ready, ReadyLess(f, base));
      order := order + layer;
      seen, remaining := MarkSeen(layer, seen, remaining);
      k := k + 1;
    }
    NothingRemains(f, base, k, order, seen);
    return Some(order);
  }

  lemma SmallerSet<T>(a: set<T>, b: set<T>)
    requires a < b
    ensures |a| < |b|
  {
    var rest := b - a;
    assert b == a + rest && a !! rest;
    assert rest != {};
  }
}
