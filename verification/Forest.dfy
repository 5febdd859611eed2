/**
 Repository forests: parents, depths and ancestors (internal/domain/project.go, internal/config/portable_manifest.go).
*/
module Forest {

  type Id = string

  /** A path is a sequence of components; the mount "." is the empty one. */
  type Path = seq<string>

  datatype Repository = Repository(parent: Id, mount: Path)

  /** Repositories by ID. A top-level repository has the parent "". */
  type Forest = map<Id, Repository>

  // ----- depth

  /** The parent chain of a repository reaches a top-level repository after d steps. */
  predicate HasDepth(f: Forest, id: Id, d: nat)
    decreases d
  {
    id in f && if d == 0 then f[id].parent == "" else f[id].parent != "" && HasDepth(f, f[id].parent, d - 1)
  }

  ghost predicate Rooted(f: Forest, id: Id) {
    exists d :: HasDepth(f, id, d)
  }

  /** Every parent chain ends at a top-level repository. */
  ghost predicate AllRooted(f: Forest) {
    forall id {:trigger Rooted(f, id)} | id in f :: Rooted(f, id)
  }

  lemma {:induction false} DepthIsUnique(f: Forest, id: Id, d: nat, e: nat)
    requires HasDepth(f, id, d) && HasDepth(f, id, e)
    ensures d == e
    decreases d
  {
    if d != 0 && e != 0 {
      DepthIsUnique(f, f[id].parent, d - 1, e - 1);
    }
  }

  ghost function Depth(f: Forest, id: Id): (d: nat)
    requires Rooted(f, id)
    ensures HasDepth(f, id, d)
  {
    var d :| HasDepth(f, id, d);
    d
  }

  /** Depth is zero at the top and one more than the parent's elsewhere. */
  lemma DepthStep(f: Forest, id: Id)
    requires Rooted(f, id)
    ensures f[id].parent == "" ==> Depth(f, id) == 0
    ensures f[id].parent != "" ==> Rooted(f, f[id].parent) && Depth(f, id) == Depth(f, f[id].parent) + 1
  {
    var d := Depth(f, id);
    if f[id].parent != "" {
      assert HasDepth(f, f[id].parent, d - 1);
      DepthIsUnique(f, f[id].parent, d - 1, Depth(f, f[id].parent));
    }
  }

  /** A repository is rooted when its parent is. */
  lemma RootedByParent(f: Forest, id: Id)
    requires id in f && f[id].parent != "" && Rooted(f, f[id].parent)
    ensures Rooted(f, id)
  {
    assert HasDepth(f, id, Depth(f, f[id].parent) + 1);
  }

  // ----- ancestors

  /** n steps up the parent chain; a step from a repository that is not declared leads nowhere. */
  function Climb(f: Forest, id: Id, n: nat): Id
    decreases n
  {
    if n == 0 then id else Climb(f, if id in f then f[id].parent else "", n - 1)
  }

  ghost predicate Ancestor(f: Forest, ancestor: Id, descendant: Id) {
    ancestor != "" && exists n: nat :: 0 < n && Climb(f, descendant, n) == ancestor
  }

  lemma {:induction false} ClimbMore(f: Forest, id: Id, m: nat, n: nat)
    ensures Climb(f, Climb(f, id, m), n) == Climb(f, id, m + n)
    decreases m
  {
    if m != 0 {
      ClimbMore(f, if id in f then f[id].parent else "", m - 1, n);
    }
  }

  /** Climbing n steps takes n off the depth, and never passes the top. */
  lemma {:induction false} ClimbLosesDepth(f: Forest, id: Id, d: nat, n: nat)
    requires HasDepth(f, id, d) && "" !in f
    ensures n <= d ==> HasDepth(f, Climb(f, id, n), d - n)
    ensures n > d ==> Climb(f, id, n) == ""
    decreases n
  {
    if n == 0 {
    } else if d == 0 {
      ClimbFromNowhere(f, n - 1);
    } else {
      ClimbLosesDepth(f, f[id].parent, d - 1, n - 1);
    }
  }

  lemma {:induction false} ClimbFromNowhere(f: Forest, n: nat)
    requires "" !in f
    ensures Climb(f, "", n) == ""
  {
    if n != 0 {
      ClimbFromNowhere(f, n - 1);
    }
  }

  /** A repository that comes back to itself is not rooted. */
  lemma CyclesAreNotRooted(f: Forest, id: Id, n: nat)
    requires "" !in f && 0 < n && Climb(f, id, n) == id && id != ""
    ensures !Rooted(f, id)
  {
    if Rooted(f, id) {
      var d := Depth(f, id);
      ClimbLosesDepth(f, id, d, n);
      if n <= d {
        DepthIsUnique(f, id, d, d - n);
      }
    }
  }

  /** An ancestor is a declared repository of smaller depth. */
  lemma AncestorIsHigher(f: Forest, ancestor: Id, descendant: Id)
    requires "" !in f && Rooted(f, descendant) && Ancestor(f, ancestor, descendant)
    ensures Rooted(f, ancestor) && Depth(f, ancestor) < Depth(f, descendant)
  {
    var n: nat :| 0 < n && Climb(f, descendant, n) == ancestor;
    var d := Depth(f, descendant);
    ClimbLosesDepth(f, descendant, d, n);
    DepthIsUnique(f, ancestor, d - n, Depth(f, ancestor));
  }

  /** The ancestors of a repository are its parent and the parent's ancestors. */
  lemma AncestorStep(f: Forest, ancestor: Id, descendant: Id)
    requires descendant in f
    ensures Ancestor(f, ancestor, descendant) <==>
            ancestor != "" && (f[descendant].parent == ancestor || Ancestor(f, ancestor, f[descendant].parent))
  {
    var parent := f[descendant].parent;
    if Ancestor(f, ancestor, descendant) {
      var n: nat :| 0 < n && Climb(f, descendant, n) == ancestor;
      assert Climb(f, parent, n - 1) == ancestor;
    }
    if ancestor != "" && parent == ancestor {
      assert Climb(f, descendant, 1) == ancestor;
    }
    if Ancestor(f, ancestor, parent) {
      var n: nat :| 0 < n && Climb(f, parent, n) == ancestor;
      assert Climb(f, descendant, n + 1) == ancestor;
    }
  }

  /** The ancestor test of the program: a walk up the parent chain. */
  method IsAncestor(f: Forest, ancestor: Id, descendant: Id) returns (answer: bool)
    requires "" !in f && ancestor != "" && Rooted(f, descendant)
    ensures answer <==> Ancestor(f, ancestor, descendant)
  {
    DepthStep(f, descendant);
    AncestorStep(f, ancestor, descendant);
    var parent := f[descendant].parent;
    while parent != ""
      invariant parent != "" ==> Rooted(f, parent)
      invariant Ancestor(f, ancestor, descendant) <==> parent == ancestor || Ancestor(f, ancestor, parent)
      decreases if parent != "" then Depth(f, parent) + 1 else 0
    {
      if parent == ancestor {
        return true;
      }
      DepthStep(f, parent);
      AncestorStep(f, ancestor, parent);
      parent := f[parent].parent;
    }
    NowhereHasNoAncestor(f, ancestor);
    return false;
  }

  lemma NowhereHasNoAncestor(f: Forest, ancestor: Id)
    requires "" !in f
    ensures !Ancestor(f, ancestor, "")
  {
    forall n: nat
      ensures Climb(f, "", n) == ""
    {
      ClimbFromNowhere(f, n);
    }
  }

  // ----- cycle detection

  /** Every parent that is named is declared. */
  predicate Closed(f: Forest) {
    "" !in f && forall id {:trigger f[id].parent} | id in f :: f[id].parent == "" || f[id].parent in f
  }

  /** The repositories being visited all lead to the given one. */
  ghost predicate LeadTo(f: Forest, visiting: set<Id>, id: Id) {
    forall v | v in visiting :: v in f && exists n: nat :: 0 < n && Climb(f, v, n) == id
  }

  /**
   The depth-first visit of the project validation: marks what it has visited, and reports a cycle when it meets
   a repository that is still being visited.
  */
  method Visit(f: Forest, id: Id, visiting: set<Id>, visited: set<Id>) returns (ok: bool, visited': set<Id>)
    requires Closed(f) && id in f && LeadTo(f, visiting, id)
    requires forall v | v in visited :: Rooted(f, v)
    ensures ok <==> Rooted(f, id)
    ensures visited <= visited' && forall v | v in visited' :: Rooted(f, v)
    decreases f.Keys - visiting
  {
    visited' := visited;
    if id in visiting {
      var n: nat :| 0 < n && Climb(f, id, n) == id;
      CyclesAreNotRooted(f, id, n);
      return false, visited;
    }
    if id in visited {
      return true, visited;
    }
    var parent := f[id].parent;
    if parent != "" {
      LeadOneMore(f, visiting, id);
      ok, visited' := Visit(f, parent, visiting + {id}, visited);
      if !ok {
        if Rooted(f, id) {
          DepthStep(f, id);
        }
        return false, visited';
      }
      RootedByParent(f, id);
    } else {
      assert HasDepth(f, id, 0);
    }
    return true, visited' + {id};
  }

  lemma LeadOneMore(f: Forest, visiting: set<Id>, id: Id)
    requires id in f && LeadTo(f, visiting, id)
    ensures LeadTo(f, visiting + {id}, f[id].parent)
  {
    forall v | v in visiting + {id}
      ensures exists n: nat :: 0 < n && Climb(f, v, n) == f[id].parent
    {
      assert Climb(f, id, 1) == f[id].parent;
      if v in visiting {
        var n: nat :| 0 < n && Climb(f, v, n) == id;
        ClimbMore(f, v, n, 1);
      }
    }
  }

  /** The hierarchy check as a whole: it succeeds exactly on forests. */
  method CheckHierarchy(f: Forest) returns (ok: bool)
    requires Closed(f)
    ensures ok <==> AllRooted(f)
  {
    var todo, visited := f.Keys, {};
    while todo != {}
      invariant todo <= f.Keys
      invariant forall v | v in visited :: Rooted(f, v)
      invariant forall v | v in f.Keys - todo :: Rooted(f, v)
      decreases todo
    {
      var id :| id in todo;
      ok, visited := Visit(f, id, {}, visited);
      if !ok {
        return;
      }
      todo := todo - {id};
    }
    return true;
  }
}
