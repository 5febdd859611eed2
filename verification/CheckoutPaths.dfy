/**
 The two tests for overlapping paths agree: the one on the text of checkout paths (internal/git/aggregate.go:450-456)
 and the one on the components of repository paths (internal/pathutil/mount.go:206-219).
*/
module CheckoutPaths {
  import Forest
  import Mounts
  import GitBranch

  /** The text of a path: its components, separated by slashes. */
  function Text(p: Forest.Path): (text: string)
    requires p != []
  {
    if |p| == 1 then p[0] else p[0] + "/" + Text(p[1..])
  }

  /** Components are not empty and have no slash. */
  predicate Components(p: Forest.Path) {
    forall c | c in p :: c != "" && '/' !in c
  }

  /** What stands behind a component: nothing, or a slash and more. */
  predicate Follows(rest: string) {
    rest == "" || rest[0] == '/'
  }

  lemma SameLetters(a: string, b: string)
    ensures GitBranch.EqualFold(a, b) <==> Mounts.Fold(a) == Mounts.Fold(b)
  {
    assert forall c :: GitBranch.LowerChar(c) == Mounts.Lower(c);
    Mounts.FoldIsSameName(a, b);
    hide Mounts.Fold, GitBranch.LowerChar, Mounts.Lower;
  }

  /** Of two texts whose beginnings are equal, the components at the beginning are equal. */
  lemma SameComponent(a: string, s: string, b: string, t: string)
    requires '/' !in a && '/' !in b && Follows(s) && Follows(t)
    requires GitBranch.PathPrefix(a + s, b + t)
    ensures |a| == |b| && GitBranch.EqualFold(a, b)
  {
    var x, y := a + s, b + t;
    assert forall i | 0 <= i < |x| :: GitBranch.LowerChar(x[i]) == GitBranch.LowerChar(y[..|x|][i]) ==
                                      GitBranch.LowerChar(y[i]);
    assert forall i | 0 <= i < |a| :: x[i] == a[i] && a[i] in a;
    assert forall i | 0 <= i < |b| :: y[i] == b[i] && b[i] in b;
    assert forall c :: GitBranch.LowerChar(c) == '/' <==> c == '/';
    assert |a| < |x| ==> x[|a|] == '/';
    assert |b| < |y| ==> y[|b|] == '/';
  }

  lemma PrefixByComponent(a: string, s: string, b: string, t: string)
    requires '/' !in a && '/' !in b && Follows(s) && Follows(t)
    ensures GitBranch.PathPrefix(a + s, b + t) <==>
            GitBranch.EqualFold(a, b) && (s == "" || (t != "" && GitBranch.PathPrefix(s[1..], t[1..])))
  {
    var x, y := a + s, b + t;
    if GitBranch.PathPrefix(x, y) {
      SameComponent(a, s, b, t);
      if s != "" {
        BehindComponent(a, s, b, t);
      }
    } else if GitBranch.EqualFold(a, b) && s != "" && Follows(t) {
      BehindComponent(a, s, b, t);
    }
    assert s == "" ==> x == a && y[..|b|] == b;
  }

  /** Behind equal components, and a slash on both sides. */
  lemma BehindComponent(a: string, s: string, b: string, t: string)
    requires GitBranch.EqualFold(a, b) && s != "" && s[0] == '/' && Follows(t)
    ensures GitBranch.PathPrefix(a + s, b + t) <==> t != "" && GitBranch.PathPrefix(s[1..], t[1..])
  {
    var x, y, n := a + s, b + t, |a|;
    if |x| <= |y| {
      assert t[0] == '/';
      forall i | 0 <= i < |x|
        ensures GitBranch.LowerChar(x[i]) == GitBranch.LowerChar(y[i]) <==>
                i <= n || GitBranch.LowerChar(s[1..][i - n - 1]) == GitBranch.LowerChar(t[1..][i - n - 1])
      {
      }
      assert forall i | 0 <= i < |x| :: y[..|x|][i] == y[i];
      assert forall i | 0 <= i < |s| - 1 :: t[1..][..|s| - 1][i] == t[1..][i];
      assert forall i | 0 <= i < |s| - 1 :: s[1..][i] == x[n + 1 + i] && t[1..][i] == y[n + 1 + i];
    }
  }

  /** One text is a prefix of the other, as the program tests it, exactly if the folded components are. */
  lemma {:induction false} PrefixIsComponentPrefix(p: Forest.Path, q: Forest.Path)
    requires p != [] && q != [] && Components(p) && Components(q)
    ensures GitBranch.PathPrefix(Text(p), Text(q)) <==> Mounts.FoldPath(p) <= Mounts.FoldPath(q)
  {
    var s := if |p| == 1 then "" else "/" + Text(p[1..]);
    var t := if |q| == 1 then "" else "/" + Text(q[1..]);
    assert Text(p) == p[0] + s && Text(q) == q[0] + t;
    PrefixByComponent(p[0], s, q[0], t);
    SameLetters(p[0], q[0]);
    if |p| > 1 && |q| > 1 {
      TailComponents(p);
      TailComponents(q);
      PrefixIsComponentPrefix(p[1..], q[1..]);
      assert s[1..] == Text(p[1..]) && t[1..] == Text(q[1..]);
    }
    FoldHead(p, q);
    hide GitBranch.PathPrefix, GitBranch.EqualFold, Mounts.FoldPath, Mounts.Fold, Text;
  }

  lemma TailComponents(p: Forest.Path)
    requires p != [] && Components(p)
    ensures Components(p[1..])
  {
    assert forall c | c in p[1..] :: c in p;
  }

  lemma ConsPrefix<T>(a: seq<T>, b: seq<T>)
    requires a != [] && b != []
    ensures a <= b <==> a[0] == b[0] && a[1..] <= b[1..]
  {
    assert a == [a[0]] + a[1..] && b == [b[0]] + b[1..];
    if a <= b {
      assert a == b[..|a|] && a[1..] == b[1..][..|a| - 1];
    }
    if a[0] == b[0] && a[1..] <= b[1..] {
      assert b[..|a|] == [b[0]] + b[1..][..|a| - 1];
    }
  }

  lemma FoldHead(p: Forest.Path, q: Forest.Path)
    requires p != [] && q != []
    ensures Mounts.FoldPath(p) <= Mounts.FoldPath(q) <==>
            Mounts.Fold(p[0]) == Mounts.Fold(q[0]) && Mounts.FoldPath(p[1..]) <= Mounts.FoldPath(q[1..])
    ensures |p| == 1 ==> Mounts.FoldPath(p[1..]) <= Mounts.FoldPath(q[1..])
    ensures |q| == 1 < |p| ==> !(Mounts.FoldPath(p) <= Mounts.FoldPath(q))
  {
    hide Mounts.Fold;
    Mounts.FoldAppend([p[0]], p[1..]);
    Mounts.FoldAppend([q[0]], q[1..]);
    assert [p[0]] + p[1..] == p && [q[0]] + q[1..] == q;
    var a, b := Mounts.FoldPath(p), Mounts.FoldPath(q);
    assert a == [Mounts.Fold(p[0])] + Mounts.FoldPath(p[1..]) && b == [Mounts.Fold(q[0])] + Mounts.FoldPath(q[1..]);
    assert a[1..] == Mounts.FoldPath(p[1..]) && b[1..] == Mounts.FoldPath(q[1..]);
    ConsPrefix(a, b);
  }

  /** An ignored path overlaps a path of the target exactly if one is the other or lies below it, case ignored. */
  lemma OverlapsAgree(p: Forest.Path, q: Forest.Path)
    requires p != [] && q != [] && Components(p) && Components(q)
    ensures GitBranch.OverlappingPath(Text(p), Text(q)) <==> Mounts.Overlap(p, q)
  {
    PrefixIsComponentPrefix(p, q);
    PrefixIsComponentPrefix(q, p);
    hide Text, Mounts.FoldPath, GitBranch.PathPrefix;
  }
}
