/** Mounts and case-folded paths, on components (internal/pathutil/mount.go). */
module Mounts {
  import opened Options
  import opened Forest

  // ----- case folding

  function Lower(c: char): char {
    if 'A' <= c <= 'Z' then c - 'A' + 'a' else c
  }

  function Fold(s: string): string {
    seq(|s|, i requires 0 <= i < |s| => Lower(s[i]))
  }

  /** The path as a case-insensitive file system sees it. */
  function FoldPath(p: Path): Path {
    seq(|p|, i requires 0 <= i < |p| => Fold(p[i]))
  }

  /** One path is the other or lies below it, on a case-insensitive file system. */
  predicate Overlap(left: Path, right: Path) {
    FoldPath(left) <= FoldPath(right) || FoldPath(right) <= FoldPath(left)
  }

  method CaseFoldedPathEqual(left: Path, right: Path) returns (answer: bool)
    ensures answer <==> FoldPath(left) == FoldPath(right)
  {
    if |left| != |right| {
      return false;
    }
    for index := 0 to |left|
      invariant forall k | 0 <= k < index :: Fold(left[k]) == Fold(right[k])
    {
      if Fold(left[index]) != Fold(right[index]) {
        assert FoldPath(left)[index] != FoldPath(right)[index];
        return false;
      }
    }
    return true;
  }

  /** The overlap test of the program: the shorter path is compared component by component. */
  method CaseFoldedPathOverlap(left: Path, right: Path) returns (answer: bool)
    ensures answer <==> Overlap(left, right)
  {
    var shorter, longer := left, right;
    if |shorter| > |longer| {
      shorter, longer := longer, shorter;
    }
    for index := 0 to |shorter|
      invariant forall k | 0 <= k < index :: Fold(shorter[k]) == Fold(longer[k])
    {
      if Fold(shorter[index]) != Fold(longer[index]) {
        assert FoldPath(shorter)[index] != FoldPath(longer)[index];
        return false;
      }
    }
    assert FoldPath(longer)[..|shorter|] == FoldPath(shorter);
    return true;
  }

  lemma FoldAppend(p: Path, q: Path)
    ensures FoldPath(p + q) == FoldPath(p) + FoldPath(q)
  {
  }

  /** A common root does not change what overlaps. */
  lemma OverlapUnderRoot(root: Path, p: Path, q: Path)
    ensures Overlap(root + p, root + q) <==> Overlap(p, q)
    ensures FoldPath(root + p) == FoldPath(root + q) <==> FoldPath(p) == FoldPath(q)
  {
    FoldAppend(root, p);
    FoldAppend(root, q);
    var r, a, b := FoldPath(root), FoldPath(p), FoldPath(q);
    assert (r + a)[|r|..] == a && (r + b)[|r|..] == b;
    assert a <= b ==> r + a <= r + b;
    assert b <= a ==> r + b <= r + a;
    assert r + a <= r + b ==> (r + b)[..|r + a|][|r|..] == a && b[..|a|] == (r + b)[..|r + a|][|r|..];
    assert r + b <= r + a ==> (r + a)[..|r + b|][|r|..] == b && a[..|b|] == (r + a)[..|r + b|][|r|..];
  }

  // ----- components

  function BeforeDot(s: string): string {
    if s == "" || s[0] == '.' then "" else [s[0]] + BeforeDot(s[1..])
  }

  /** Device names that Windows reserves, with or without an extension. */
  predicate ReservedDevice(c: string) {
    var base := Fold(BeforeDot(c));
    || base in {"con", "prn", "aux", "nul"}
    || (|base| == 4 && base[..3] in {"com", "lpt"} && '1' <= base[3] <= '9')
  }

  predicate Control(c: char) {
    c as int < 32 || 127 <= c as int < 160
  }

  predicate AllowedComponent(c: string) {
    && c != "" && c[|c| - 1] != '.' && c[|c| - 1] != ' '
    && Fold(c) != ".git"
    && (forall x | x in c :: x !in "/\\<>:\"|?*" && !Control(x))
    && !ReservedDevice(c)
  }

  /** Two names that differ by the case of letters at most. */
  predicate SameName(a: string, b: string) {
    |a| == |b| && forall i | 0 <= i < |a| :: Lower(a[i]) == Lower(b[i])
  }

  lemma FoldIsSameName(a: string, b: string)
    ensures Fold(a) == Fold(b) <==> SameName(a, b)
  {
    if SameName(a, b) {
      assert forall i | 0 <= i < |a| :: Fold(a)[i] == Fold(b)[i];
    }
    if Fold(a) == Fold(b) {
      assert forall i | 0 <= i < |a| :: Lower(a[i]) == Fold(a)[i] == Fold(b)[i];
    }
  }

  /** One of the names that Windows reserves, in any case. */
  ghost predicate DeviceName(name: string) {
    || SameName(name, "con") || SameName(name, "prn") || SameName(name, "aux") || SameName(name, "nul")
    || exists d :: PortNumber(name, d)
  }

  predicate PortNumber(name: string, d: char) {
    '1' <= d <= '9' && (SameName(name, "com" + [d]) || SameName(name, "lpt" + [d]))
  }

  /** A component is a device name, or one with an extension. */
  ghost predicate NamesDevice(c: string) {
    exists name: string, extension: string :: IsDevice(c, name, extension)
  }

  ghost predicate IsDevice(c: string, name: string, extension: string) {
    DeviceName(name) && (c == name || c == name + "." + extension)
  }

  lemma {:induction false} DotSplits(c: string)
    ensures '.' !in BeforeDot(c) && BeforeDot(c) <= c
    ensures c == BeforeDot(c) || c == BeforeDot(c) + "." + c[|BeforeDot(c)| + 1..]
  {
    if c != "" && c[0] != '.' {
      DotSplits(c[1..]);
      assert c == [c[0]] + c[1..];
    }
  }

  lemma {:induction false} SplitsAtDot(name: string, rest: string)
    requires '.' !in name && (rest == "" || rest[0] == '.')
    ensures BeforeDot(name + rest) == name
  {
    if name != "" {
      assert (name + rest)[1..] == name[1..] + rest && name[0] in name;
      SplitsAtDot(name[1..], rest);
    } else {
      assert name + rest == rest;
    }
  }

  lemma FoldOfSmall(name: string)
    requires forall x | x in name :: Lower(x) == x
    ensures Fold(name) == name
  {
  }

  lemma PortName(name: string, port: string, d: char)
    requires |port| == 3 && Fold(port) == port && '1' <= d <= '9'
    ensures SameName(name, port + [d]) <==> |name| == 4 && Fold(name)[..3] == port && Fold(name)[3] == d
  {
    assert Fold(port + [d]) == port + [d];
    FoldIsSameName(name, port + [d]);
    assert |name| == 4 && Fold(name)[..3] == port && Fold(name)[3] == d ==> Fold(name) == port + [d];
  }

  lemma DeviceIsReserved(name: string)
    ensures DeviceName(name) <==>
            || Fold(name) in {"con", "prn", "aux", "nul"}
            || (|name| == 4 && Fold(name)[..3] in {"com", "lpt"} && '1' <= Fold(name)[3] <= '9')
  {
    forall plain | plain in {"con", "prn", "aux", "nul"}
      ensures SameName(name, plain) <==> Fold(name) == plain
    {
      FoldOfSmall(plain);
      FoldIsSameName(name, plain);
    }
    FoldOfSmall("com");
    FoldOfSmall("lpt");
    forall d: char
      ensures PortNumber(name, d) <==>
                '1' <= d <= '9' && |name| == 4 && Fold(name)[..3] in {"com", "lpt"} && Fold(name)[3] == d
    {
      if '1' <= d <= '9' {
        PortName(name, "com", d);
        PortName(name, "lpt", d);
      }
    }
    hide SameName, Fold, PortNumber;
    assert |name| == 4 ==> (PortNumber(name, Fold(name)[3]) ==> exists d :: PortNumber(name, d));
  }

  lemma DeviceHasNoDot(name: string)
    requires DeviceName(name)
    ensures '.' !in name
  {
    assert forall i | 0 <= i < |name| :: name[i] == '.' ==> Lower(name[i]) == '.';
  }

  lemma NamedIsReserved(c: string, name: string, rest: string)
    requires DeviceName(name) && c == name + rest && (rest == "" || rest[0] == '.')
    ensures ReservedDevice(c)
  {
    DeviceHasNoDot(name);
    SplitsAtDot(name, rest);
    DeviceIsReserved(name);
    hide DeviceName, BeforeDot;
  }

  lemma ReservedDeviceIff(c: string)
    ensures ReservedDevice(c) <==> NamesDevice(c)
  {
    if ReservedDevice(c) {
      var base := BeforeDot(c);
      DotSplits(c);
      DeviceIsReserved(base);
      assert |Fold(base)| == |base|;
      hide BeforeDot, Fold, DeviceName;
      var extension := if c == base then "" else c[|base| + 1..];
      assert IsDevice(c, base, extension);
    }
    if NamesDevice(c) {
      var name, extension :| IsDevice(c, name, extension);
      hide *;
      var rest := if c == name then "" else "." + extension;
      assert c == name + rest;
      NamedIsReserved(c, name, rest);
    }
  }

  /** What may not be a component of a mount, in full. */
  lemma RefusedComponents(c: string)
    ensures !AllowedComponent(c) <==>
            || c in {"", ".", ".."} || c[|c| - 1] == '.' || c[|c| - 1] == ' '
            || SameName(c, ".git") || NamesDevice(c)
            || exists x | x in c ::
                 x in {'/', '\\', '<', '>', ':', '"', '|', '?', '*'} || x < ' ' || '\U{7F}' <= x < '\U{A0}'
  {
    FoldIsSameName(c, ".git");
    ReservedDeviceIff(c);
  }

  /** A mount is a non-empty path of allowed components; only a top-level mount may be ".". */
  predicate MountAllowed(topLevel: bool, mount: Path) {
    if mount == [] then topLevel else forall c | c in mount :: AllowedComponent(c)
  }

  predicate Within(root: Path, target: Path) {
    root <= target
  }

  /** Resolves one mount against the root or the parent; canonical paths are the paths themselves. */
  function ResolveMount(root: Path, parentPath: Path, mount: Path, topLevel: bool): (r: Option<Path>)
    ensures topLevel || root <= parentPath ==>
              r == if MountAllowed(topLevel, mount) then Some((if topLevel then root else parentPath) + mount) else None
    ensures r.Some? ==> root <= r.value
  {
    if !MountAllowed(topLevel, mount) then None
    else if topLevel then
      if Within(root, root + mount) then Some(root + mount) else None
    else if !Within(root, parentPath) then None
    else
      var candidate := parentPath + mount;
      if Within(root, candidate) && Within(parentPath, candidate) then Some(candidate) else None
  }
}
