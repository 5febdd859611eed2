/**
 The two-pass capture of the registry and all workspace files while others write
 (internal/service/clone_registry_facts.go:63-141).

 The data directory has a history: the sequence of its states, to which other processes may append between any two
 observations. Decoding is a parameter.
*/
module RegistrySnapshot {
  import opened Options

  /** Everything the capture looks at: the registry, the listing of one project's directory, one workspace file. */
  datatype Key = RegistryFile | Names(project: string) | WorkspaceFile(project: string, name: string)

  /** What is found there. A directory that does not exist lists nothing. */
  datatype Value = Absent | Data(bytes: string) | Listing(names: seq<string>)

  type World = map<Key, Value>

  function At(w: World, key: Key): Value {
    if key.Names? then if key in w && w[key].Listing? then w[key] else Listing([])
    else if key in w && w[key].Data? then w[key] else Absent
  }

  /** How the registry is decoded into the IDs of its projects, and which workspace files decode. */
  datatype Codec = Codec(registry: string -> Option<seq<string>>, workspace: string -> bool) {
    function Projects(v: Value): Option<seq<string>> {
      if v.Data? then registry(v.bytes) else Some([])
    }
  }

  function NamesIn(v: Value): seq<string> {
    if v.Listing? then v.names else []
  }

  /** The keys that one state of the data directory refers to. */
  ghost predicate Refers(c: Codec, w: World, key: Key) {
    match key
    case RegistryFile => true
    case Names(p) => Registered(c, w, p)
    case WorkspaceFile(p, n) => Registered(c, w, p) && n in NamesIn(At(w, Names(p)))
  }

  predicate Registered(c: Codec, w: World, p: string) {
    var projects := c.Projects(At(w, RegistryFile));
    projects.Some? && p in projects.value
  }

  // ----- histories

  ghost predicate HeldAt(history: seq<World>, i: nat, key: Key, v: Value) {
    i < |history| && At(history[i], key) == v
  }

  /** From the given moment on, the key held two different values. */
  ghost predicate Changed(history: seq<World>, start: nat, key: Key) {
    exists i, j :: start <= i < j < |history| && At(history[i], key) != At(history[j], key)
  }

  /** From the given moment on, no key ever comes back to a value that it has given up. */
  ghost predicate NeverReturns(history: seq<World>, start: nat) {
    forall key, i, k, j |
      start <= i < k < j < |history| && At(history[i], key) == At(history[j], key) ::
          At(history[k], key) == At(history[i], key)
  }

  /** The captured values are those of one state, and are all that this state refers to. */
  ghost predicate IsSnapshot(c: Codec, w: World, view: World) {
    && (forall key | key in view :: view[key] == At(w, key))
    && (forall key :: key in view <==> Refers(c, w, key))
  }

  /** The captured keys are those that the captured values themselves refer to. */
  ghost predicate Complete(c: Codec, view: World) {
    RegistryFile in view && (forall key :: key in view <==> Refers(c, view, key))
  }

  /** Every value was seen at or before a moment, and again at or after it, all since the capture started. */
  ghost predicate SeenAround(history: seq<World>, start: nat, now: nat, view: World) {
    now < |history| && forall key | key in view :: SeenTwice(history, start, now, key, view[key])
  }

  ghost predicate SeenTwice(history: seq<World>, start: nat, now: nat, key: Key, v: Value) {
    exists i: nat, j: nat :: start <= i <= now <= j && HeldAt(history, i, key, v) && HeldAt(history, j, key, v)
  }

  /** The keys of a complete view depend on the captured values only. */
  lemma RefersAgrees(c: Codec, view: World, w: World, key: Key)
    requires Complete(c, view) && forall k | k in view :: view[k] == At(w, k)
    ensures Refers(c, w, key) <==> Refers(c, view, key)
  {
    assert At(view, RegistryFile) == At(w, RegistryFile);
    match key
    case RegistryFile =>
    case Names(p) =>
    case WorkspaceFile(p, n) =>
      if Registered(c, view, p) {
        assert Refers(c, view, Names(p));
        assert At(view, Names(p)) == At(w, Names(p));
      }
  }

  /** A complete view of values that were all held at one moment is a snapshot of that moment. */
  lemma HeldIsSnapshot(c: Codec, w: World, view: World)
    requires Complete(c, view) && forall key | key in view :: view[key] == At(w, key)
    ensures IsSnapshot(c, w, view)
  {
    forall key
      ensures key in view <==> Refers(c, w, key)
    {
      RefersAgrees(c, view, w, key);
    }
  }

  /**
   The double collect. When no key comes back to a value it has given up, two identical collections around a moment
   are the state of that moment.
  */
  lemma DoubleCollect(c: Codec, history: seq<World>, start: nat, now: nat, view: World)
    requires Complete(c, view) && SeenAround(history, start, now, view) && NeverReturns(history, start)
    ensures IsSnapshot(c, history[now], view)
  {
    forall key | key in view
      ensures view[key] == At(history[now], key)
    {
      HeldBetween(history, start, now, key, view[key]);
    }
    hide SeenAround, NeverReturns;
    HeldIsSnapshot(c, history[now], view);
  }

  lemma HeldBetween(history: seq<World>, start: nat, now: nat, key: Key, v: Value)
    requires now < |history| && SeenTwice(history, start, now, key, v) && NeverReturns(history, start)
    ensures At(history[now], key) == v
  {
    var i: nat, j: nat :| start <= i <= now <= j && HeldAt(history, i, key, v) && HeldAt(history, j, key, v);
    if i < now < j {
      assert At(history[i], key) == At(history[j], key);
    }
  }

  /** Around the moment the key gave up the value and came back to it. */
  ghost predicate Returned(history: seq<World>, start: nat, now: nat, key: Key, v: Value) {
    SeenTwice(history, start, now, key, v) && !HeldAt(history, now, key, v)
  }

  /** In hindsight: a twice-seen view fails to be a snapshot exactly when some captured value went and came back. */
  lemma DoubleCollectInHindsight(c: Codec, history: seq<World>, start: nat, now: nat, view: World)
    requires Complete(c, view) && SeenAround(history, start, now, view)
    ensures IsSnapshot(c, history[now], view) <==>
            forall key | key in view :: !Returned(history, start, now, key, view[key])
  {
    if forall key | key in view :: !Returned(history, start, now, key, view[key]) {
      HeldIsSnapshot(c, history[now], view);
    }
  }

  // ----- the condition on the writers is needed

  /** Two workspace files that are written in turn: (a, b), (c, d), (a, b), (c, d). */
  function Alternating(even: bool): World {
    map[RegistryFile := Data("r"), Names("p") := Listing(["f", "g"]),
        WorkspaceFile("p", "f") := Data(if even then "a" else "c"),
        WorkspaceFile("p", "g") := Data(if even then "b" else "d")]
  }

  function Mixed(): World {
    map[RegistryFile := Data("r"), Names("p") := Listing(["f", "g"]),
        WorkspaceFile("p", "f") := Data("a"), WorkspaceFile("p", "g") := Data("d")]
  }

  function OneProject(): Codec
    ensures WellFormed(OneProject())
  {
    Codec(bytes => Some(["p"]), bytes => true)
  }

  lemma MixedIsNeverHeld(even: bool)
    ensures !IsSnapshot(OneProject(), Alternating(even), Mixed())
  {
    var key := if even then WorkspaceFile("p", "g") else WorkspaceFile("p", "f");
    assert key in Mixed() && Mixed()[key] != At(Alternating(even), key);
  }

  lemma MixedIsComplete()
    ensures Complete(OneProject(), Mixed())
  {
    var c, view := OneProject(), Mixed();
    assert At(view, RegistryFile) == Data("r") && c.Projects(Data("r")) == Some(["p"]);
    assert NamesIn(At(view, Names("p"))) == ["f", "g"];
    forall key: Key
      ensures key in view <==> Refers(c, view, key)
    {
      assert Registered(c, view, "p");
    }
  }

  /** The registry and every workspace file that one state refers to can be decoded. */
  ghost predicate Readable(c: Codec, w: World) {
    && c.Projects(At(w, RegistryFile)).Some?
    && forall p, n | Refers(c, w, WorkspaceFile(p, n)) :: Decodes(c, At(w, WorkspaceFile(p, n)))
  }

  /** The registry, or some workspace file, holds data that cannot be decoded. */
  ghost predicate Garbled(c: Codec, w: World) {
    c.Projects(At(w, RegistryFile)).None? || exists p, n :: GarbledFile(c, w, p, n)
  }

  ghost predicate GarbledFile(c: Codec, w: World, p: string, n: string) {
    At(w, WorkspaceFile(p, n)).Data? && !Decodes(c, At(w, WorkspaceFile(p, n)))
  }

  /** A workspace file is listed and is not there. */
  ghost predicate Missing(c: Codec, w: World) {
    exists p, n :: MissingFile(c, w, p, n)
  }

  ghost predicate MissingFile(c: Codec, w: World, p: string, n: string) {
    Refers(c, w, WorkspaceFile(p, n)) && At(w, WorkspaceFile(p, n)).Absent?
  }

  predicate Decodes(c: Codec, v: Value) {
    v.Data? && c.workspace(v.bytes)
  }

  ghost predicate SomethingChanged(history: seq<World>, start: nat) {
    exists key :: Changed(history, start, key)
  }

  // ----- the capture

  /** Every value of the view has been seen since the capture started. */
  ghost predicate Seen(history: seq<World>, start: nat, view: World) {
    forall key | key in view :: exists i: nat :: start <= i && HeldAt(history, i, key, view[key])
  }

  lemma SeenLater(before: seq<World>, after: seq<World>, start: nat, view: World)
    requires Seen(before, start, view) && before <= after
    ensures Seen(after, start, view)
  {
    forall key | key in view
      ensures exists i: nat :: start <= i && HeldAt(after, i, key, view[key])
    {
      var i: nat :| start <= i && HeldAt(before, i, key, view[key]);
      assert HeldAt(after, i, key, view[key]);
    }
  }

  /** The view with the listing of one project, and with some of the files in it. */
  ghost predicate AddsFiles(view: World, view': World, p: string, listing: Value, names: seq<string>) {
    && (forall key | key in view :: key in view' && view'[key] == view[key])
    && Names(p) in view' && view'[Names(p)] == listing && listing.Listing?
    && (forall key :: key in view' <==>
          key in view || key == Names(p) || (key.WorkspaceFile? && key.project == p && key.name in names))
    && (forall n | n in names :: view'[WorkspaceFile(p, n)].Data?)
  }

  ghost predicate AddsProject(view: World, view': World, p: string) {
    Names(p) in view' && AddsFiles(view, view', p, view'[Names(p)], NamesIn(view'[Names(p)]))
  }

  /** Apart from its first state, the history is what the given writers made it. */
  ghost predicate WrittenBy(writers: Option<Key -> World>, history: seq<World>) {
    writers.Some? ==> forall t | 0 < t < |history| :: exists key :: history[t] == writers.value(key)
  }

  datatype Outcome = Captured(view: World) | Failed | Conflict

  class DataDirectory {
    var world: World
    ghost var history: seq<World>
    ghost var failures: nat
    /** If given: nothing fails, and just before each observation others write what depends on the observed key. */
    const writers: Option<Key -> World>

    constructor (writers: Option<Key -> World>, world: World)
      ensures Valid() && this.writers == writers && history == [world] && failures == 0
    {
      this.writers, this.world, history, failures := writers, world, [world], 0;
    }

    /** What the given writers show wherever the capture looks. */
    function Shown(key: Key): Value {
      if writers.Some? then At(writers.value(key), key) else Absent
    }

    /** Everything the given writers show can be decoded. */
    ghost predicate ShownDecodes(c: Codec)
      ensures ShownDecodes(c) ==> writers.Some?
    {
      && writers.Some? && c.Projects(Shown(RegistryFile)).Some?
      && forall p, n | n in NamesIn(Shown(Names(p))) :: Decodes(c, Shown(WorkspaceFile(p, n)))
    }

    /** The view is what the given writers show. */
    ghost predicate ViewShown(view: World) {
      writers.Some? ==> forall key | key in view :: view[key] == Shown(key)
    }

    ghost predicate Valid()
      reads this
    {
      history != [] && history[|history| - 1] == world && WrittenBy(writers, history)
    }

    lemma ShowOne(view: World, key: Key, v: Value)
      requires ViewShown(view) && (writers.Some? ==> v == Shown(key))
      ensures ViewShown(view[key := v])
    {
    }

    lemma FileDecodes(c: Codec, p: string, names: seq<string>, k: nat)
      requires ShownDecodes(c) && k < |names| && Shown(Names(p)) == Listing(names)
      ensures Decodes(c, Shown(WorkspaceFile(p, names[k])))
    {
    }

    /** Others write; then the key is read, which may fail. */
    method Observe(key: Key) returns (v: Option<Value>)
      requires Valid()
      modifies this
      ensures Valid() && old(history) <= history
      ensures failures == old(failures) + if v.Some? then 0 else 1
      ensures v.Some? ==> HeldAt(history, |history| - 1, key, v.value)
      ensures v.Some? ==> if key.Names? then v.value.Listing? else v.value.Data? || v.value.Absent?
      ensures writers.Some? ==> v == Some(Shown(key)) && history == old(history) + [writers.value(key)]
    {
      if writers.Some? {
        world := writers.value(key);
        history := history + [world];
        return Some(At(world, key));
      }
      ghost var others: seq<World> := *;
      world := *;
      history := history + others + [world];
      var fails: bool := *;
      if fails {
        failures := failures + 1;
        return None;
      }
      return Some(At(world, key));
    }

    /** Reads the listing of one project and all files in it. */
    method CaptureProject(c: Codec, p: string, view: World, ghost start: nat) returns (outcome: Outcome)
      requires Valid() && start < |history| && Seen(history, start, view) && AnotherProject(view, p) &&
               Knows(c, view, p)
      requires ViewShown(view)
      modifies this
      ensures Valid() && old(history) <= history && failures >= old(failures)
      ensures !outcome.Captured? ==>
                failures > old(failures) || SomethingChanged(history, start) || !Readable(c, history[|history| - 1])
      ensures outcome.Failed? ==> failures > old(failures) || Garbled(c, history[|history| - 1])
      ensures outcome.Conflict? ==> SomethingChanged(history, start) || Missing(c, history[|history| - 1])
      ensures outcome.Captured? ==> Seen(history, start, outcome.view) && AddsProject(view, outcome.view, p)
      ensures if outcome.Captured? then ViewShown(outcome.view) else !ShownDecodes(c)
    {
      hide Garbled, Missing, WrittenBy, ViewShown, ShownDecodes, Shown, Seen, AddsFiles, AddsProject, AnotherProject,
           HeldAt, Knows, SomethingChanged, Readable;
      var listing := Observe(Names(p));
      if listing.None? {
        return Failed;
      }
      SeeOne(old(history), history, start, view, Names(p), listing.value);
      AddListing(view, p, listing.value);
      ShowOne(view, Names(p), listing.value);
      var names := listing.value.names;
      var v := view[Names(p) := listing.value];
      for k := 0 to |names|
        invariant Valid() && old(history) <= history && failures >= old(failures)
        invariant Seen(history, start, v) && AddsFiles(view, v, p, listing.value, names[..k]) && ViewShown(v)
      {
        ghost var before := history;
        var file := Observe(WorkspaceFile(p, names[k]));
        if file.None? {
          return Failed;
        }
        SeeOne(before, history, start, v, WorkspaceFile(p, names[k]), file.value);
        if file.value.Absent? || !c.workspace(file.value.bytes) {
          if ShownDecodes(c) {
            FileDecodes(c, p, names, k);
          }
          FileShows(c, before, history, start, view, v, p, listing.value, names, k, file.value);
          return if file.value.Absent? then Conflict else Failed;
        }
        ShowOne(v, WorkspaceFile(p, names[k]), file.value);
        AddFile(view, v, p, listing.value, names[..k], names[k], file.value);
        v := v[WorkspaceFile(p, names[k]) := file.value];
        assert names[..k + 1] == names[..k] + [names[k]];
      }
      assert names[..|names|] == names;
      AddAll(view, v, p, listing.value);
      return Captured(v);
    }

    /** The first pass: the registry, and every registered project in turn. */
    method Capture(c: Codec, ghost start: nat) returns (outcome: Outcome, projects: seq<string>)
      requires Valid() && start < |history| && WellFormed(c)
      modifies this
      ensures Valid() && old(history) <= history && failures >= old(failures)
      ensures !outcome.Captured? ==>
                failures > old(failures) || SomethingChanged(history, start) || !Readable(c, history[|history| - 1])
      ensures outcome.Failed? ==> failures > old(failures) || Garbled(c, history[|history| - 1])
      ensures outcome.Conflict? ==> SomethingChanged(history, start) || Missing(c, history[|history| - 1])
      ensures outcome.Captured? ==> Seen(history, start, outcome.view) && Complete(c, outcome.view)
      ensures outcome.Captured? ==> c.Projects(At(outcome.view, RegistryFile)) == Some(projects)
      ensures if outcome.Captured? then ViewShown(outcome.view) else !ShownDecodes(c)
    {
      hide Garbled, Missing, WrittenBy, Shown, Seen, AddsProject, Complete, HeldAt, Projected, Knows, SomethingChanged,
           Readable;
      var registry := Observe(RegistryFile);
      if registry.None? {
        return Failed, [];
      }
      var decoded := c.Projects(registry.value);
      if decoded.None? {
        RegistryShows(c, history, registry.value);
        assert writers.Some? ==> registry.value == Shown(RegistryFile);
        return Failed, [];
      }
      projects := decoded.value;
      SeeOne(old(history), history, start, map[], RegistryFile, registry.value) by { SeeNothing(old(history), start); }
      var view: World := map[RegistryFile := registry.value];
      AddRegistry(registry.value);
      hide ViewShown, ShownDecodes;
      ShowOne(map[], RegistryFile, registry.value);
      for k := 0 to |projects|
        invariant Valid() && old(history) <= history && failures >= old(failures)
        invariant Seen(history, start, view) && Projected(view, registry.value, projects[..k]) && ViewShown(view)
      {
        NextProject(c, registry.value, projects, k, view);
        NextIsKnown(c, registry.value, projects, k, view);
        var more := CaptureProject(c, projects[k], view, start);
        if !more.Captured? {
          return more, [];
        }
        AddProject(view, more.view, registry.value, projects[..k], projects[k]);
        view := more.view;
        assert projects[..k + 1] == projects[..k] + [projects[k]];
      }
      assert projects[..|projects|] == projects;
      AllProjected(c, view, registry.value, projects);
      return Captured(view), projects;
    }

    /** Reads one key again and compares. */
    method Revalidate(view: World, key: Key, ghost start: nat, ghost now: nat, ghost keys: set<Key>)
      returns (same: bool)
      requires Valid() && start <= now < |history| && key in view
      requires Seen(history, start, view) && SeenAgain(history, now, view, keys)
      requires ViewShown(view)
      modifies this
      ensures Valid() && old(history) <= history && failures >= old(failures)
      ensures Seen(history, start, view)
      ensures same ==> SeenAgain(history, now, view, keys + {key})
      ensures !same ==> failures > old(failures) || SomethingChanged(history, start)
      ensures writers.Some? ==> same
    {
      hide WrittenBy, Shown, Seen, SeenAgain, HeldAt, SomethingChanged;
      var v := Observe(key);
      SeenLater(old(history), history, start, view);
      if v.None? {
        return false;
      }
      if v.value != view[key] {
        SeeChange(old(history), history, start, view, key, v.value);
        return false;
      }
      SeeOneAgain(old(history), history, now, view, keys, key);
      return true;
    }

    /** The second pass: the registry, all listings, all files. */
    method RevalidateAll(c: Codec, view: World, projects: seq<string>, ghost start: nat, ghost now: nat)
      returns (same: bool)
      requires Valid() && start <= now < |history| && Seen(history, start, view)
      requires Complete(c, view) && c.Projects(At(view, RegistryFile)) == Some(projects)
      requires ViewShown(view)
      modifies this
      ensures Valid() && old(history) <= history && failures >= old(failures)
      ensures same ==> SeenAgain(history, now, view, view.Keys)
      ensures !same ==> failures > old(failures) || SomethingChanged(history, start)
      ensures writers.Some? ==> same
    {
      hide *;
      KeysAreParts(c, projects, view);
      SeenNoneAgain(history, now, view);
      same := Revalidate(view, RegistryFile, start, now, {});
      if !same {
        return;
      }
      ghost var done: set<Key>;
      same, done := RevalidateNames(view, projects, start, now, {} + {RegistryFile});
      if !same {
        return;
      }
      same, done := RevalidateFiles(view, projects, start, now, done);
    }

    method RevalidateNames(view: World, projects: seq<string>, ghost start: nat, ghost now: nat, ghost keys: set<Key>)
      returns (same: bool, ghost keys': set<Key>)
      requires Valid() && start <= now < |history| && Seen(history, start, view) && SeenAgain(history, now, view, keys)
      requires NamesOf(projects) <= view.Keys
      requires ViewShown(view)
      modifies this
      ensures Valid() && old(history) <= history && failures >= old(failures)
      ensures Seen(history, start, view)
      ensures same ==> SeenAgain(history, now, view, keys') && keys' == keys + NamesOf(projects)
      ensures !same ==> failures > old(failures) || SomethingChanged(history, start)
      ensures writers.Some? ==> same
    {
      hide WrittenBy, ViewShown, Seen, SeenAgain, SomethingChanged;
      keys' := keys;
      for k := 0 to |projects|
        invariant Valid() && old(history) <= history && failures >= old(failures)
        invariant Seen(history, start, view) && SeenAgain(history, now, view, keys')
        invariant keys' == keys + NamesOf(projects[..k])
      {
        assert Names(projects[k]) in NamesOf(projects);
        same := Revalidate(view, Names(projects[k]), start, now, keys');
        if !same {
          return;
        }
        keys' := keys' + {Names(projects[k])};
        assert projects[..k + 1] == projects[..k] + [projects[k]];
      }
      assert projects[..|projects|] == projects;
      same := true;
    }

    method RevalidateFiles(view: World, projects: seq<string>, ghost start: nat, ghost now: nat, ghost keys: set<Key>)
      returns (same: bool, ghost keys': set<Key>)
      requires Valid() && start <= now < |history| && Seen(history, start, view) && SeenAgain(history, now, view, keys)
      requires FilesOf(projects, view) <= view.Keys
      requires ViewShown(view)
      modifies this
      ensures Valid() && old(history) <= history && failures >= old(failures)
      ensures Seen(history, start, view)
      ensures same ==> SeenAgain(history, now, view, keys') && keys' == keys + FilesOf(projects, view)
      ensures !same ==> failures > old(failures) || SomethingChanged(history, start)
      ensures writers.Some? ==> same
    {
      hide WrittenBy, ViewShown, Seen, SeenAgain, SomethingChanged, FilesIn;
      keys' := keys;
      assert FilesOf(projects[..0], view) == {};
      for k := 0 to |projects|
        invariant Valid() && old(history) <= history && failures >= old(failures)
        invariant Seen(history, start, view) && SeenAgain(history, now, view, keys')
        invariant keys' == keys + FilesOf(projects[..k], view)
      {
        hide FilesOf;
        OneMoreProject(view, projects, k);
        same, keys' := RevalidateProject(view, projects[k], start, now, keys');
        if !same {
          return;
        }
      }
      assert projects[..|projects|] == projects;
      same := true;
    }

    method RevalidateProject(view: World, p: string, ghost start: nat, ghost now: nat, ghost keys: set<Key>)
      returns (same: bool, ghost keys': set<Key>)
      requires Valid() && start <= now < |history| && Seen(history, start, view) && SeenAgain(history, now, view, keys)
      requires FilesIn(p, view) <= view.Keys
      requires ViewShown(view)
      modifies this
      ensures Valid() && old(history) <= history && failures >= old(failures)
      ensures Seen(history, start, view)
      ensures same ==> SeenAgain(history, now, view, keys') && keys' == keys + FilesIn(p, view)
      ensures !same ==> failures > old(failures) || SomethingChanged(history, start)
      ensures writers.Some? ==> same
    {
      hide WrittenBy, ViewShown, Seen, SeenAgain, SomethingChanged;
      keys' := keys;
      var names := NamesIn(At(view, Names(p)));
      for m := 0 to |names|
        invariant Valid() && old(history) <= history && failures >= old(failures)
        invariant Seen(history, start, view) && SeenAgain(history, now, view, keys')
        invariant keys' == keys + set n | n in names[..m] :: WorkspaceFile(p, n)
      {
        var key := WorkspaceFile(p, names[m]);
        assert key in FilesIn(p, view);
        same := Revalidate(view, key, start, now, keys');
        if !same {
          return;
        }
        keys' := keys' + {key};
        assert names[..m + 1] == names[..m] + [names[m]];
      }
      assert names[..|names|] == names;
      same := true;
    }

    /**
     The capture as a whole. As long as no key comes back during the call to a value it gave up during the call, what is
     returned is exactly the state of the registry and of all workspaces at one moment of the call. When nothing changes
     during the call, every observation works and everything decodes, it succeeds. Before a first pass was complete it
     fails, for a read that failed or for data that cannot be decoded; it reports a conflict for a listed file that is
     missing, or, after a complete first pass, for anything that is not seen again.
    */
    method Read(c: Codec) returns (outcome: Outcome, ghost now: nat, ghost first: Outcome)
      requires Valid() && WellFormed(c)
      modifies this
      ensures Valid() && old(history) <= history && |old(history)| - 1 <= now < |history|
      ensures outcome.Captured? ==>
                Complete(c, outcome.view) && SeenAround(history, |old(history)| - 1, now, outcome.view)
      ensures outcome.Captured? && NeverReturns(history, |old(history)| - 1) ==>
                IsSnapshot(c, history[now], outcome.view)
      ensures first.Captured? ==>
                Complete(c, first.view) && Seen(history[..now + 1], |old(history)| - 1, first.view)
      ensures outcome.Captured? ==> first == outcome
      ensures outcome.Failed? ==>
                !first.Captured? && (failures > old(failures) || Garbled(c, history[now]))
      ensures outcome.Conflict? && !first.Captured? ==>
                SomethingChanged(history, |old(history)| - 1) || Missing(c, history[now])
      ensures outcome.Conflict? && first.Captured? ==>
                failures > old(failures) || SomethingChanged(history, |old(history)| - 1)
      ensures ShownDecodes(c) ==> outcome.Captured? && ViewShown(outcome.view)
      ensures !outcome.Captured? ==>
                failures > old(failures) || SomethingChanged(history, |old(history)| - 1) || !Readable(c, history[now])
    {
      hide WrittenBy, ViewShown, ShownDecodes, Seen, SeenAgain, SeenAround, Complete, SomethingChanged, Readable;
      hide IsSnapshot, NeverReturns, WellFormed, Garbled, Missing;
      ghost var start := |history| - 1;
      var captured, projects := Capture(c, start);
      now, first := |history| - 1, captured;
      if !captured.Captured? {
        return captured, now, first;
      }
      var view := captured.view;
      ghost var before := history;
      var same := RevalidateAll(c, view, projects, start, now);
      assert history[..now + 1] == before;
      if !same {
        return Conflict, now, first;
      }
      SeenBeforeAndAgain(before, history, start, view);
      if NeverReturns(history, start) {
        DoubleCollect(c, history, start, now, view);
      }
      return captured, now, first;
    }
  }

  /**
   What two writers show: the second file just after the one has written, every other key just after the other.
  */
  function TakingTurns(): Key -> World {
    key => Alternating(key != WorkspaceFile("p", "g"))
  }

  lemma TurnsShow(directory: DataDirectory, key: Key)
    requires directory.writers == Some(TakingTurns())
    ensures directory.Shown(key) == At(Mixed(), key)
  {
  }

  lemma TurnsShowMixed(directory: DataDirectory, view: World)
    requires directory.writers == Some(TakingTurns()) && directory.ViewShown(view) && Complete(OneProject(), view)
    ensures view == Mixed()
  {
    forall key
      ensures directory.Shown(key) == At(Mixed(), key)
    {
      TurnsShow(directory, key);
    }
    hide TakingTurns, DataDirectory.Shown, OneProject;
    MixedIsComplete();
    assert forall key | key in view :: view[key] == At(Mixed(), key);
    hide Mixed, At;
    forall key
      ensures key in view <==> key in Mixed()
    {
      RefersAgrees(OneProject(), view, Mixed(), key);
    }
    assert forall key | key in view :: view[key] == Mixed()[key] by { SameWhereHeld(view); }
  }

  lemma SameWhereHeld(view: World)
    requires view.Keys == Mixed().Keys && forall key | key in view :: view[key] == At(Mixed(), key)
    ensures view == Mixed()
  {
  }

  lemma TurnsDecode(directory: DataDirectory)
    requires directory.writers == Some(TakingTurns())
    ensures directory.ShownDecodes(OneProject())
  {
    forall key
      ensures directory.Shown(key) == At(Mixed(), key)
    {
      TurnsShow(directory, key);
    }
    hide TakingTurns, DataDirectory.Shown;
  }

  lemma TurnsAreNeverMixed(history: seq<World>)
    requires history != [] && history[0] == Alternating(true) && WrittenBy(Some(TakingTurns()), history)
    ensures forall t | 0 <= t < |history| :: !IsSnapshot(OneProject(), history[t], Mixed())
  {
    MixedIsNeverHeld(true);
    MixedIsNeverHeld(false);
    hide IsSnapshot, Alternating, Mixed;
    forall t | 0 <= t < |history|
      ensures history[t] == Alternating(true) || history[t] == Alternating(false)
    {
      if t > 0 {
        var key :| history[t] == TakingTurns()(key);
      }
    }
  }

  /**
   When values do come back, both passes of a call can agree on a view that no moment ever held: the call succeeds, and
   each file is seen twice, but always at times when the other one holds its other value.
  */
  method ReturningValuesDeceive() returns (directory: DataDirectory, view: World, ghost now: nat)
    ensures directory.Valid() && fresh(directory) && Complete(OneProject(), view)
    ensures SeenAround(directory.history, 0, now, view)
    ensures forall t | 0 <= t < |directory.history| :: !IsSnapshot(OneProject(), directory.history[t], view)
  {
    hide Alternating, Mixed, Complete, SeenAround, IsSnapshot, NeverReturns, SomethingChanged, Readable, OneProject;
    hide TakingTurns, WrittenBy, WellFormed, DataDirectory.ViewShown, DataDirectory.ShownDecodes, Registered, Refers;
    directory := new DataDirectory(Some(TakingTurns()), Alternating(true));
    TurnsDecode(directory);
    var outcome;
    ghost var first;
    outcome, now, first := directory.Read(OneProject());
    view := outcome.view;
    TurnsShowMixed(directory, view);
    TurnsAreNeverMixed(directory.history);
  }

  /** Every value of the given keys has been seen again. */
  ghost predicate SeenAgain(history: seq<World>, now: nat, view: World, keys: set<Key>) {
    forall key | key in keys && key in view :: exists j: nat :: now <= j && HeldAt(history, j, key, view[key])
  }

  lemma SeeOneAgain(before: seq<World>, after: seq<World>, now: nat, view: World, keys: set<Key>, key: Key)
    requires SeenAgain(before, now, view, keys) && before <= after && now < |after|
    requires key in view && HeldAt(after, |after| - 1, key, view[key])
    ensures SeenAgain(after, now, view, keys + {key})
  {
    forall k | k in keys + {key} && k in view
      ensures exists j: nat :: now <= j && HeldAt(after, j, k, view[k])
    {
      if k == key {
        assert HeldAt(after, |after| - 1, k, view[k]);
      } else {
        var j: nat :| now <= j && HeldAt(before, j, k, view[k]);
        assert HeldAt(after, j, k, view[k]);
      }
    }
  }

  /** A value that is not the captured one shows a change. */
  lemma SeeChange(before: seq<World>, after: seq<World>, start: nat, view: World, key: Key, v: Value)
    requires Seen(before, start, view) && before <= after && key in view && after != []
    requires HeldAt(after, |after| - 1, key, v) && v != view[key]
    ensures SomethingChanged(after, start)
  {
    var i: nat :| start <= i && HeldAt(before, i, key, view[key]);
    assert HeldAt(after, i, key, view[key]);
    assert Changed(after, start, key);
  }

  /** The view holds a registry that lists the project. */
  predicate Knows(c: Codec, view: World, p: string) {
    RegistryFile in view && Registered(c, view, p) && At(view, RegistryFile) == view[RegistryFile]
  }

  lemma RegistryShows(c: Codec, history: seq<World>, registry: Value)
    requires history != [] && HeldAt(history, |history| - 1, RegistryFile, registry) && c.Projects(registry).None?
    ensures !Readable(c, history[|history| - 1]) && Garbled(c, history[|history| - 1])
  {
  }

  /** A value that has been seen is still there, or something changed. */
  lemma StillThere(history: seq<World>, start: nat, view: World, key: Key)
    requires Seen(history, start, view) && key in view && history != []
    ensures At(history[|history| - 1], key) == view[key] || SomethingChanged(history, start)
  {
    var i: nat :| start <= i && HeldAt(history, i, key, view[key]);
    if At(history[|history| - 1], key) != view[key] {
      assert Changed(history, start, key);
    }
  }

  /** A listed file that is missing or does not decode shows a change, or data that cannot be read. */
  lemma FileShows(c: Codec, before: seq<World>, history: seq<World>, start: nat, view: World,
                  v: World, p: string, listing: Value, names: seq<string>, k: nat, file: Value)
    requires Seen(before, start, v) && before <= history && history != []
    requires Knows(c, view, p) && k < |names| && listing == Listing(names) && AddsFiles(view, v, p, listing, names[..k])
    requires HeldAt(history, |history| - 1, WorkspaceFile(p, names[k]), file) && !Decodes(c, file)
    ensures SomethingChanged(history, start) || !Readable(c, history[|history| - 1])
    ensures if file.Data? then Garbled(c, history[|history| - 1])
            else file.Absent? ==> SomethingChanged(history, start) || Missing(c, history[|history| - 1])
  {
    var w := history[|history| - 1];
    assert file.Data? ==> GarbledFile(c, w, p, names[k]);
    SeenLater(before, history, start, v);
    StillThere(history, start, v, RegistryFile);
    StillThere(history, start, v, Names(p));
    hide Seen, SomethingChanged;
    if !SomethingChanged(history, start) {
      assert Registered(c, w, p) && names[k] in NamesIn(At(w, Names(p)));
      assert Refers(c, w, WorkspaceFile(p, names[k]));
      assert file.Absent? ==> MissingFile(c, w, p, names[k]);
    }
  }

  /** Everything the captured values refer to. */
  function Keys(projects: seq<string>, view: World): set<Key> {
    {RegistryFile} + NamesOf(projects) + FilesOf(projects, view)
  }

  function NamesOf(projects: seq<string>): set<Key> {
    set p | p in projects :: Names(p)
  }

  function FilesOf(projects: seq<string>, view: World): set<Key> {
    set p, n | p in projects && n in NamesIn(At(view, Names(p))) :: WorkspaceFile(p, n)
  }

  function FilesIn(p: string, view: World): set<Key> {
    set n | n in NamesIn(At(view, Names(p))) :: WorkspaceFile(p, n)
  }

  lemma OneMoreProject(view: World, projects: seq<string>, k: nat)
    requires k < |projects|
    ensures FilesOf(projects[..k + 1], view) == FilesOf(projects[..k], view) + FilesIn(projects[k], view)
    ensures FilesIn(projects[k], view) <= FilesOf(projects, view)
  {
    assert projects[..k + 1] == projects[..k] + [projects[k]];
  }

  lemma KeysAreParts(c: Codec, projects: seq<string>, view: World)
    requires Complete(c, view) && c.Projects(At(view, RegistryFile)) == Some(projects)
    ensures RegistryFile in view && NamesOf(projects) <= view.Keys && FilesOf(projects, view) <= view.Keys
    ensures view.Keys == {} + {RegistryFile} + NamesOf(projects) + FilesOf(projects, view)
  {
    KeysAreAll(c, projects, view);
  }

  lemma SeenNoneAgain(history: seq<World>, now: nat, view: World)
    ensures SeenAgain(history, now, view, {})
  {
  }

  lemma KeysAreAll(c: Codec, projects: seq<string>, view: World)
    requires Complete(c, view) && c.Projects(At(view, RegistryFile)) == Some(projects)
    ensures view.Keys == Keys(projects, view)
  {
    forall key: Key
      ensures key in view <==> key in Keys(projects, view)
    {
      assert key in view <==> Refers(c, view, key);
    }
  }

  lemma SeenBeforeAndAgain(before: seq<World>, after: seq<World>, start: nat, view: World)
    requires before != [] && before <= after && Seen(before, start, view)
    requires SeenAgain(after, |before| - 1, view, view.Keys)
    ensures SeenAround(after, start, |before| - 1, view)
  {
    var now := |before| - 1;
    forall key | key in view
      ensures SeenTwice(after, start, now, key, view[key])
    {
      var i: nat :| start <= i && HeldAt(before, i, key, view[key]);
      assert HeldAt(after, i, key, view[key]);
      var j: nat :| now <= j && HeldAt(after, j, key, view[key]);
    }
  }

  /** The decoder gives every project once. */
  ghost predicate WellFormed(c: Codec) {
    forall bytes | c.registry(bytes).Some? :: Once(c.registry(bytes).value)
  }

  ghost predicate Once(projects: seq<string>) {
    forall i, j | 0 <= i < j < |projects| :: projects[i] != projects[j]
  }

  ghost predicate AnotherProject(view: World, p: string) {
    Names(p) !in view && forall n :: WorkspaceFile(p, n) !in view
  }

  /** The view of the registry and of some of its projects. */
  ghost predicate Projected(view: World, registry: Value, projects: seq<string>) {
    && RegistryFile in view && view[RegistryFile] == registry
    && forall key: Key :: key in view <==> RefersIn(view, projects, key)
  }

  ghost predicate RefersIn(view: World, projects: seq<string>, key: Key) {
    match key
    case RegistryFile => true
    case Names(p) => p in projects
    case WorkspaceFile(p, n) => p in projects && n in NamesIn(At(view, Names(p)))
  }

  lemma SeeNothing(history: seq<World>, start: nat)
    ensures Seen(history, start, map[])
  {
  }

  lemma SeeOne(before: seq<World>, after: seq<World>, start: nat, view: World, key: Key, v: Value)
    requires start < |after| && Seen(before, start, view) && before <= after && after != [] &&
             HeldAt(after, |after| - 1, key, v)
    ensures Seen(after, start, view[key := v])
  {
    SeenLater(before, after, start, view);
  }

  lemma AddListing(view: World, p: string, listing: Value)
    requires AnotherProject(view, p) && listing.Listing?
    ensures AddsFiles(view, view[Names(p) := listing], p, listing, [])
  {
  }

  lemma AddFile(view: World, v: World, p: string, listing: Value, names: seq<string>, n: string, file: Value)
    requires AnotherProject(view, p) && AddsFiles(view, v, p, listing, names) && file.Data?
    ensures AddsFiles(view, v[WorkspaceFile(p, n) := file], p, listing, names + [n])
  {
  }

  lemma AddAll(view: World, v: World, p: string, listing: Value)
    requires listing.Listing? && AddsFiles(view, v, p, listing, listing.names)
    ensures AddsProject(view, v, p)
  {
  }

  lemma AddRegistry(registry: Value)
    ensures Projected(map[RegistryFile := registry], registry, [])
  {
  }

  lemma NextProject(c: Codec, registry: Value, projects: seq<string>, k: nat, view: World)
    requires WellFormed(c) && c.Projects(registry) == Some(projects) && k < |projects|
    requires Projected(view, registry, projects[..k])
    ensures AnotherProject(view, projects[k])
  {
    assert Once(projects);
    assert projects[k] !in projects[..k];
    assert !RefersIn(view, projects[..k], Names(projects[k]));
    assert forall n :: !RefersIn(view, projects[..k], WorkspaceFile(projects[k], n));
  }

  lemma NextIsKnown(c: Codec, registry: Value, projects: seq<string>, k: nat, view: World)
    requires c.Projects(registry) == Some(projects) && k < |projects| && (registry.Data? || registry.Absent?)
    requires Projected(view, registry, projects[..k])
    ensures Knows(c, view, projects[k])
  {
  }

  lemma AddProject(view: World, view': World, registry: Value, projects: seq<string>, p: string)
    requires Projected(view, registry, projects) && AnotherProject(view, p) && AddsProject(view, view', p)
    ensures Projected(view', registry, projects + [p])
  {
    forall key: Key
      ensures key in view' <==> RefersIn(view', projects + [p], key)
    {
      assert key in view <==> RefersIn(view, projects, key);
      match key
      case RegistryFile =>
      case Names(q) =>
      case WorkspaceFile(q, n) =>
        assert Names(q) in view <==> RefersIn(view, projects, Names(q));
    }
  }

  lemma AllProjected(c: Codec, view: World, registry: Value, projects: seq<string>)
    requires c.Projects(registry) == Some(projects) && Projected(view, registry, projects)
    requires registry.Data? || registry.Absent?
    ensures Complete(c, view) && At(view, RegistryFile) == registry
  {
    forall key: Key
      ensures key in view <==> Refers(c, view, key)
    {
      assert key in view <==> RefersIn(view, projects, key);
    }
  }
}
