/** Merging shipped configuration defaults into an operator's file: what is added, what is kept, what is reported. */
module ConfigMerge {
  import opened Bytes

  datatype Toml = Leaf(value: string) | Table(entries: map<string, Toml>)

  // ----- The merged tree and the reported names -----

  function MergedEntry(d: Toml, l: Toml, key: string): Toml
    requires d.Table? && l.Table? && (key in d.entries || key in l.entries)
    decreases d, 0
  {
    if key !in l.entries then d.entries[key]
    else if key in d.entries && d.entries[key].Table? && l.entries[key].Table? then
      Merged(d.entries[key], l.entries[key])
    else l.entries[key]
  }

  function Merged(d: Toml, l: Toml): (m: Toml)
    requires l.Table?
    ensures m.Table?
    decreases d, 1
  {
    if d.Leaf? then l else
    Table(map key | key in d.entries.Keys + l.entries.Keys :: MergedEntry(d, l, key))
  }

  function Child(prefix: string, key: string): string {
    if prefix == "" then key else prefix + "." + key
  }

  function NamesUnder(d: Toml, l: Toml, prefix: string, key: string): set<string>
    requires d.Table? && l.Table? && key in d.entries
    decreases d, 0
  {
    if key !in l.entries then {Child(prefix, key)}
    else if d.entries[key].Table? && l.entries[key].Table? then
      Names(d.entries[key], l.entries[key], Child(prefix, key))
    else {}
  }

  /** The dotted names reported for a merge. */
  function Names(d: Toml, l: Toml, prefix: string): set<string>
    requires l.Table?
    decreases d, 2
  {
    if d.Leaf? then {} else NamesOver(d, l, prefix, d.entries.Keys)
  }

  function NamesOver(d: Toml, l: Toml, prefix: string, keys: set<string>): set<string>
    requires d.Table? && l.Table? && keys <= d.entries.Keys
    decreases d, 1
  {
    set key, name | key in keys && name in NamesUnder(d, l, prefix, key) :: name
  }

  /** `merged` is the local table with the keys of `done` merged in. */
  predicate MergedOver(d: Toml, l: Toml, merged: map<string, Toml>, done: set<string>)
    requires d.Table? && l.Table?
  {
    && merged.Keys == l.entries.Keys + done
    && forall key <- merged.Keys ::
         (key in d.entries || key in l.entries)
         && merged[key] == if key in done then MergedEntry(d, l, key) else l.entries[key]
  }

  lemma NamesOverStep(d: Toml, l: Toml, prefix: string, done: set<string>, key: string)
    requires d.Table? && l.Table? && done + {key} <= d.entries.Keys
    ensures NamesOver(d, l, prefix, done + {key}) == NamesOver(d, l, prefix, done) + NamesUnder(d, l, prefix, key)
  {
    hide NamesUnder;
  }

  lemma MergedOverStep(d: Toml, l: Toml, merged: map<string, Toml>, done: set<string>, key: string)
    requires d.Table? && l.Table? && key in d.entries && key !in done && done <= d.entries.Keys
    requires MergedOver(d, l, merged, done)
    ensures MergedOver(d, l, merged[key := MergedEntry(d, l, key)], done + {key})
    ensures key in merged <==> key in l.entries
    ensures key in merged ==> merged[key] == l.entries[key] && merged[key := merged[key]] == merged
  {
    hide MergedEntry;
  }

  lemma MergedOverAll(d: Toml, l: Toml, merged: map<string, Toml>)
    requires d.Table? && l.Table? && MergedOver(d, l, merged, d.entries.Keys)
    ensures Table(merged) == Merged(d, l)
  {
    var m := Merged(d, l).entries;
    assert merged.Keys == m.Keys;
    forall key | key in m.Keys ensures merged[key] == m[key] {
      assert m[key] == MergedEntry(d, l, key);
    }
  }

  /** The three cases of one key. */
  lemma EntryCases(d: Toml, l: Toml, prefix: string, key: string)
    requires d.Table? && l.Table? && key in d.entries
    ensures key !in l.entries ==>
              MergedEntry(d, l, key) == d.entries[key] && NamesUnder(d, l, prefix, key) == {Child(prefix, key)}
    ensures key in l.entries && !(d.entries[key].Table? && l.entries[key].Table?) ==>
              MergedEntry(d, l, key) == l.entries[key] && NamesUnder(d, l, prefix, key) == {}
    ensures key in l.entries && d.entries[key].Table? && l.entries[key].Table? ==>
              MergedEntry(d, l, key) == Merged(d.entries[key], l.entries[key])
              && NamesUnder(d, l, prefix, key) == Names(d.entries[key], l.entries[key], Child(prefix, key))
  {
    hide Merged, Names, Child;
  }

  /** The keys of `done` are merged and reported. */
  ghost predicate Progress(
    d: Toml, l: Toml, prefix: string, added: set<string>, merged: map<string, Toml>, addedNow: set<string>,
    done: set<string>)
    requires d.Table? && l.Table? && done <= d.entries.Keys
  {
    MergedOver(d, l, merged, done) && addedNow == added + NamesOver(d, l, prefix, done)
  }

  lemma ProgressStarts(d: Toml, l: Toml, prefix: string, added: set<string>)
    requires l.Table?
    ensures d.Leaf? ==> Merged(d, l) == l && added + Names(d, l, prefix) == added
    ensures d.Table? ==> Progress(d, l, prefix, added, l.entries, added, {})
  {
  }

  lemma ProgressEnds(
    d: Toml, l: Toml, prefix: string, added: set<string>, merged: map<string, Toml>, addedNow: set<string>)
    requires d.Table? && l.Table? && Progress(d, l, prefix, added, merged, addedNow, d.entries.Keys)
    ensures Table(merged) == Merged(d, l) && addedNow == added + Names(d, l, prefix)
  {
    MergedOverAll(d, l, merged);
  }

  lemma ProgressSteps(
    d: Toml, l: Toml, prefix: string, added: set<string>, merged: map<string, Toml>, addedNow: set<string>,
    done: set<string>, key: string)
    requires d.Table? && l.Table? && done <= d.entries.Keys && key in d.entries && key !in done
    requires Progress(d, l, prefix, added, merged, addedNow, done)
    ensures key in merged <==> key in l.entries
    ensures key in merged ==> merged[key] == l.entries[key]
    ensures var next, names := merged[key := MergedEntry(d, l, key)], addedNow + NamesUnder(d, l, prefix, key);
            Progress(d, l, prefix, added, next, names, done + {key})
    ensures key in merged && !(d.entries[key].Table? && l.entries[key].Table?) ==>
              Progress(d, l, prefix, added, merged, addedNow, done + {key})
  {
    NamesOverStep(d, l, prefix, done, key);
    MergedOverStep(d, l, merged, done, key);
    EntryCases(d, l, prefix, key);
    hide NamesOver, NamesUnder, MergedOver, MergedEntry;
  }

  /** Merges `defaults` into `local` key by key, in any order. */
  method MergeTables(defaults: Toml, local: map<string, Toml>, prefix: string, added: set<string>)
    returns (merged: map<string, Toml>, addedNow: set<string>)
    ensures Table(merged) == Merged(defaults, Table(local))
    ensures addedNow == added + Names(defaults, Table(local), prefix)
    decreases defaults
  {
    hide Progress, Merged, MergedEntry, NamesUnder, Names, Child;
    merged, addedNow := local, added;
    ghost var l := Table(local);
    ProgressStarts(defaults, l, prefix, added);
    if defaults.Leaf? { return; }
    var todo := defaults.entries.Keys;
    ghost var done := {};
    while todo != {}
      invariant todo <= defaults.entries.Keys && done == defaults.entries.Keys - todo
      invariant Progress(defaults, l, prefix, added, merged, addedNow, done)
      decreases |todo|
    {
      var key :| key in todo;
      var value := defaults.entries[key];
      ProgressSteps(defaults, l, prefix, added, merged, addedNow, done, key);
      EntryCases(defaults, l, prefix, key);
      if key in merged {
        if value.Table? && merged[key].Table? {
          var inner;
          inner, addedNow := MergeTables(value, merged[key].entries, Child(prefix, key), addedNow);
          merged := merged[key := Table(inner)];
        }
      } else {
        addedNow := addedNow + {Child(prefix, key)};
        merged := merged[key := value];
      }
      assert defaults.entries.Keys - (todo - {key}) == done + {key};
      todo, done := todo - {key}, done + {key};
    }
    assert done == defaults.entries.Keys;
    ProgressEnds(defaults, l, prefix, added, merged, addedNow);
  }

  // ----- Paths -----

  function At(t: Toml, path: seq<string>): Option<Toml>
    decreases |path|
  {
    if path == [] then Some(t)
    else if t.Leaf? || path[0] !in t.entries then None
    else At(t.entries[path[0]], path[1..])
  }

  predicate HasTable(t: Toml, path: seq<string>) { At(t, path).Some? && At(t, path).value.Table? }

  predicate HasLeaf(t: Toml, path: seq<string>) { At(t, path).Some? && At(t, path).value.Leaf? }

  /** A local value that is not a table stands somewhere above `path`. */
  predicate Shadowed(l: Toml, path: seq<string>) {
    exists n: nat | n < |path| :: HasLeaf(l, path[..n])
  }

  lemma AtCons(t: Toml, key: string, path: seq<string>)
    ensures At(t, [key] + path) == if t.Leaf? || key !in t.entries then None else At(t.entries[key], path)
  {
    assert ([key] + path)[1..] == path;
  }

  lemma ShadowedCons(l: Toml, key: string, path: seq<string>)
    requires l.Table?
    ensures Shadowed(l, [key] + path) <==> key in l.entries && Shadowed(l.entries[key], path)
  {
    var full := [key] + path;
    if Shadowed(l, full) {
      var n: nat :| n < |full| && HasLeaf(l, full[..n]);
      assert n > 0;
      assert full[..n] == [key] + path[..n - 1];
      AtCons(l, key, path[..n - 1]);
      assert HasLeaf(l.entries[key], path[..n - 1]);
    }
    if key in l.entries && Shadowed(l.entries[key], path) {
      var n: nat :| n < |path| && HasLeaf(l.entries[key], path[..n]);
      assert full[..n + 1] == [key] + path[..n];
      AtCons(l, key, path[..n]);
      assert HasLeaf(l, full[..n + 1]);
    }
  }

  /** The whole merged tree, path by path: a local value stays, a local table stays a table, and where there is
      nothing local the default shows through unless a local value above hides it. */
  lemma {:induction false} MergedAt(d: Toml, l: Toml, path: seq<string>)
    requires l.Table?
    ensures HasLeaf(l, path) ==> At(Merged(d, l), path) == At(l, path)
    ensures HasTable(l, path) ==> HasTable(Merged(d, l), path)
    ensures At(l, path).None? ==>
              At(Merged(d, l), path) == if Shadowed(l, path) || d.Leaf? then None else At(d, path)
    decreases |path|
  {
    if path != [] && d.Table? {
      var key, rest := path[0], path[1..];
      assert path == [key] + rest;
      ShadowedCons(l, key, rest);
      if key in l.entries {
        if key in d.entries && d.entries[key].Table? && l.entries[key].Table? {
          MergedAt(d.entries[key], l.entries[key], rest);
        } else if l.entries[key].Leaf? && rest != [] {
          assert HasLeaf(l.entries[key], rest[..0]);
        }
      } else {
        assert !Shadowed(l, path);
      }
    }
  }

  /** What is only in the defaults, directly under a table the operator has too. */
  predicate IsRoot(d: Toml, l: Toml, path: seq<string>) {
    path != [] && At(d, path).Some? && At(l, path).None? && HasTable(l, path[..|path| - 1])
  }

  lemma RootCons(d: Toml, l: Toml, key: string, path: seq<string>)
    requires l.Table? && path != []
    ensures IsRoot(d, l, [key] + path) <==>
            d.Table? && key in d.entries && key in l.entries && IsRoot(d.entries[key], l.entries[key], path)
  {
    var full := [key] + path;
    assert full[..|full| - 1] == [key] + path[..|path| - 1];
    AtCons(d, key, path);
    AtCons(l, key, path);
    AtCons(l, key, path[..|path| - 1]);
  }

  lemma RootSingle(d: Toml, l: Toml, key: string)
    requires l.Table?
    ensures IsRoot(d, l, [key]) <==> d.Table? && key in d.entries && key !in l.entries
  {
    AtCons(d, key, []);
    AtCons(l, key, []);
    assert [key] + [] == [key] && [key][..0] == [];
  }

  /** How a path is reported. */
  function Dotted(prefix: string, path: seq<string>): string
    decreases |path|
  {
    if path == [] then prefix else Dotted(Child(prefix, path[0]), path[1..])
  }

  ghost predicate NamesRoot(d: Toml, l: Toml, prefix: string, name: string) {
    exists path :: IsRoot(d, l, path) && name == Dotted(prefix, path)
  }

  /** The reported names are exactly the dotted paths of the inserted subtrees' roots. */
  lemma {:induction false} NamesAreRoots(d: Toml, l: Toml, prefix: string, name: string)
    requires l.Table?
    ensures name in Names(d, l, prefix) <==> NamesRoot(d, l, prefix, name)
    decreases d
  {
    if name in Names(d, l, prefix) {
      assert name in NamesOver(d, l, prefix, d.entries.Keys);
      var key :| key in d.entries && name in NamesUnder(d, l, prefix, key);
      NameHasRoot(d, l, prefix, key, name);
    }
    if NamesRoot(d, l, prefix, name) {
      var path :| IsRoot(d, l, path) && name == Dotted(prefix, path);
      RootHasName(d, l, prefix, path);
    }
  }

  lemma {:induction false} NameHasRoot(d: Toml, l: Toml, prefix: string, key: string, name: string)
    requires d.Table? && l.Table? && key in d.entries && name in NamesUnder(d, l, prefix, key)
    ensures NamesRoot(d, l, prefix, name)
    decreases d, 0
  {
    RootSingle(d, l, key);
    assert Dotted(prefix, [key]) == Child(prefix, key);
    if key in l.entries {
      NamesAreRoots(d.entries[key], l.entries[key], Child(prefix, key), name);
      var rest :| IsRoot(d.entries[key], l.entries[key], rest) && name == Dotted(Child(prefix, key), rest);
      RootCons(d, l, key, rest);
      assert Dotted(prefix, [key] + rest) == name by { assert ([key] + rest)[1..] == rest; }
      assert IsRoot(d, l, [key] + rest);
    } else {
      assert IsRoot(d, l, [key]);
    }
  }

  lemma UnderIsNamed(d: Toml, l: Toml, prefix: string, key: string, name: string)
    requires d.Table? && l.Table? && key in d.entries && name in NamesUnder(d, l, prefix, key)
    ensures name in Names(d, l, prefix)
  {
    assert name in NamesOver(d, l, prefix, d.entries.Keys);
  }

  lemma {:induction false} RootHasName(d: Toml, l: Toml, prefix: string, path: seq<string>)
    requires l.Table? && IsRoot(d, l, path)
    ensures Dotted(prefix, path) in Names(d, l, prefix)
    decreases |path|
  {
    var key, rest := path[0], path[1..];
    assert path == [key] + rest;
    if rest == [] {
      assert path == [key];
      RootSingle(d, l, key);
      EntryCases(d, l, prefix, key);
      assert Dotted(prefix, path) == Child(prefix, key);
    } else {
      RootCons(d, l, key, rest);
      RootHasName(d.entries[key], l.entries[key], Child(prefix, key), rest);
      assert d.entries[key].Table? && l.entries[key].Table?;
      EntryCases(d, l, prefix, key);
      assert Dotted(prefix, path) == Dotted(Child(prefix, key), rest);
    }
    UnderIsNamed(d, l, prefix, key, Dotted(prefix, path));
  }

  /** Nothing is reported exactly when nothing changes, so skipping the write then is sound. */
  lemma NothingAddedMeansUnchanged(d: Toml, l: Toml, prefix: string)
    requires l.Table?
    ensures Names(d, l, prefix) == {} <==> Merged(d, l) == l
  {
    if Names(d, l, prefix) == {} {
      UnchangedWithoutNames(d, l, prefix);
    } else {
      var name :| name in Names(d, l, prefix);
      NamesAreRoots(d, l, prefix, name);
      var path :| IsRoot(d, l, path) && name == Dotted(prefix, path);
      RootIsInserted(d, l, path);
    }
  }

  lemma {:induction false} UnchangedWithoutNames(d: Toml, l: Toml, prefix: string)
    requires l.Table? && Names(d, l, prefix) == {}
    ensures Merged(d, l) == l
    decreases d
  {
    if d.Table? {
      forall key | key in d.entries ensures key in l.entries && MergedEntry(d, l, key) == l.entries[key] {
        NothingUnder(d, l, prefix, key);
        if d.entries[key].Table? && l.entries[key].Table? {
          UnchangedWithoutNames(d.entries[key], l.entries[key], Child(prefix, key));
        }
      }
      assert Merged(d, l).entries == l.entries;
    }
  }

  lemma NothingUnder(d: Toml, l: Toml, prefix: string, key: string)
    requires d.Table? && l.Table? && key in d.entries && Names(d, l, prefix) == {}
    ensures key in l.entries && NamesUnder(d, l, prefix, key) == {}
  {
    if name :| name in NamesUnder(d, l, prefix, key) {
      UnderIsNamed(d, l, prefix, key, name);
    }
    EntryCases(d, l, prefix, key);
  }

  /** A whole subtree comes with its root. */
  lemma RootIsInserted(d: Toml, l: Toml, path: seq<string>)
    requires l.Table? && IsRoot(d, l, path)
    ensures At(Merged(d, l), path) == At(d, path)
  {
    if Shadowed(l, path) {
      var n: nat :| n < |path| && HasLeaf(l, path[..n]);
      assert path[..|path| - 1][..n] == path[..n];
      NothingUnderLeaf(l, path[..|path| - 1], n);
    }
    MergedAt(d, l, path);
  }

  lemma {:induction false} NothingUnderLeaf(t: Toml, path: seq<string>, n: nat)
    requires n <= |path| && HasLeaf(t, path[..n])
    ensures !HasTable(t, path)
    decreases n
  {
    if n > 0 {
      assert path[..n][1..] == path[1..][..n - 1];
      NothingUnderLeaf(t.entries[path[0]], path[1..], n - 1);
    }
  }

  /** Merging the same defaults again changes nothing and reports nothing. */
  lemma SecondMergeAddsNothing(d: Toml, l: Toml, prefix: string)
    requires l.Table?
    ensures Merged(d, Merged(d, l)) == Merged(d, l)
    ensures Names(d, Merged(d, l), prefix) == {}
  {
    MergedTwice(d, l);
    NothingAddedMeansUnchanged(d, Merged(d, l), prefix);
  }

  lemma {:induction false} MergedTwice(d: Toml, l: Toml)
    requires l.Table?
    ensures Merged(d, Merged(d, l)) == Merged(d, l)
    decreases d
  {
    if d.Table? {
      var m := Merged(d, l);
      forall key | key in m.entries ensures MergedEntry(d, m, key) == m.entries[key] {
        assert m.entries[key] == MergedEntry(d, l, key);
        if key in d.entries && d.entries[key].Table? {
          if key in l.entries && l.entries[key].Table? {
            MergedTwice(d.entries[key], l.entries[key]);
          } else if key !in l.entries {
            MergedSelf(d.entries[key]);
          }
        }
      }
      assert Merged(d, m).entries == m.entries;
    }
  }

  lemma {:induction false} MergedSelf(t: Toml)
    requires t.Table?
    ensures Merged(t, t) == t
  {
    forall key | key in t.entries ensures MergedEntry(t, t, key) == t.entries[key] {
      if t.entries[key].Table? { MergedSelf(t.entries[key]); }
    }
    assert Merged(t, t).entries == t.entries;
  }

  // ----- One migration run -----

  /** What reading and parsing a file came to. */
  datatype File = Missing | Unreadable | Invalid | Parsed(tree: Toml)

  datatype MigrateError = BadDefaults | LocalUnreadable | LocalInvalid | LocalNotATable

  /** What was reported, and what was written where. */
  datatype Report = Report(added: set<string>, backup: Option<Toml>, written: Option<Toml>)

  function Migration(defaults: File, local: File): Result<Report, MigrateError> {
    if !defaults.Parsed? then Err(BadDefaults)
    else match local
      case Unreadable => Err(LocalUnreadable)
      case Invalid => Err(LocalInvalid)
      case Missing => Ok(Report(
        if defaults.tree.Table? then defaults.tree.entries.Keys else {}, None, Some(defaults.tree)))
      case Parsed(l) =>
        if l.Leaf? then Err(LocalNotATable)
        else if Merged(defaults.tree, l) == l then Ok(Report({}, None, None))
        else Ok(Report(Names(defaults.tree, l, ""), Some(l), Some(Merged(defaults.tree, l))))
  }

  /** One pass: the early return on an empty report is the code's test; it writes exactly when the tree changed. */
  method MigrateLocalConfig(defaults: File, local: File) returns (r: Result<Report, MigrateError>)
    ensures r == Migration(defaults, local)
  {
    hide Merged, Names;
    if !defaults.Parsed? { return Err(BadDefaults); }
    match local {
      case Parsed(l) =>
        if l.Leaf? { return Err(LocalNotATable); }
        var merged, added := MergeTables(defaults.tree, l.entries, "", {});
        NothingAddedMeansUnchanged(defaults.tree, l, "");
        assert added == Names(defaults.tree, l, "");
        if added == {} { return Ok(Report({}, None, None)); }
        return Ok(Report(added, Some(l), Some(Table(merged))));
      case Missing =>
        var added := if defaults.tree.Table? then defaults.tree.entries.Keys else {};
        return Ok(Report(added, None, Some(defaults.tree)));
      case Unreadable => return Err(LocalUnreadable);
      case Invalid => return Err(LocalInvalid);
    }
  }

  function FileAfter(local: File, r: Report): File {
    if r.written.Some? then Parsed(r.written.value) else local
  }

  /** After a successful run the next one with the same defaults reports nothing, backs up nothing, writes nothing. */
  lemma SecondRunIsANoOp(defaults: File, local: File)
    requires Migration(defaults, local).Ok? && defaults.tree.Table?
    ensures Migration(defaults, FileAfter(local, Migration(defaults, local).value)) == Ok(Report({}, None, None))
  {
    if local.Missing? {
      MergedSelf(defaults.tree);
    } else {
      MergedTwice(defaults.tree, local.tree);
    }
    hide Merged, Names;
  }

  /** What a run leaves of an operator's file `l`, path by path. Something is written exactly when some default is
      missing; then the operator's own values are all in it, and what was missing shows its default. */
  lemma RunKeepsLocalValues(d: Toml, l: Toml, path: seq<string>)
    requires l.Table?
    ensures Migration(Parsed(d), Parsed(l)).Ok?
    ensures var r := Migration(Parsed(d), Parsed(l)).value;
            && (r.written.Some? <==> exists root :: IsRoot(d, l, root))
            && r.backup == (if r.written.Some? then Some(l) else None)
    ensures var w := Migration(Parsed(d), Parsed(l)).value.written;
            w.Some? ==>
              && (HasLeaf(l, path) ==> At(w.value, path) == At(l, path))
              && (HasTable(l, path) ==> HasTable(w.value, path))
              && (At(l, path).None? ==> At(w.value, path) == if Shadowed(l, path) then None else At(d, path))
  {
    NothingAddedMeansUnchanged(d, l, "");
    if name :| name in Names(d, l, "") {
      NamesAreRoots(d, l, "", name);
    }
    if root :| IsRoot(d, l, root) {
      RootHasName(d, l, "", root);
    }
    MergedAt(d, l, path);
    if d.Leaf? && At(l, path).None? { assert path != []; }
    hide Merged, Names, Shadowed, IsRoot;
  }

  /** What it reports: the dotted names of the missing subtrees' roots. */
  lemma RunReportsRoots(d: Toml, l: Toml, name: string)
    requires l.Table?
    ensures name in Migration(Parsed(d), Parsed(l)).value.added <==> NamesRoot(d, l, "", name)
  {
    NothingAddedMeansUnchanged(d, l, "");
    NamesAreRoots(d, l, "", name);
    hide Merged, Names, NamesRoot;
  }

  /** An absent file becomes the defaults, and the report lists their top-level keys. */
  lemma RunSeeds(d: Toml, name: string)
    ensures var r := Migration(Parsed(d), Missing);
            && r.Ok? && r.value.written == Some(d) && r.value.backup.None?
            && (name in r.value.added <==> At(d, [name]).Some?)
  {
  }

  /** A run fails exactly when the defaults or a present local file cannot be read as they must. */
  lemma RunFailsWhen(defaults: File, local: File)
    ensures Migration(defaults, local).Err? <==>
            defaults.Missing? || defaults.Unreadable? || defaults.Invalid?
            || local.Unreadable? || local.Invalid? || (local.Parsed? && local.tree.Leaf?)
  {
    hide Merged, Names;
  }

  // ----- Reading the report -----

  /** What stands between the dots of a string. */
  function Pieces(x: string): (ps: seq<string>)
    ensures |ps| > 0
  {
    if x == "" then [""]
    else if x[0] == '.' then [""] + Pieces(x[1..])
    else
      var ps := Pieces(x[1..]);
      [[x[0]] + ps[0]] + ps[1..]
  }

  function Joined(ps: seq<string>): string
    requires |ps| > 0
  {
    if |ps| == 1 then ps[0] else ps[0] + "." + Joined(ps[1..])
  }

  /** The pieces of all keys of a path. */
  function KeyPieces(path: seq<string>): seq<string> {
    if path == [] then [] else Pieces(path[0]) + KeyPieces(path[1..])
  }

  /** The same, empty keys at the front left out: while the prefix is empty, a key takes its place without a dot. */
  function PathPieces(path: seq<string>): seq<string> {
    if path != [] && path[0] == "" then PathPieces(path[1..]) else KeyPieces(path)
  }

  lemma {:induction false} JoinedPieces(x: string)
    ensures Joined(Pieces(x)) == x
  {
    if x != "" {
      JoinedPieces(x[1..]);
      var ps := Pieces(x[1..]);
      assert x == [x[0]] + x[1..];
      if x[0] == '.' {
        assert ([""] + ps)[1..] == ps;
        assert "" + "." + Joined(ps) == [x[0]] + x[1..];
      } else if |ps| > 1 {
        assert ([[x[0]] + ps[0]] + ps[1..])[1..] == ps[1..];
        assert ([x[0]] + ps[0]) + "." + Joined(ps[1..]) == [x[0]] + (ps[0] + "." + Joined(ps[1..]));
      }
    }
  }

  /** One more character before a list of pieces. */
  function Prefixed(c: char, ps: seq<string>): (r: seq<string>)
    requires |ps| > 0
    ensures |r| > 0
  {
    if c == '.' then [""] + ps else [[c] + ps[0]] + ps[1..]
  }

  lemma PiecesCons(x: string)
    requires x != ""
    ensures Pieces(x) == Prefixed(x[0], Pieces(x[1..]))
  {
  }

  lemma PrefixedConcat(c: char, ps: seq<string>, qs: seq<string>)
    requires |ps| > 0
    ensures Prefixed(c, ps + qs) == Prefixed(c, ps) + qs
  {
    assert (ps + qs)[0] == ps[0] && (ps + qs)[1..] == ps[1..] + qs;
  }

  lemma {:induction false} PiecesOfDotted(x: string, y: string)
    ensures Pieces(x + "." + y) == Pieces(x) + Pieces(y)
  {
    var z := x + "." + y;
    PiecesCons(z);
    if x == "" {
      assert z[1..] == y;
    } else {
      assert z[1..] == x[1..] + "." + y;
      PiecesOfDotted(x[1..], y);
      PiecesCons(x);
      hide Pieces, Prefixed;
      PrefixedConcat(x[0], Pieces(x[1..]), Pieces(y));
    }
  }

  lemma {:induction false} PiecesOfName(prefix: string, path: seq<string>)
    requires prefix != ""
    ensures Dotted(prefix, path) != "" && Pieces(Dotted(prefix, path)) == Pieces(prefix) + KeyPieces(path)
    decreases |path|
  {
    if path != [] {
      hide Pieces;
      PiecesOfName(Child(prefix, path[0]), path[1..]);
      PiecesOfDotted(prefix, path[0]);
      assert Pieces(prefix) + (Pieces(path[0]) + KeyPieces(path[1..]))
          == (Pieces(prefix) + Pieces(path[0])) + KeyPieces(path[1..]);
    }
  }

  /** The pieces of a path are the pieces of its name; no pieces, no name. */
  lemma {:induction false} PiecesOfPath(path: seq<string>)
    ensures PathPieces(path) == if Dotted("", path) == "" then [] else Pieces(Dotted("", path))
  {
    if path != [] {
      if path[0] == "" {
        PiecesOfPath(path[1..]);
      } else {
        PiecesOfName(path[0], path[1..]);
      }
    }
  }

  /** Two paths are reported under one name if and only if their pieces agree. */
  lemma SameNameWhen(p: seq<string>, q: seq<string>)
    ensures Dotted("", p) == Dotted("", q) <==> PathPieces(p) == PathPieces(q)
  {
    PiecesOfPath(p);
    PiecesOfPath(q);
    hide Dotted, Pieces, PathPieces;
    JoinedPieces(Dotted("", p));
    JoinedPieces(Dotted("", q));
  }

  /** Keys that need no quotes in a dotted name. */
  predicate Plain(path: seq<string>) {
    forall i | 0 <= i < |path| :: path[i] != "" && '.' !in path[i]
  }

  lemma {:induction false} PiecesOfPlain(x: string)
    requires '.' !in x
    ensures Pieces(x) == [x]
  {
    if x != "" {
      PiecesOfPlain(x[1..]);
      assert x == [x[0]] + x[1..];
    }
  }

  lemma {:induction false} KeysOfPlain(path: seq<string>)
    requires Plain(path)
    ensures KeyPieces(path) == path
  {
    if path != [] {
      PiecesOfPlain(path[0]);
      KeysOfPlain(path[1..]);
      assert path == [path[0]] + path[1..];
    }
  }

  /** With plain keys a reported name stands for one path only. */
  lemma DottedInjective(p: seq<string>, q: seq<string>)
    requires Plain(p) && Plain(q) && Dotted("", p) == Dotted("", q)
    ensures p == q
  {
    SameNameWhen(p, q);
    KeysOfPlain(p);
    KeysOfPlain(q);
  }

  /** Quoted keys may be empty or contain dots, and then two additions can hide behind one name. */
  lemma NamesCollide()
    ensures exists d: Toml, l: Toml, p, q ::
              l.Table? && IsRoot(d, l, p) && IsRoot(d, l, q) && p != q && Dotted("", p) == Dotted("", q)
  {
    var leaf := Leaf("1");
    var d := Table(map["a.b" := leaf, "a" := Table(map["b" := leaf])]);
    var l := Table(map["a" := Table(map[])]);
    RootSingle(d, l, "a.b");
    RootSingle(d.entries["a"], l.entries["a"], "b");
    RootCons(d, l, "a", ["b"]);
    var p, q := ["a.b"], ["a"] + ["b"];
    assert q[1..] == ["b"] && q[0] == "a";
    assert Dotted("", q) == Dotted("a", ["b"]) == Child("a", "b") == "a" + "." + "b";
    assert Dotted("", p) == "a.b";
    assert IsRoot(d, l, p) && IsRoot(d, l, q);
  }

  /** An empty key leaves no trace in a name. */
  lemma EmptyKeyCollides()
    ensures exists d: Toml, l: Toml, p, q ::
              l.Table? && IsRoot(d, l, p) && IsRoot(d, l, q) && p != q && Dotted("", p) == Dotted("", q)
              && (forall i | 0 <= i < |p| :: '.' !in p[i])
              && (forall i | 0 <= i < |q| :: '.' !in q[i])
  {
    var leaf := Leaf("1");
    var d := Table(map["" := Table(map["b" := leaf]), "b" := leaf]);
    var l := Table(map["" := Table(map[])]);
    RootSingle(d, l, "b");
    RootSingle(d.entries[""], l.entries[""], "b");
    RootCons(d, l, "", ["b"]);
    var p, q := ["b"], [""] + ["b"];
    assert q[1..] == ["b"] && q[0] == "";
    assert Dotted("", q) == Dotted("", ["b"]);
    assert IsRoot(d, l, p) && IsRoot(d, l, q);
  }
}
