/** The emitter-freeze gate: a fingerprint manifest with a policy and a change log. */
module EmitterFreeze {
  import opened Orders
  import opened PythonText

  datatype Policy = Frozen | DeletionsOnly

  datatype Fingerprint = Fingerprint(path: string, sha: string, lines: nat)

  datatype Kind = Added | Modified | Deleted

  datatype Drift = Drift(kind: Kind, path: string, before: Option<Fingerprint>, after: Option<Fingerprint>)

  datatype Note = Note(issue: string, evidence: string, owner: string, retirement: string)

  datatype ChangedFile = ChangedFile(path: string, change: Kind)

  /** A `Change` entry carries a migration note, a `Deletion` entry does not. */
  datatype Entry =
    | Change(pr: Option<nat>, policy: Policy, files: seq<ChangedFile>, note: Note)
    | Deletion(pr: Option<nat>, policy: Policy, files: seq<ChangedFile>)

  datatype Manifest = Manifest(policy: Policy, files: seq<Fingerprint>, changes: seq<Entry>)

  datatype Request = Request(issue: Option<string>, evidence: Option<string>, owner: Option<string>,
                             retirement: Option<string>, policy: Option<Policy>, pr: Option<nat>)

  datatype Refusal = IncompleteNote | TreeGrew | Unpruned | NothingToRecord | NotDeletionsOnly | NothingDeleted

  datatype Outcome = Refused(reason: Refusal) | Written(manifest: Manifest)

  // ---- fingerprints ----

  predicate PathLe(a: Fingerprint, b: Fingerprint) {
    StrLe(a.path, b.path)
  }

  predicate PathLt(a: Fingerprint, b: Fingerprint) {
    StrLt(a.path, b.path)
  }

  /** The tree as it is walked: one fingerprint per file, in no particular order. */
  ghost predicate IsTree(tree: seq<Fingerprint>) {
    forall i, j :: 0 <= i < j < |tree| ==> tree[i].path != tree[j].path
  }

  function FingerprintTree(tree: seq<Fingerprint>): seq<Fingerprint> {
    SortBy(tree, PathLe)
  }

  function PathsOf(files: seq<Fingerprint>): seq<string> {
    if files == [] then [] else [files[0].path] + PathsOf(files[1..])
  }

  /** Index fingerprints by path, the last one winning. */
  function ByPath(files: seq<Fingerprint>): map<string, Fingerprint> {
    if files == [] then map[] else ByPath(files[..|files| - 1])[files[|files| - 1].path := files[|files| - 1]]
  }

  function Listed(files: seq<Fingerprint>): set<string> {
    ByPath(files).Keys
  }

  ghost predicate StrictlySorted(files: seq<Fingerprint>) {
    SortedBy(files, PathLt)
  }

  lemma {:induction false} ByPathFinds(files: seq<Fingerprint>)
    ensures forall p :: p in ByPath(files) ==> ByPath(files)[p] in files && ByPath(files)[p].path == p
    ensures forall f :: f in files ==> f.path in ByPath(files)
    ensures forall p :: p in PathsOf(files) <==> p in ByPath(files)
  {
    if files != [] {
      var n := |files| - 1;
      ByPathFinds(files[..n]);
      assert files == files[..n] + [files[n]];
      PathsAppend(files[..n], files[n]);
    }
  }

  lemma {:induction false} PathsAppend(files: seq<Fingerprint>, f: Fingerprint)
    ensures PathsOf(files + [f]) == PathsOf(files) + [f.path]
  {
    if files == [] {
      assert files + [f] == [f];
    } else {
      PathsAppend(files[1..], f);
      assert (files + [f])[1..] == files[1..] + [f];
    }
  }

  /** Without duplicate paths every fingerprint is found under its path. */
  lemma ByPathExact(files: seq<Fingerprint>, f: Fingerprint)
    requires IsTree(files) && f in files
    ensures f.path in ByPath(files) && ByPath(files)[f.path] == f
  {
    ByPathFinds(files);
    var g := ByPath(files)[f.path];
    var i :| 0 <= i < |files| && files[i] == f;
    var j :| 0 <= j < |files| && files[j] == g;
  }

  lemma SortedTree(tree: seq<Fingerprint>)
    requires IsTree(tree)
    ensures StrictlySorted(FingerprintTree(tree)) && IsTree(FingerprintTree(tree))
    ensures ByPath(FingerprintTree(tree)) == ByPath(tree)
  {
    var s := FingerprintTree(tree);
    StringOrder();
    SortBySorted(tree, PathLe);
    SortByElements(tree, PathLe);
    assert Distinct(tree);
    SameMultisetDistinct(tree, s);
    forall i, j | 0 <= i < j < |s| ensures PathLt(s[i], s[j]) {
      assert s[i] in tree && s[j] in tree && s[i] != s[j];
      var a :| 0 <= a < |tree| && tree[a] == s[i];
      var b :| 0 <= b < |tree| && tree[b] == s[j];
    }
    SameByPath(tree, s);
  }

  lemma SameByPath(tree: seq<Fingerprint>, s: seq<Fingerprint>)
    requires IsTree(tree) && IsTree(s) && forall f :: f in s <==> f in tree
    ensures ByPath(s) == ByPath(tree)
  {
    KeysFrom(tree, s);
    KeysFrom(s, tree);
    ByPathFinds(s);
    assert ByPath(s).Keys == ByPath(tree).Keys;
    forall p | p in ByPath(s) ensures ByPath(s)[p] == ByPath(tree)[p] { ByPathExact(tree, ByPath(s)[p]); }
  }

  lemma KeysFrom(a: seq<Fingerprint>, b: seq<Fingerprint>)
    requires forall f :: f in a ==> f in b
    ensures ByPath(a).Keys <= ByPath(b).Keys
  {
    ByPathFinds(a);
    ByPathFinds(b);
    forall p | p in ByPath(a) ensures p in ByPath(b) { assert ByPath(a)[p] in b; }
  }

  lemma StrictIsTree(files: seq<Fingerprint>)
    requires StrictlySorted(files)
    ensures IsTree(files)
  {
    forall i, j | 0 <= i < j < |files| ensures files[i].path != files[j].path { assert PathLt(files[i], files[j]); }
  }

  // ---- comparison ----

  /** What the comparison says about one path; line counts are not compared. */
  function DriftAt(recorded: map<string, Fingerprint>, actual: map<string, Fingerprint>, path: string): Option<Drift> {
    if path !in recorded then (if path in actual then Some(Drift(Added, path, None, Some(actual[path]))) else None)
    else if path !in actual then Some(Drift(Deleted, path, Some(recorded[path]), None))
    else if recorded[path].sha != actual[path].sha then
      Some(Drift(Modified, path, Some(recorded[path]), Some(actual[path])))
    else None
  }

  function DriftsOver(recorded: map<string, Fingerprint>, actual: map<string, Fingerprint>, paths: seq<string>): seq<Drift> {
    if paths == [] then []
    else
      var n := |paths| - 1;
      var d := DriftAt(recorded, actual, paths[n]);
      DriftsOver(recorded, actual, paths[..n]) + if d.Some? then [d.value] else []
  }

  function AllPaths(recorded: seq<Fingerprint>, actual: seq<Fingerprint>): seq<string> {
    SortDedup(PathsOf(recorded) + PathsOf(actual))
  }

  function Drifts(recorded: seq<Fingerprint>, actual: seq<Fingerprint>): seq<Drift> {
    DriftsOver(ByPath(recorded), ByPath(actual), AllPaths(recorded, actual))
  }

  lemma DriftNames(recorded: map<string, Fingerprint>, actual: map<string, Fingerprint>)
    ensures forall p :: DriftAt(recorded, actual, p).Some? ==> DriftAt(recorded, actual, p).value.path == p
  {}

  lemma {:induction false} DriftsOverExact(
      recorded: map<string, Fingerprint>, actual: map<string, Fingerprint>, paths: seq<string>)
    ensures forall d :: (d in DriftsOver(recorded, actual, paths) <==>
                         d.path in paths && DriftAt(recorded, actual, d.path) == Some(d))
    ensures Ascending(paths) ==> forall i, j :: 0 <= i < j < |DriftsOver(recorded, actual, paths)| ==>
      StrLt(DriftsOver(recorded, actual, paths)[i].path, DriftsOver(recorded, actual, paths)[j].path)
  {
    hide DriftAt;
    DriftNames(recorded, actual);
    if paths != [] {
      var n := |paths| - 1;
      var before := DriftsOver(recorded, actual, paths[..n]);
      DriftsOverExact(recorded, actual, paths[..n]);
      assert paths == paths[..n] + [paths[n]];
      if Ascending(paths) {
        forall i | 0 <= i < |before| ensures StrLt(before[i].path, paths[n]) {
          assert before[i] in before;
          var k :| 0 <= k < n && paths[k] == before[i].path;
        }
      }
    }
  }

  /** The drifts are exactly the paths that differ, ascending and each once. */
  lemma DriftsExact(recorded: seq<Fingerprint>, actual: seq<Fingerprint>)
    ensures forall d :: d in Drifts(recorded, actual) <==> DriftAt(ByPath(recorded), ByPath(actual), d.path) == Some(d)
    ensures forall i, j :: 0 <= i < j < |Drifts(recorded, actual)| ==>
      StrLt(Drifts(recorded, actual)[i].path, Drifts(recorded, actual)[j].path)
  {
    var paths := AllPaths(recorded, actual);
    SortDedupIsAscending(PathsOf(recorded) + PathsOf(actual));
    ByPathFinds(recorded);
    ByPathFinds(actual);
    DriftsOverExact(ByPath(recorded), ByPath(actual), paths);
    forall d: Drift | DriftAt(ByPath(recorded), ByPath(actual), d.path) == Some(d) ensures d.path in paths {
      assert d.path in PathsOf(recorded) + PathsOf(actual);
      assert d.path in Elements(paths);
    }
  }

  method Compare(recorded: seq<Fingerprint>, actual: seq<Fingerprint>) returns (drifts: seq<Drift>)
    ensures drifts == Drifts(recorded, actual)
  {
    var before, after, paths := ByPath(recorded), ByPath(actual), AllPaths(recorded, actual);
    drifts := [];
    for i := 0 to |paths|
      invariant drifts == DriftsOver(before, after, paths[..i])
    {
      assert paths[..i + 1][..i] == paths[..i];
      var d := DriftAt(before, after, paths[i]);
      if d.Some? { drifts := drifts + [d.value]; }
    }
    assert paths[..|paths|] == paths;
  }

  // ---- recording and pruning ----

  datatype Remedy = NoRemedy | NoteIt | PruneIt

  function RemedyFor(policy: Policy, kind: Kind): Remedy {
    if kind.Added? then NoRemedy
    else if kind.Deleted? && policy.DeletionsOnly? then PruneIt
    else NoteIt
  }

  function Field(value: Option<string>): string {
    Strip(match value case Some(v) => v case None => "")
  }

  function NoteOf(r: Request): Note {
    Note(Field(r.issue), Field(r.evidence), Field(r.owner), Field(r.retirement))
  }

  predicate CompleteNote(n: Note) {
    n.issue != "" && n.evidence != "" && n.owner != "" && n.retirement != ""
  }

  predicate AnyOf(drifts: seq<Drift>, kind: Kind) {
    exists i :: 0 <= i < |drifts| && drifts[i].kind == kind
  }

  predicate AnyPrunable(policy: Policy, drifts: seq<Drift>) {
    exists i :: 0 <= i < |drifts| && RemedyFor(policy, drifts[i].kind).PruneIt?
  }

  function FilesOf(drifts: seq<Drift>): seq<ChangedFile> {
    if drifts == [] then [] else [ChangedFile(drifts[0].path, drifts[0].kind)] + FilesOf(drifts[1..])
  }

  function DeletedOnly(drifts: seq<Drift>): seq<Drift> {
    if drifts == [] then []
    else if drifts[0].kind.Deleted? then [drifts[0]] + DeletedOnly(drifts[1..])
    else DeletedOnly(drifts[1..])
  }

  function Without(files: seq<Fingerprint>, gone: set<string>): seq<Fingerprint> {
    if files == [] then []
    else if files[0].path in gone then Without(files[1..], gone)
    else [files[0]] + Without(files[1..], gone)
  }

  function DriftPaths(drifts: seq<Drift>): set<string> {
    set i | 0 <= i < |drifts| :: drifts[i].path
  }

  function RecordChange(m: Manifest, tree: seq<Fingerprint>, r: Request): Outcome {
    var policy := match r.policy case Some(p) => p case None => m.policy;
    var drifts := Drifts(m.files, FingerprintTree(tree));
    if !CompleteNote(NoteOf(r)) then Refused(IncompleteNote)
    else if AnyOf(drifts, Added) then Refused(TreeGrew)
    else if AnyPrunable(m.policy, drifts) then Refused(Unpruned)
    else if drifts == [] && policy == m.policy then Refused(NothingToRecord)
    else Written(Manifest(policy, FingerprintTree(tree), m.changes + [Change(r.pr, policy, FilesOf(drifts), NoteOf(r))]))
  }

  function PruneDeletions(m: Manifest, tree: seq<Fingerprint>, pr: Option<nat>): Outcome {
    var drifts := Drifts(m.files, FingerprintTree(tree));
    var deleted := DeletedOnly(drifts);
    if m.policy.Frozen? then Refused(NotDeletionsOnly)
    else if AnyOf(drifts, Added) then Refused(TreeGrew)
    else if deleted == [] then Refused(NothingDeleted)
    else Written(Manifest(m.policy, Without(m.files, DriftPaths(deleted)),
                          m.changes + [Deletion(pr, m.policy, FilesOf(deleted))]))
  }

  predicate CheckPasses(m: Manifest, tree: seq<Fingerprint>) {
    Drifts(m.files, FingerprintTree(tree)) == []
  }

  // ---- what loading a manifest demands ----

  predicate NoteNotBlank(n: Note) {
    Strip(n.issue) != "" && Strip(n.evidence) != "" && Strip(n.owner) != "" && Strip(n.retirement) != ""
  }

  predicate EntryOk(e: Entry) {
    match e
    case Change(_, _, files, note) =>
      (forall f :: f in files ==> f.change == Modified || f.change == Deleted) && NoteNotBlank(note)
    case Deletion(_, policy, files) =>
      policy == DeletionsOnly && files != [] && forall f :: f in files ==> f.change == Deleted
  }

  /** The ordering and consistency checks of the loader: what is written can be read back. */
  ghost predicate Loads(m: Manifest) {
    && StrictlySorted(m.files)
    && (forall e :: e in m.changes ==> EntryOk(e))
    && (m.changes != [] ==> m.changes[|m.changes| - 1].policy == m.policy)
  }

  // ---- one written entry ----

  function Gone(files: seq<ChangedFile>): seq<string> {
    if files == [] then []
    else (if files[0].change.Deleted? then [files[0].path] else []) + Gone(files[1..])
  }

  lemma {:induction false} FilesOfExact(drifts: seq<Drift>)
    ensures forall f :: f in FilesOf(drifts) <==> exists d :: d in drifts && f == ChangedFile(d.path, d.kind)
    ensures forall p :: p in Gone(FilesOf(drifts)) <==> exists d :: d in drifts && d.path == p && d.kind.Deleted?
    ensures |FilesOf(drifts)| == |drifts|
  {
    if drifts != [] {
      FilesOfExact(drifts[1..]);
      assert drifts == [drifts[0]] + drifts[1..];
      assert FilesOf(drifts)[1..] == FilesOf(drifts[1..]);
    }
  }

  ghost predicate DriftsAscend(drifts: seq<Drift>) {
    forall i, j :: 0 <= i < j < |drifts| ==> StrLt(drifts[i].path, drifts[j].path)
  }

  lemma {:induction false} GoneDistinct(drifts: seq<Drift>)
    requires DriftsAscend(drifts)
    ensures Distinct(Gone(FilesOf(drifts)))
  {
    if drifts != [] {
      var rest := drifts[1..];
      GoneDistinct(rest);
      FilesOfExact(rest);
      assert FilesOf(drifts)[1..] == FilesOf(rest);
      var gone := Gone(FilesOf(rest));
      forall i | 0 <= i < |gone| ensures gone[i] != drifts[0].path {
        assert gone[i] in gone;
        var d :| d in rest && d.path == gone[i] && d.kind.Deleted?;
        var k :| 1 <= k < |drifts| && drifts[k] == d;
      }
    }
  }

  lemma {:induction false} DeletedOnlyExact(drifts: seq<Drift>)
    ensures forall d :: d in DeletedOnly(drifts) <==> d in drifts && d.kind.Deleted?
    ensures DriftsAscend(drifts) ==> DriftsAscend(DeletedOnly(drifts))
  {
    if drifts != [] {
      DeletedOnlyExact(drifts[1..]);
      assert drifts == [drifts[0]] + drifts[1..];
      if DriftsAscend(drifts) {
        var rest := DeletedOnly(drifts[1..]);
        assert DriftsAscend(drifts[1..]);
        forall j | 0 <= j < |rest| ensures StrLt(drifts[0].path, rest[j].path) {
          assert rest[j] in rest;
          var k :| 1 <= k < |drifts| && drifts[k] == rest[j];
        }
      }
    }
  }

  lemma {:induction false} WithoutExact(files: seq<Fingerprint>, gone: set<string>)
    ensures forall f :: f in Without(files, gone) <==> f in files && f.path !in gone
    ensures StrictlySorted(files) ==> StrictlySorted(Without(files, gone))
  {
    if files != [] {
      WithoutExact(files[1..], gone);
      assert files == [files[0]] + files[1..];
      if StrictlySorted(files) {
        var rest := Without(files[1..], gone);
        forall j | 0 <= j < |rest| ensures PathLt(files[0], rest[j]) {
          assert rest[j] in rest;
          var k :| 1 <= k < |files| && files[k] == rest[j];
        }
      }
    }
  }

  /**
   What one entry accounts for: the paths that left are exactly its deleted ones, each once, and the digests that changed
   are exactly its modified ones.
   */
  ghost predicate Accounts(m: Manifest, after: Manifest, e: Entry) {
    && after.changes == m.changes + [e] && EntryOk(e) && e.policy == after.policy
    && Distinct(Gone(e.files)) && Elements(Gone(e.files)) <= Listed(m.files)
    && Listed(after.files) == Listed(m.files) - Elements(Gone(e.files))
    && (forall p :: p in Listed(after.files) ==>
          (ByPath(after.files)[p].sha != ByPath(m.files)[p].sha <==> ChangedFile(p, Modified) in e.files))
  }

  lemma NoneOf(drifts: seq<Drift>, kind: Kind)
    requires !AnyOf(drifts, kind)
    ensures forall d :: d in drifts ==> d.kind != kind
  {
  }

  lemma DriftCases(m: seq<Fingerprint>, tree: seq<Fingerprint>, p: string)
    ensures var drifts := Drifts(m, tree);
      && (p in Listed(m) && p !in Listed(tree) <==> exists d :: d in drifts && d.path == p && d.kind.Deleted?)
      && (p !in Listed(m) && p in Listed(tree) <==> exists d :: d in drifts && d.path == p && d.kind.Added?)
      && (p in Listed(m) && p in Listed(tree) && ByPath(m)[p].sha != ByPath(tree)[p].sha
          <==> exists d :: d in drifts && d.path == p && d.kind.Modified?)
  {
    DriftsExact(m, tree);
    var at := DriftAt(ByPath(m), ByPath(tree), p);
    if at.Some? { assert at.value in Drifts(m, tree); }
  }

  lemma StripTwice(s: string)
    ensures Strip(Strip(s)) == Strip(s)
  {
    var before, after := StripParts(s);
    StripFinds("", Strip(s), "");
    assert "" + Strip(s) + "" == Strip(s);
  }

  lemma StrippedNote(r: Request)
    requires CompleteNote(NoteOf(r))
    ensures NoteNotBlank(NoteOf(r))
  {
    hide Strip;
    StripTwice(match r.issue case Some(v) => v case None => "");
    StripTwice(match r.evidence case Some(v) => v case None => "");
    StripTwice(match r.owner case Some(v) => v case None => "");
    StripTwice(match r.retirement case Some(v) => v case None => "");
  }

  /** When the tree did not grow, its listed paths and digests differ from the recorded ones as the drifts say. */
  lemma DriftsAccount(files: seq<Fingerprint>, tree: seq<Fingerprint>)
    requires !AnyOf(Drifts(files, tree), Added)
    ensures var changed := FilesOf(Drifts(files, tree));
      && Distinct(Gone(changed)) && Elements(Gone(changed)) <= Listed(files)
      && Listed(tree) == Listed(files) - Elements(Gone(changed))
      && (forall p :: p in Listed(tree) ==>
            (ByPath(tree)[p].sha != ByPath(files)[p].sha <==> ChangedFile(p, Modified) in changed))
  {
    var drifts := Drifts(files, tree);
    DriftsExact(files, tree);
    GoneDistinct(drifts);
    FilesOfExact(drifts);
    NoneOf(drifts, Added);
    hide Drifts, FilesOf, Gone, ByPath;
    var gone := Elements(Gone(FilesOf(drifts)));
    forall p ensures (p in Listed(tree) <==> p in Listed(files) && p !in gone) && (p in gone ==> p in Listed(files)) {
      DriftCases(files, tree, p);
      assert p in gone <==> p in Gone(FilesOf(drifts));
    }
    forall p | p in Listed(tree)
      ensures ByPath(tree)[p].sha != ByPath(files)[p].sha <==> ChangedFile(p, Modified) in FilesOf(drifts)
    {
      DriftCases(files, tree, p);
    }
  }

  lemma RecordAccounts(m: Manifest, tree: seq<Fingerprint>, r: Request)
    requires Loads(m) && IsTree(tree) && RecordChange(m, tree, r).Written?
    ensures var after := RecordChange(m, tree, r).manifest;
      && |after.changes| == |m.changes| + 1
      && Accounts(m, after, after.changes[|m.changes|]) && StrictlySorted(after.files)
  {
    var drifts := Drifts(m.files, FingerprintTree(tree));
    SortedTree(tree);
    DriftsAccount(m.files, FingerprintTree(tree));
    RecordedEntry(m, tree, r);
    hide Drifts, ByPath, FingerprintTree, Gone, NoteNotBlank, NoteOf, RecordChange, EntryOk, FilesOf;
  }

  /** The written entry names every drift and carries the complete note. */
  lemma RecordedEntry(m: Manifest, tree: seq<Fingerprint>, r: Request)
    requires RecordChange(m, tree, r).Written?
    ensures var after, drifts := RecordChange(m, tree, r).manifest, Drifts(m.files, FingerprintTree(tree));
      && !AnyOf(drifts, Added) && after.files == FingerprintTree(tree)
      && |after.changes| == |m.changes| + 1 && after.changes == m.changes + [after.changes[|m.changes|]]
      && after.changes[|m.changes|].files == FilesOf(drifts) && after.changes[|m.changes|].policy == after.policy
      && EntryOk(after.changes[|m.changes|])
  {
    var drifts := Drifts(m.files, FingerprintTree(tree));
    StrippedNote(r);
    FilesOfExact(drifts);
    NoneOf(drifts, Added);
    hide Drifts, FingerprintTree, NoteNotBlank, NoteOf;
    assert forall d :: d in drifts ==> d.kind == Modified || d.kind == Deleted;
  }

  lemma PruneAccounts(m: Manifest, tree: seq<Fingerprint>, pr: Option<nat>)
    requires Loads(m) && IsTree(tree) && PruneDeletions(m, tree, pr).Written?
    ensures var after := PruneDeletions(m, tree, pr).manifest;
      && |after.changes| == |m.changes| + 1
      && Accounts(m, after, after.changes[|m.changes|]) && StrictlySorted(after.files)
  {
    var after := PruneDeletions(m, tree, pr).manifest;
    var drifts := Drifts(m.files, FingerprintTree(tree));
    var deleted := DeletedOnly(drifts);
    var e := after.changes[|m.changes|];
    DriftsExact(m.files, FingerprintTree(tree));
    DeletedOnlyExact(drifts);
    GoneDistinct(deleted);
    FilesOfExact(deleted);
    WithoutExact(m.files, DriftPaths(deleted));
    StrictIsTree(m.files);
    StrictIsTree(after.files);
    KeptByPath(m.files, DriftPaths(deleted));
    forall p ensures p in DriftPaths(deleted) <==> p in Gone(e.files) {
      if p in Gone(e.files) {
        var d :| d in deleted && d.path == p && d.kind.Deleted?;
        var i :| 0 <= i < |deleted| && deleted[i] == d;
      }
      if p in DriftPaths(deleted) {
        var i :| 0 <= i < |deleted| && deleted[i].path == p;
        assert deleted[i] in deleted;
      }
    }
    forall p | p in Gone(e.files) ensures p in Listed(m.files) { DriftCases(m.files, FingerprintTree(tree), p); }
  }

  lemma KeptByPath(files: seq<Fingerprint>, gone: set<string>)
    requires IsTree(files)
    ensures ByPath(Without(files, gone)).Keys == ByPath(files).Keys - gone
    ensures forall p :: p in ByPath(Without(files, gone)) ==> ByPath(Without(files, gone))[p] == ByPath(files)[p]
  {
    WithoutExact(files, gone);
    var kept := Without(files, gone);
    ByPathFinds(files);
    ByPathFinds(kept);
    forall p | p in ByPath(files) && p !in gone ensures p in ByPath(kept) { assert ByPath(files)[p] in kept; }
    forall p | p in ByPath(kept) ensures ByPath(kept)[p] == ByPath(files)[p] { ByPathExact(files, ByPath(kept)[p]); }
  }

  // ---- the check after a command ----

  lemma CheckPassesIff(m: Manifest, tree: seq<Fingerprint>)
    requires IsTree(tree)
    ensures CheckPasses(m, tree) <==>
      Listed(m.files) == Listed(tree) && forall p :: p in Listed(tree) ==> ByPath(m.files)[p].sha == ByPath(tree)[p].sha
  {
    SortedTree(tree);
    var drifts := Drifts(m.files, FingerprintTree(tree));
    forall p { DriftCases(m.files, FingerprintTree(tree), p); }
    DriftsExact(m.files, FingerprintTree(tree));
    if drifts != [] {
      assert drifts[0] in drifts;
      assert drifts[0].kind.Added? || drifts[0].kind.Modified? || drifts[0].kind.Deleted?;
    }
  }

  /** A written record leaves nothing to complain about. */
  lemma CheckPassesAfterRecord(m: Manifest, tree: seq<Fingerprint>, r: Request)
    requires IsTree(tree) && RecordChange(m, tree, r).Written?
    ensures CheckPasses(RecordChange(m, tree, r).manifest, tree)
  {
    SortedTree(tree);
    hide Drifts, ByPath;
    CheckPassesIff(RecordChange(m, tree, r).manifest, tree);
  }

  /** A prune settles the deletions and nothing else: the check then passes exactly when no modification is pending. */
  lemma CheckAfterPrune(m: Manifest, tree: seq<Fingerprint>, pr: Option<nat>)
    requires Loads(m) && IsTree(tree) && PruneDeletions(m, tree, pr).Written?
    ensures var after := PruneDeletions(m, tree, pr).manifest;
      && CheckPasses(after, tree) <==> !AnyOf(Drifts(m.files, FingerprintTree(tree)), Modified)
    ensures var after := PruneDeletions(m, tree, pr).manifest;
      && !AnyOf(Drifts(after.files, FingerprintTree(tree)), Deleted)
      && !AnyOf(Drifts(after.files, FingerprintTree(tree)), Added)
  {
    var after := PruneDeletions(m, tree, pr).manifest;
    var drifts := Drifts(m.files, FingerprintTree(tree));
    var sorted := FingerprintTree(tree);
    SortedTree(tree);
    StrictIsTree(m.files);
    DeletedOnlyExact(drifts);
    KeptByPath(m.files, DriftPaths(DeletedOnly(drifts)));
    DriftsExact(m.files, sorted);
    DriftsExact(after.files, sorted);
    forall p ensures p in Listed(after.files) <==> p in Listed(m.files) && p in Listed(sorted) {
      DriftCases(m.files, sorted, p);
      if p in DriftPaths(DeletedOnly(drifts)) {
        var i :| 0 <= i < |DeletedOnly(drifts)| && DeletedOnly(drifts)[i].path == p;
        assert DeletedOnly(drifts)[i] in DeletedOnly(drifts);
      }
    }
    PruneLeavesModified(m, after, sorted);
    CheckPassesIff(after, tree);
  }

  lemma PruneLeavesModified(m: Manifest, after: Manifest, sorted: seq<Fingerprint>)
    requires !AnyOf(Drifts(m.files, sorted), Added)
    requires forall p :: p in Listed(after.files) <==> p in Listed(m.files) && p in Listed(sorted)
    requires forall p :: p in Listed(after.files) ==> ByPath(after.files)[p] == ByPath(m.files)[p]
    ensures !AnyOf(Drifts(after.files, sorted), Deleted) && !AnyOf(Drifts(after.files, sorted), Added)
    ensures Listed(after.files) == Listed(sorted)
    ensures (forall p :: p in Listed(sorted) ==> ByPath(after.files)[p].sha == ByPath(sorted)[p].sha)
      <==> !AnyOf(Drifts(m.files, sorted), Modified)
  {
    var drifts, left := Drifts(m.files, sorted), Drifts(after.files, sorted);
    NoneOf(drifts, Added);
    hide Drifts, ByPath;
    forall p ensures p in Listed(sorted) ==> p in Listed(m.files) { DriftCases(m.files, sorted, p); }
    forall i | 0 <= i < |left| ensures left[i].kind.Modified? {
      DriftCases(after.files, sorted, left[i].path);
      assert left[i] in left;
    }
    if AnyOf(drifts, Modified) {
      var i :| 0 <= i < |drifts| && drifts[i].kind.Modified?;
      assert drifts[i] in drifts;
      DriftCases(m.files, sorted, drifts[i].path);
    } else {
      NoneOf(drifts, Modified);
      forall p | p in Listed(sorted) ensures ByPath(after.files)[p].sha == ByPath(sorted)[p].sha {
        DriftCases(m.files, sorted, p);
      }
    }
  }

  /**
   Unless the tree grew, at most a prune followed by a noted record settles every drift; when it grew, both are refused.
   */
  lemma TwoCommandsSettle(m: Manifest, tree: seq<Fingerprint>, r: Request)
    requires Loads(m) && IsTree(tree) && CompleteNote(NoteOf(r)) && r.policy.None? && !CheckPasses(m, tree)
    ensures var drifts := Drifts(m.files, FingerprintTree(tree));
      && (AnyOf(drifts, Added) ==> RecordChange(m, tree, r).Refused? && PruneDeletions(m, tree, r.pr).Refused?)
      && (!AnyOf(drifts, Added) && !AnyPrunable(m.policy, drifts) ==> RecordChange(m, tree, r).Written?)
    ensures var drifts := Drifts(m.files, FingerprintTree(tree));
      !AnyOf(drifts, Added) && AnyPrunable(m.policy, drifts) ==>
        && PruneDeletions(m, tree, r.pr).Written?
        && (CheckPasses(PruneDeletions(m, tree, r.pr).manifest, tree)
            || RecordChange(PruneDeletions(m, tree, r.pr).manifest, tree, r).Written?)
  {
    var drifts := Drifts(m.files, FingerprintTree(tree));
    DeletedOnlyExact(drifts);
    hide Drifts, FingerprintTree, Loads, CompleteNote, NoteOf;
    if !AnyOf(drifts, Added) && AnyPrunable(m.policy, drifts) {
      var i :| 0 <= i < |drifts| && RemedyFor(m.policy, drifts[i].kind).PruneIt?;
      assert drifts[i] in DeletedOnly(drifts);
      CheckAfterPrune(m, tree, r.pr);
      var pruned := PruneDeletions(m, tree, r.pr).manifest;
      assert !AnyPrunable(pruned.policy, Drifts(pruned.files, FingerprintTree(tree)));
    }
  }

  // ---- the stored manifest ----

  datatype State = State(manifest: Manifest, tree: seq<Fingerprint>)

  function Commit(s: State, o: Outcome): State {
    if o.Written? then s.(manifest := o.manifest) else s
  }

  /** The stored manifest and its commands. */
  class Gate {
    var manifest: Manifest

    constructor (manifest: Manifest)
      ensures this.manifest == manifest
    {
      this.manifest := manifest;
    }

    /** Zero when the tree matches, one when it drifted. */
    method Check(tree: seq<Fingerprint>) returns (status: nat)
      ensures status == if CheckPasses(manifest, tree) then 0 else 1
    {
      var drifts := Compare(manifest.files, FingerprintTree(tree));
      status := if drifts == [] then 0 else 1;
    }

    method Record(tree: seq<Fingerprint>, request: Request) returns (outcome: Outcome)
      modifies this
      ensures outcome == RecordChange(old(manifest), tree, request)
      ensures manifest == Commit(State(old(manifest), tree), outcome).manifest
    {
      var note := NoteOf(request);
      if !CompleteNote(note) { return Refused(IncompleteNote); }
      var policy := match request.policy case Some(p) => p case None => manifest.policy;
      var drifts := Compare(manifest.files, FingerprintTree(tree));
      if AnyOf(drifts, Added) { return Refused(TreeGrew); }
      if AnyPrunable(manifest.policy, drifts) { return Refused(Unpruned); }
      if drifts == [] && policy == manifest.policy { return Refused(NothingToRecord); }
      var change := Change(request.pr, policy, FilesOf(drifts), note);
      manifest := Manifest(policy, FingerprintTree(tree), manifest.changes + [change]);
      return Written(manifest);
    }

    method Prune(tree: seq<Fingerprint>, pr: Option<nat>) returns (outcome: Outcome)
      modifies this
      ensures outcome == PruneDeletions(old(manifest), tree, pr)
      ensures manifest == Commit(State(old(manifest), tree), outcome).manifest
    {
      if manifest.policy != DeletionsOnly { return Refused(NotDeletionsOnly); }
      var drifts := Compare(manifest.files, FingerprintTree(tree));
      if AnyOf(drifts, Added) { return Refused(TreeGrew); }
      var deleted := DeletedOnly(drifts);
      if deleted == [] { return Refused(NothingDeleted); }
      var change := Deletion(pr, manifest.policy, FilesOf(deleted));
      manifest := Manifest(manifest.policy, Without(manifest.files, DriftPaths(deleted)), manifest.changes + [change]);
      return Written(manifest);
    }
  }
}
