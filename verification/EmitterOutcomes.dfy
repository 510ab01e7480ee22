/** What record and prune answer and write, told from manifest and tree. */
module EmitterOutcomes {
  import opened Orders
  import opened PythonText
  import opened EmitterFreeze
  import opened EmitterLedger

  ghost predicate Has(files: seq<Fingerprint>, path: string) {
    exists f :: f in files && f.path == path
  }

  ghost predicate Departed(m: Manifest, tree: seq<Fingerprint>, path: string) {
    Has(m.files, path) && !Has(tree, path)
  }

  ghost predicate Arrived(m: Manifest, tree: seq<Fingerprint>, path: string) {
    Has(tree, path) && !Has(m.files, path)
  }

  /** Listed with one digest, in the tree with another. */
  ghost predicate Rewritten(m: Manifest, tree: seq<Fingerprint>, path: string) {
    exists f, g :: f in m.files && g in tree && f.path == path && g.path == path && f.sha != g.sha
  }

  /** The option was given and is more than white space. */
  ghost predicate HasText(field: Option<string>) {
    field.Some? && exists c :: c in field.value && !IsSpace(c)
  }

  ghost predicate Noted(r: Request) {
    HasText(r.issue) && HasText(r.evidence) && HasText(r.owner) && HasText(r.retirement)
  }

  function AskedPolicy(m: Manifest, r: Request): Policy {
    if r.policy.Some? then r.policy.value else m.policy
  }

  ghost predicate Changed(m: Manifest, tree: seq<Fingerprint>) {
    exists p :: Departed(m, tree, p) || Rewritten(m, tree, p)
  }

  /**
   A record needs a complete note, a tree without new files and, under the deletions-only policy, without departed ones;
   then it is written if there is anything to record. The first unmet demand is the reason of the refusal.
   */
  ghost predicate RecordAnswers(m: Manifest, tree: seq<Fingerprint>, r: Request, o: Outcome) {
    var grew := exists p :: Arrived(m, tree, p);
    var unpruned := m.policy.DeletionsOnly? && exists p :: Departed(m, tree, p);
    var news := Changed(m, tree) || AskedPolicy(m, r) != m.policy;
    && (o.Written? <==> Noted(r) && !grew && !unpruned && news)
    && (o == Refused(IncompleteNote) <==> !Noted(r))
    && (o == Refused(TreeGrew) <==> Noted(r) && grew)
    && (o == Refused(Unpruned) <==> Noted(r) && !grew && unpruned)
    && (o == Refused(NothingToRecord) <==> Noted(r) && !grew && !unpruned && !news)
  }

  /** The same files, in ascending order of their paths. */
  ghost predicate ListsTree(files: seq<Fingerprint>, tree: seq<Fingerprint>) {
    && (forall i, j :: 0 <= i < j < |files| ==> StrLt(files[i].path, files[j].path))
    && forall f :: f in files <==> f in tree
  }

  ghost predicate NamesChanges(files: seq<ChangedFile>, m: Manifest, tree: seq<Fingerprint>) {
    && (forall i, j :: 0 <= i < j < |files| ==> StrLt(files[i].path, files[j].path))
    && (forall c :: c in files ==> c.change.Deleted? || c.change.Modified?)
    && (forall p :: ChangedFile(p, Deleted) in files <==> Departed(m, tree, p))
    && (forall p :: ChangedFile(p, Modified) in files <==> Rewritten(m, tree, p))
  }

  /** A written record lists the tree and appends one entry with the stripped note, naming exactly what changed. */
  ghost predicate RecordWrites(m: Manifest, tree: seq<Fingerprint>, r: Request, after: Manifest)
    requires Noted(r)
  {
    && after.policy == AskedPolicy(m, r) && ListsTree(after.files, tree)
    && exists files :: NamesChanges(files, m, tree)
         && after.changes == m.changes + [Change(r.pr, AskedPolicy(m, r), files,
              Note(Strip(r.issue.value), Strip(r.evidence.value), Strip(r.owner.value), Strip(r.retirement.value)))]
  }

  /** A prune is for the deletions-only policy, a tree without new files and at least one departed file. */
  ghost predicate PruneAnswers(m: Manifest, tree: seq<Fingerprint>, o: Outcome) {
    var grew, left := exists p :: Arrived(m, tree, p), exists p :: Departed(m, tree, p);
    && (o.Written? <==> m.policy.DeletionsOnly? && !grew && left)
    && (o == Refused(NotDeletionsOnly) <==> m.policy.Frozen?)
    && (o == Refused(TreeGrew) <==> m.policy.DeletionsOnly? && grew)
    && (o == Refused(NothingDeleted) <==> m.policy.DeletionsOnly? && !grew && !left)
  }

  /** A written prune keeps the listed files that are in the tree as they were listed and names the others. */
  ghost predicate PruneWrites(m: Manifest, tree: seq<Fingerprint>, pr: Option<nat>, after: Manifest) {
    && after.policy == m.policy
    && (forall i, j :: 0 <= i < j < |after.files| ==> StrLt(after.files[i].path, after.files[j].path))
    && (forall f :: f in after.files <==> f in m.files && Has(tree, f.path))
    && exists files :: NamesDeparted(files, m, tree) && after.changes == m.changes + [Deletion(pr, m.policy, files)]
  }

  ghost predicate NamesDeparted(files: seq<ChangedFile>, m: Manifest, tree: seq<Fingerprint>) {
    && (forall i, j :: 0 <= i < j < |files| ==> StrLt(files[i].path, files[j].path))
    && forall c :: c in files <==> c.change.Deleted? && Departed(m, tree, c.path)
  }

  // ---- what is listed ----

  lemma HasIsListed(files: seq<Fingerprint>, p: string)
    ensures Has(files, p) <==> p in Listed(files)
  {
    ByPathFinds(files);
    if Has(files, p) {
      var f :| f in files && f.path == p;
      assert f.path in ByPath(files);
    }
  }

  lemma RewrittenIs(m: Manifest, tree: seq<Fingerprint>, p: string)
    requires Loads(m) && IsTree(tree)
    ensures Rewritten(m, tree, p)
      <==> p in Listed(m.files) && p in Listed(tree) && ByPath(m.files)[p].sha != ByPath(tree)[p].sha
  {
    StrictIsTree(m.files);
    ByPathFinds(m.files);
    ByPathFinds(tree);
    if Rewritten(m, tree, p) {
      var f, g :| f in m.files && g in tree && f.path == p && g.path == p && f.sha != g.sha;
      ByPathExact(m.files, f);
      ByPathExact(tree, g);
    }
  }

  /** The comparison finds a path departed, arrived or rewritten exactly when it is. */
  lemma DriftsSay(m: Manifest, tree: seq<Fingerprint>, p: string)
    requires Loads(m) && IsTree(tree)
    ensures var drifts := Drifts(m.files, FingerprintTree(tree));
      && (Departed(m, tree, p) <==> exists d :: d in drifts && d.path == p && d.kind.Deleted?)
      && (Arrived(m, tree, p) <==> exists d :: d in drifts && d.path == p && d.kind.Added?)
      && (Rewritten(m, tree, p) <==> exists d :: d in drifts && d.path == p && d.kind.Modified?)
  {
    SortedTree(tree);
    hide Drifts, FingerprintTree, ByPath, Has;
    HasIsListed(m.files, p);
    HasIsListed(tree, p);
    RewrittenIs(m, tree, p);
    DriftCases(m.files, FingerprintTree(tree), p);
  }

  /** What a drift shows: the listed fingerprint as the one before, the one in the tree as the one after. */
  ghost predicate Shows(m: Manifest, tree: seq<Fingerprint>, d: Drift) {
    && (d.before.Some? ==> d.before.value in m.files && d.before.value.path == d.path)
    && (d.after.Some? ==> d.after.value in tree && d.after.value.path == d.path)
    && (d.kind.Added? <==> d.before.None? && !Has(m.files, d.path) && d.after.Some?)
    && (d.kind.Deleted? <==> d.after.None? && !Has(tree, d.path) && d.before.Some?)
    && (d.kind.Modified? <==> d.before.Some? && d.after.Some? && d.before.value.sha != d.after.value.sha)
  }

  lemma DriftsShow(m: Manifest, tree: seq<Fingerprint>, d: Drift)
    requires Loads(m) && IsTree(tree) && d in Drifts(m.files, FingerprintTree(tree))
    ensures Shows(m, tree, d)
  {
    SortedTree(tree);
    DriftsExact(m.files, FingerprintTree(tree));
    ByPathFinds(m.files);
    ByPathFinds(tree);
    hide Drifts, FingerprintTree, ByPath, Has;
    HasIsListed(m.files, d.path);
    HasIsListed(tree, d.path);
  }

  lemma AnyKind(m: Manifest, tree: seq<Fingerprint>)
    requires Loads(m) && IsTree(tree)
    ensures var drifts := Drifts(m.files, FingerprintTree(tree));
      && (AnyOf(drifts, Added) <==> exists p :: Arrived(m, tree, p))
      && (AnyOf(drifts, Deleted) <==> exists p :: Departed(m, tree, p))
      && (AnyOf(drifts, Modified) <==> exists p :: Rewritten(m, tree, p))
  {
    var drifts := Drifts(m.files, FingerprintTree(tree));
    hide Drifts, FingerprintTree, Departed, Arrived, Rewritten, AnyOf, Loads, IsTree;
    SomeOfKind(drifts, Added);
    SomeOfKind(drifts, Deleted);
    SomeOfKind(drifts, Modified);
    forall p { DriftsSay(m, tree, p); }
    if AnyOf(drifts, Added) { var d :| d in drifts && d.kind == Added; assert Arrived(m, tree, d.path); }
    if AnyOf(drifts, Deleted) { var d :| d in drifts && d.kind == Deleted; assert Departed(m, tree, d.path); }
    if AnyOf(drifts, Modified) { var d :| d in drifts && d.kind == Modified; assert Rewritten(m, tree, d.path); }
  }

  lemma SomeOfKind(drifts: seq<Drift>, kind: Kind)
    ensures AnyOf(drifts, kind) <==> exists d :: d in drifts && d.kind == kind
  {
    if d :| d in drifts && d.kind == kind {
      var i :| 0 <= i < |drifts| && drifts[i] == d;
    }
  }

  lemma StripText(s: string)
    ensures Strip(s) != "" <==> exists c :: c in s && !IsSpace(c)
  {
    var before, after := StripParts(s);
    if Strip(s) != "" { assert Strip(s)[0] in s; }
  }

  lemma FieldText(field: Option<string>)
    ensures Field(field) != "" <==> HasText(field)
    ensures HasText(field) ==> Field(field) == Strip(field.value)
  {
    if field.Some? { StripText(field.value); }
  }

  lemma NoteText(r: Request)
    ensures CompleteNote(NoteOf(r)) <==> Noted(r)
    ensures Noted(r) ==>
      NoteOf(r) == Note(Strip(r.issue.value), Strip(r.evidence.value), Strip(r.owner.value), Strip(r.retirement.value))
  {
    hide Field, HasText;
    FieldText(r.issue);
    FieldText(r.evidence);
    FieldText(r.owner);
    FieldText(r.retirement);
    assert Noted(r) ==> HasText(r.issue) && HasText(r.evidence) && HasText(r.owner) && HasText(r.retirement);
  }

  // ---- recording ----

  lemma RecordAnswersExact(m: Manifest, tree: seq<Fingerprint>, r: Request)
    requires Loads(m) && IsTree(tree)
    ensures RecordAnswers(m, tree, r, RecordChange(m, tree, r))
  {
    AnyKind(m, tree);
    NoteText(r);
    AllKinds(Drifts(m.files, FingerprintTree(tree)), m.policy);
    EitherChanged(m, tree);
    hide Drifts, FingerprintTree, Departed, Arrived, Rewritten, NoteOf, CompleteNote, Noted, Loads, AnyOf, AnyPrunable, Changed;
  }

  lemma EitherChanged(m: Manifest, tree: seq<Fingerprint>)
    ensures Changed(m, tree) <==> (exists p :: Departed(m, tree, p)) || (exists p :: Rewritten(m, tree, p))
  {
    hide Departed, Rewritten;
  }

  lemma AllKinds(drifts: seq<Drift>, policy: Policy)
    ensures drifts == [] <==> !AnyOf(drifts, Added) && !AnyOf(drifts, Deleted) && !AnyOf(drifts, Modified)
    ensures AnyPrunable(policy, drifts) <==> policy == DeletionsOnly && AnyOf(drifts, Deleted)
  {
    if drifts != [] { assert drifts[0].kind.Added? || drifts[0].kind.Deleted? || drifts[0].kind.Modified?; }
  }

  lemma {:induction false} FilesAscend(drifts: seq<Drift>)
    requires DriftsAscend(drifts)
    ensures var files := FilesOf(drifts); forall i, j :: 0 <= i < j < |files| ==> StrLt(files[i].path, files[j].path)
  {
    FilesInOrder(drifts);
  }

  lemma {:induction false} FilesInOrder(drifts: seq<Drift>)
    ensures |FilesOf(drifts)| == |drifts|
    ensures forall i :: 0 <= i < |drifts| ==> FilesOf(drifts)[i] == ChangedFile(drifts[i].path, drifts[i].kind)
  {
    if drifts != [] { FilesInOrder(drifts[1..]); }
  }

  lemma DriftsNameChanges(m: Manifest, tree: seq<Fingerprint>)
    requires Loads(m) && IsTree(tree) && !AnyOf(Drifts(m.files, FingerprintTree(tree)), Added)
    ensures NamesChanges(FilesOf(Drifts(m.files, FingerprintTree(tree))), m, tree)
  {
    var drifts := Drifts(m.files, FingerprintTree(tree));
    DriftsExact(m.files, FingerprintTree(tree));
    FilesAscend(drifts);
    hide Drifts, FingerprintTree, FilesOf, Departed, Arrived, Rewritten, Loads, IsTree, AnyOf, DriftAt;
    forall p, kind ensures ChangedFile(p, kind) in FilesOf(drifts) <==> exists d :: d in drifts && d.path == p && d.kind == kind {
      NamedByDrift(drifts, p, kind);
    }
    forall p
      ensures ChangedFile(p, Deleted) in FilesOf(drifts) <==> Departed(m, tree, p)
      ensures ChangedFile(p, Modified) in FilesOf(drifts) <==> Rewritten(m, tree, p)
    {
      DriftsSay(m, tree, p);
    }
    forall c | c in FilesOf(drifts) ensures c.change.Deleted? || c.change.Modified? {
      assert c == ChangedFile(c.path, c.change);
      NoneOf(drifts, Added);
    }
  }

  lemma NamedByDrift(drifts: seq<Drift>, p: string, kind: Kind)
    ensures ChangedFile(p, kind) in FilesOf(drifts) <==> exists d :: d in drifts && d.path == p && d.kind == kind
  {
    FilesOfExact(drifts);
  }

  lemma TreeIsListed(tree: seq<Fingerprint>)
    requires IsTree(tree)
    ensures ListsTree(FingerprintTree(tree), tree)
  {
    SortedTree(tree);
    SortByElements(tree, PathLe);
    var files := FingerprintTree(tree);
    forall i, j | 0 <= i < j < |files| ensures StrLt(files[i].path, files[j].path) { assert PathLt(files[i], files[j]); }
  }

  lemma RecordWritesExact(m: Manifest, tree: seq<Fingerprint>, r: Request)
    requires Loads(m) && IsTree(tree) && RecordChange(m, tree, r).Written?
    ensures Noted(r) && RecordWrites(m, tree, r, RecordChange(m, tree, r).manifest)
  {
    NoteText(r);
    DriftsNameChanges(m, tree);
    TreeIsListed(tree);
    hide Drifts, FingerprintTree, FilesOf, NoteOf, CompleteNote, Noted, NamesChanges, ListsTree, Loads;
  }

  // ---- pruning ----

  lemma PruneAnswersExact(m: Manifest, tree: seq<Fingerprint>, pr: Option<nat>)
    requires Loads(m) && IsTree(tree)
    ensures PruneAnswers(m, tree, PruneDeletions(m, tree, pr))
  {
    var drifts := Drifts(m.files, FingerprintTree(tree));
    AnyKind(m, tree);
    SomeDeleted(drifts);
    hide Drifts, FingerprintTree, Departed, Arrived, DeletedOnly, Loads;
  }

  lemma SomeDeleted(drifts: seq<Drift>)
    ensures DeletedOnly(drifts) != [] <==> AnyOf(drifts, Deleted)
  {
    DeletedOnlyExact(drifts);
    if AnyOf(drifts, Deleted) {
      var i :| 0 <= i < |drifts| && drifts[i].kind == Deleted;
      assert drifts[i] in DeletedOnly(drifts);
    }
    if DeletedOnly(drifts) != [] {
      assert DeletedOnly(drifts)[0] in drifts;
    }
  }

  lemma DeletedFiles(m: Manifest, tree: seq<Fingerprint>)
    requires Loads(m) && IsTree(tree)
    ensures NamesDeparted(FilesOf(DeletedOnly(Drifts(m.files, FingerprintTree(tree)))), m, tree)
  {
    var drifts := Drifts(m.files, FingerprintTree(tree));
    DriftsExact(m.files, FingerprintTree(tree));
    DeletedOnlyExact(drifts);
    FilesAscend(DeletedOnly(drifts));
    FilesOfExact(DeletedOnly(drifts));
    hide Drifts, FingerprintTree, FilesOf, Departed, DeletedOnly;
    forall p { DriftsSay(m, tree, p); }
  }

  lemma DepartedPaths(m: Manifest, tree: seq<Fingerprint>, p: string)
    requires Loads(m) && IsTree(tree)
    ensures p in DriftPaths(DeletedOnly(Drifts(m.files, FingerprintTree(tree)))) <==> Departed(m, tree, p)
  {
    var drifts := Drifts(m.files, FingerprintTree(tree));
    var deleted := DeletedOnly(drifts);
    DeletedOnlyExact(drifts);
    DriftsSay(m, tree, p);
    hide Drifts, FingerprintTree, Departed, DeletedOnly;
    if Departed(m, tree, p) {
      var d :| d in drifts && d.path == p && d.kind.Deleted?;
      assert d in deleted;
    }
    if p in DriftPaths(deleted) {
      var i :| 0 <= i < |deleted| && deleted[i].path == p;
      assert deleted[i] in deleted;
    }
  }

  lemma PruneWritesExact(m: Manifest, tree: seq<Fingerprint>, pr: Option<nat>)
    requires Loads(m) && IsTree(tree) && PruneDeletions(m, tree, pr).Written?
    ensures PruneWrites(m, tree, pr, PruneDeletions(m, tree, pr).manifest)
  {
    KeepsPresent(m, tree);
    DeletedFiles(m, tree);
    hide Drifts, FingerprintTree, FilesOf, DeletedOnly, NamesDeparted, DriftPaths, Without, Loads, AnyOf, Has;
  }

  lemma KeepsPresent(m: Manifest, tree: seq<Fingerprint>)
    requires Loads(m) && IsTree(tree)
    ensures var kept := Without(m.files, DriftPaths(DeletedOnly(Drifts(m.files, FingerprintTree(tree)))));
      && (forall i, j :: 0 <= i < j < |kept| ==> StrLt(kept[i].path, kept[j].path))
      && forall f :: f in kept <==> f in m.files && Has(tree, f.path)
  {
    var gone := DriftPaths(DeletedOnly(Drifts(m.files, FingerprintTree(tree))));
    WithoutExact(m.files, gone);
    hide Drifts, FingerprintTree, DeletedOnly, DriftPaths, Without;
    forall f | f in m.files ensures f.path in gone <==> !Has(tree, f.path) {
      DepartedPaths(m, tree, f.path);
      assert Has(m.files, f.path);
    }
    var kept := Without(m.files, gone);
    forall i, j | 0 <= i < j < |kept| ensures StrLt(kept[i].path, kept[j].path) { assert PathLt(kept[i], kept[j]); }
  }

  // ---- the log over runs ----

  /** The policy in force when the entry at `i` was appended. */
  function PolicyBefore(start: Manifest, now: Manifest, i: nat): Policy
    requires |start.changes| <= i <= |now.changes|
  {
    if i == |start.changes| then start.policy else now.changes[i - 1].policy
  }

  /** Since `start`, deletions without a note were logged under the deletions-only policy, all others under the frozen one. */
  ghost predicate DeletionsByPolicy(start: Manifest, now: Manifest) {
    && start.changes <= now.changes && PolicyBefore(start, now, |now.changes|) == now.policy
    && forall i, c :: |start.changes| <= i < |now.changes| && c in now.changes[i].files && c.change.Deleted? ==>
         (now.changes[i].Deletion? <==> PolicyBefore(start, now, i).DeletionsOnly?)
  }

  lemma PolicyStep(start: Manifest, m: Manifest, after: Manifest)
    requires DeletionsByPolicy(start, m) && |after.changes| == |m.changes| + 1 && m.changes <= after.changes
    requires after.changes[|m.changes|].policy == after.policy
    requires forall c :: c in after.changes[|m.changes|].files && c.change.Deleted? ==>
      (after.changes[|m.changes|].Deletion? <==> m.policy.DeletionsOnly?)
    ensures DeletionsByPolicy(start, after)
  {
    forall i, c | |start.changes| <= i < |after.changes| && c in after.changes[i].files && c.change.Deleted?
      ensures after.changes[i].Deletion? <==> PolicyBefore(start, after, i).DeletionsOnly?
    {
      assert i < |m.changes| ==> after.changes[i] == m.changes[i] && PolicyBefore(start, after, i) == PolicyBefore(start, m, i);
      assert i == |m.changes| ==> PolicyBefore(start, after, i) == m.policy;
    }
  }

  lemma RecordByPolicy(m: Manifest, tree: seq<Fingerprint>, r: Request)
    requires Loads(m) && IsTree(tree) && RecordChange(m, tree, r).Written?
    ensures var after := RecordChange(m, tree, r).manifest;
      && |after.changes| == |m.changes| + 1 && m.changes <= after.changes
      && after.changes[|m.changes|].policy == after.policy && after.changes[|m.changes|].Change?
      && (m.policy.DeletionsOnly? ==> forall c :: c in after.changes[|m.changes|].files ==> !c.change.Deleted?)
  {
    RecordAnswersExact(m, tree, r);
    RecordWritesExact(m, tree, r);
    hide RecordChange, Loads, Departed, Arrived, Rewritten, Noted;
    var after := RecordChange(m, tree, r).manifest;
    forall c | m.policy.DeletionsOnly? && c in after.changes[|m.changes|].files ensures !c.change.Deleted? {
      assert c.change.Deleted? ==> c == ChangedFile(c.path, Deleted);
      assert !Departed(m, tree, c.path);
    }
  }

  /**
   Over any run of edits, records and prunes, a departed file is logged in a deletion entry exactly when the policy in
   force was deletions-only: no record made under that policy sweeps up a deletion, and no other policy loses its note.
   */
  lemma {:induction false} RunKeepsDeletionsApart(s: State, steps: seq<Step>)
    requires Loads(s.manifest) && IsTree(s.tree) && EditsAreTrees(steps)
    ensures DeletionsByPolicy(s.manifest, After(s, steps).manifest)
  {
    if steps != [] {
      var n := |steps| - 1;
      RunKeepsDeletionsApart(s, steps[..n]);
      RunKeepsLedger(s, steps[..n]);
      var t := After(s, steps[..n]);
      StepKeepsApart(s.manifest, t, steps[n]);
    }
  }

  lemma StepKeepsApart(start: Manifest, t: State, step: Step)
    requires Loads(t.manifest) && IsTree(t.tree) && DeletionsByPolicy(start, t.manifest)
    ensures DeletionsByPolicy(start, Next(t, step).manifest)
  {
    hide Loads, DeletionsByPolicy, RecordChange, PruneDeletions;
    match step
    case Edit(_) =>
    case Record(request) =>
      if RecordChange(t.manifest, t.tree, request).Written? {
        RecordByPolicy(t.manifest, t.tree, request);
        PolicyStep(start, t.manifest, Next(t, step).manifest);
      }
    case Prune(pr) =>
      if PruneDeletions(t.manifest, t.tree, pr).Written? {
        PruneAnswersExact(t.manifest, t.tree, pr);
        PruneWritesExact(t.manifest, t.tree, pr);
        PolicyStep(start, t.manifest, Next(t, step).manifest);
      }
  }
}
