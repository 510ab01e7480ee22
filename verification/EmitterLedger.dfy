/** What the change log accounts for over whole runs of the freeze gate. */
module EmitterLedger {
  import opened Orders
  import opened PythonText
  import opened EmitterFreeze

  datatype Step = Edit(tree: seq<Fingerprint>) | Record(request: Request) | Prune(pr: Option<nat>)

  function Next(s: State, step: Step): State {
    match step
    case Edit(tree) => s.(tree := tree)
    case Record(request) => Commit(s, RecordChange(s.manifest, s.tree, request))
    case Prune(pr) => Commit(s, PruneDeletions(s.manifest, s.tree, pr))
  }

  function After(s: State, steps: seq<Step>): State {
    if steps == [] then s else Next(After(s, steps[..|steps| - 1]), steps[|steps| - 1])
  }

  ghost predicate EditsAreTrees(steps: seq<Step>) {
    forall i :: 0 <= i < |steps| && steps[i].Edit? ==> IsTree(steps[i].tree)
  }

  /** The paths all the entries record as deleted, one after the other. */
  function GoneIn(entries: seq<Entry>): seq<string> {
    if entries == [] then [] else GoneIn(entries[..|entries| - 1]) + Gone(entries[|entries| - 1].files)
  }

  ghost predicate NamedModified(entries: seq<Entry>, p: string) {
    exists e :: e in entries && e.Change? && ChangedFile(p, Modified) in e.files && NoteNotBlank(e.note)
  }

  /** Entries appended since `start` account for every path that left and every digest that changed. */
  ghost predicate Ledger(start: Manifest, now: Manifest) {
    && start.changes <= now.changes
    && var logged := now.changes[|start.changes|..];
       && Distinct(GoneIn(logged)) && Elements(GoneIn(logged)) <= Listed(start.files)
       && Listed(now.files) == Listed(start.files) - Elements(GoneIn(logged))
       && forall p :: p in Listed(now.files) && ByPath(now.files)[p].sha != ByPath(start.files)[p].sha ==>
            NamedModified(logged, p)
  }

  lemma GoneInAppend(logged: seq<Entry>, e: Entry)
    ensures GoneIn(logged + [e]) == GoneIn(logged) + Gone(e.files)
  {
    assert (logged + [e])[..|logged|] == logged;
  }

  lemma ModifiedIsNoted(e: Entry, p: string)
    requires EntryOk(e) && ChangedFile(p, Modified) in e.files
    ensures e.Change? && NoteNotBlank(e.note)
  {
  }

  lemma LedgerGrows(start: Manifest, now: Manifest, after: Manifest, e: Entry)
    requires Ledger(start, now) && Accounts(now, after, e)
    ensures Ledger(start, after)
  {
    hide EntryOk, Gone, GoneIn, NamedModified, Distinct, Elements;
    var logged := now.changes[|start.changes|..];
    assert after.changes[|start.changes|..] == logged + [e];
    GoneOnce(logged, e, Listed(start.files), Listed(now.files));
    forall p | p in Listed(after.files) && ByPath(after.files)[p].sha != ByPath(start.files)[p].sha
      ensures NamedModified(logged + [e], p)
    {
      StillNamed(logged, e, p);
    }
  }

  lemma GoneOnce(logged: seq<Entry>, e: Entry, was: set<string>, now: set<string>)
    requires Distinct(GoneIn(logged)) && Elements(GoneIn(logged)) <= was && now == was - Elements(GoneIn(logged))
    requires Distinct(Gone(e.files)) && Elements(Gone(e.files)) <= now
    ensures var gone := GoneIn(logged + [e]);
      Distinct(gone) && Elements(gone) <= was && was - Elements(gone) == now - Elements(Gone(e.files))
  {
    hide Gone, GoneIn, Distinct, Elements;
    GoneInAppend(logged, e);
    DistinctJoin(GoneIn(logged), Gone(e.files));
  }

  lemma StillNamed(logged: seq<Entry>, e: Entry, p: string)
    requires EntryOk(e)
    ensures NamedModified(logged, p) || ChangedFile(p, Modified) in e.files ==> NamedModified(logged + [e], p)
  {
    hide EntryOk, NoteNotBlank;
    if ChangedFile(p, Modified) in e.files {
      ModifiedIsNoted(e, p);
      assert e in logged + [e];
    } else if NamedModified(logged, p) {
      var f :| f in logged && f.Change? && ChangedFile(p, Modified) in f.files && NoteNotBlank(f.note);
      assert f in logged + [e];
    }
  }

  lemma LedgerStarts(m: Manifest)
    ensures Ledger(m, m)
  {
    assert m.changes[|m.changes|..] == [];
  }

  lemma AppendedLoads(m: Manifest, after: Manifest, e: Entry)
    requires Loads(m) && Accounts(m, after, e) && StrictlySorted(after.files)
    ensures Loads(after)
  {
  }

  lemma StepKeepsLedger(start: Manifest, s: State, step: Step)
    requires Loads(s.manifest) && IsTree(s.tree) && Ledger(start, s.manifest)
    requires step.Edit? ==> IsTree(step.tree)
    ensures var t := Next(s, step); Loads(t.manifest) && IsTree(t.tree) && Ledger(start, t.manifest)
  {
    hide Ledger, Accounts, Loads, RecordChange, PruneDeletions, StrictlySorted;
    match step
    case Edit(_) =>
    case Record(request) =>
      var o := RecordChange(s.manifest, s.tree, request);
      if o.Written? {
        RecordAccounts(s.manifest, s.tree, request);
        AccountedWrite(start, s.manifest, o.manifest);
      }
    case Prune(pr) =>
      var o := PruneDeletions(s.manifest, s.tree, pr);
      if o.Written? {
        PruneAccounts(s.manifest, s.tree, pr);
        AccountedWrite(start, s.manifest, o.manifest);
      }
  }

  lemma AccountedWrite(start: Manifest, m: Manifest, after: Manifest)
    requires Loads(m) && Ledger(start, m) && |after.changes| > |m.changes|
    requires Accounts(m, after, after.changes[|m.changes|]) && StrictlySorted(after.files)
    ensures Loads(after) && Ledger(start, after)
  {
    AppendedLoads(m, after, after.changes[|m.changes|]);
    LedgerGrows(start, m, after, after.changes[|m.changes|]);
  }

  /**
   Over any run of tree edits, records, prunes and policy flips the manifest still loads, the change log only grows, the
   listed paths are the initial ones without the paths logged as deleted, no path is logged as deleted twice, and every
   digest that differs from the initial one is named in an entry with a complete note.
   */
  lemma {:induction false} RunKeepsLedger(s: State, steps: seq<Step>)
    requires Loads(s.manifest) && IsTree(s.tree) && EditsAreTrees(steps)
    ensures var t := After(s, steps); Loads(t.manifest) && IsTree(t.tree) && Ledger(s.manifest, t.manifest)
  {
    hide Ledger, Loads, Next;
    if steps == [] {
      LedgerStarts(s.manifest);
    } else {
      var n := |steps| - 1;
      RunKeepsLedger(s, steps[..n]);
      StepKeepsLedger(s.manifest, After(s, steps[..n]), steps[n]);
    }
  }

  // ---- line counts ----

  /** Line counts are not part of the comparison: recording a policy flip rewrites them without naming a file. */
  lemma LineCountsAreNotCompared(path: string, sha: string, lines: nat, counted: nat, r: Request)
    requires CompleteNote(NoteOf(r)) && r.policy == Some(DeletionsOnly)
    ensures var m := Manifest(Frozen, [Fingerprint(path, sha, lines)], []);
      RecordChange(m, [Fingerprint(path, sha, counted)], r)
      == Written(Manifest(DeletionsOnly, [Fingerprint(path, sha, counted)], [Change(r.pr, DeletionsOnly, [], NoteOf(r))]))
  {
    var m := Manifest(Frozen, [Fingerprint(path, sha, lines)], []);
    var tree := [Fingerprint(path, sha, counted)];
    OneFile(m.files[0]);
    OneFile(tree[0]);
    hide Drifts, FingerprintTree, CompleteNote, NoteOf, ByPath;
    CheckPassesIff(m, tree);
  }

  lemma OneFile(f: Fingerprint)
    ensures FingerprintTree([f]) == [f] && ByPath([f]) == map[f.path := f] && IsTree([f])
  {
    assert [f][1..] == [] && SortBy([f][1..], PathLe) == [] && [f][..0] == [];
  }

  /**
   A record changes a listed fingerprint without naming the file as modified exactly when the digests agree and the line
   counts differ.
   */
  lemma UnnamedChangeIff(m: Manifest, tree: seq<Fingerprint>, r: Request, p: string)
    requires Loads(m) && IsTree(tree) && RecordChange(m, tree, r).Written?
    requires p in Listed(RecordChange(m, tree, r).manifest.files)
    ensures p in Listed(m.files) && |RecordChange(m, tree, r).manifest.changes| == |m.changes| + 1
    ensures var after := RecordChange(m, tree, r).manifest;
      var was, now := ByPath(m.files)[p], ByPath(after.files)[p];
      now != was && ChangedFile(p, Modified) !in after.changes[|m.changes|].files
      <==> now.sha == was.sha && now.lines != was.lines
  {
    RecordAccounts(m, tree, r);
    hide RecordChange, Loads;
    ByPathFinds(m.files);
    ByPathFinds(RecordChange(m, tree, r).manifest.files);
  }

  /** The line count is the one of the content with that digest, as it is when both are taken from the same bytes. */
  ghost predicate Genuine(files: seq<Fingerprint>, count: string -> nat) {
    forall f :: f in files ==> f.lines == count(f.sha)
  }

  ghost predicate GenuineTrees(s: State, steps: seq<Step>, count: string -> nat) {
    && IsTree(s.tree) && Genuine(s.tree, count)
    && forall i :: 0 <= i < |steps| && steps[i].Edit? ==> IsTree(steps[i].tree) && Genuine(steps[i].tree, count)
  }

  /** Every listed fingerprint that differs from the initial one, in its digest or its line count, is named. */
  ghost predicate ChangesNamed(start: Manifest, now: Manifest) {
    && start.changes <= now.changes
    && forall p :: p in Listed(now.files) ==>
         && p in Listed(start.files)
         && (ByPath(now.files)[p] != ByPath(start.files)[p] ==> NamedModified(now.changes[|start.changes|..], p))
  }

  lemma GenuineStep(s: State, step: Step, count: string -> nat)
    requires Genuine(s.manifest.files, count) && Genuine(s.tree, count)
    requires step.Edit? ==> Genuine(step.tree, count)
    ensures Genuine(Next(s, step).manifest.files, count) && Genuine(Next(s, step).tree, count)
  {
    hide Drifts, CompleteNote, NoteOf;
    SortByElements(s.tree, PathLe);
    if step.Prune? {
      WithoutKeeps(s.manifest.files, DriftPaths(DeletedOnly(Drifts(s.manifest.files, FingerprintTree(s.tree)))));
    }
  }

  lemma {:induction false} WithoutKeeps(files: seq<Fingerprint>, gone: set<string>)
    ensures forall f :: f in Without(files, gone) ==> f in files
  {
    if files != [] { WithoutKeeps(files[1..], gone); }
  }

  lemma {:induction false} GenuineRun(s: State, steps: seq<Step>, count: string -> nat)
    requires Genuine(s.manifest.files, count) && GenuineTrees(s, steps, count)
    ensures Genuine(After(s, steps).manifest.files, count) && Genuine(After(s, steps).tree, count)
  {
    hide Genuine, Next;
    if steps != [] {
      var n := |steps| - 1;
      GenuineRun(s, steps[..n], count);
      GenuineStep(After(s, steps[..n]), steps[n], count);
    }
  }

  /** With genuine line counts the digests tell every change, so the ledger names every changed fingerprint. */
  lemma GenuineChangesNamed(s: State, steps: seq<Step>, count: string -> nat)
    requires Loads(s.manifest) && GenuineTrees(s, steps, count) && Genuine(s.manifest.files, count)
    ensures ChangesNamed(s.manifest, After(s, steps).manifest)
  {
    RunKeepsLedger(s, steps);
    GenuineRun(s, steps, count);
    hide After, Loads, NamedModified, GenuineTrees, ByPath;
    ByPathFinds(s.manifest.files);
    ByPathFinds(After(s, steps).manifest.files);
  }

  /** The same files with genuine line counts. */
  function Corrected(files: seq<Fingerprint>, count: string -> nat): (r: seq<Fingerprint>)
    ensures |r| == |files| && forall i :: 0 <= i < |r| ==> r[i] == files[i].(lines := count(files[i].sha))
  {
    seq(|files|, i requires 0 <= i < |files| => files[i].(lines := count(files[i].sha)))
  }

  lemma {:induction false} CorrectedByPath(files: seq<Fingerprint>, count: string -> nat)
    ensures Listed(Corrected(files, count)) == Listed(files)
    ensures forall p :: p in Listed(files) ==>
      ByPath(Corrected(files, count))[p] == ByPath(files)[p].(lines := count(ByPath(files)[p].sha))
  {
    if files != [] {
      var n := |files| - 1;
      CorrectedByPath(files[..n], count);
      assert Corrected(files, count)[..n] == Corrected(files[..n], count);
    }
  }

  /** Recording a policy flip over the corrected tree changes every wrong line count and names no file. */
  lemma FlipCorrectsUnnamed(m: Manifest, count: string -> nat, r: Request)
    requires Loads(m) && CompleteNote(NoteOf(r)) && r.policy.Some? && r.policy.value != m.policy
    ensures var tree := Corrected(m.files, count);
      && IsTree(tree) && Genuine(tree, count)
      && RecordChange(m, tree, r)
         == Written(Manifest(r.policy.value, FingerprintTree(tree), m.changes + [Change(r.pr, r.policy.value, [], NoteOf(r))]))
      && ByPath(FingerprintTree(tree)) == ByPath(tree)
  {
    hide Drifts, FingerprintTree, CompleteNote, NoteOf, ByPath;
    var tree := Corrected(m.files, count);
    CorrectedIsTree(m, count);
    SortedTree(tree);
    CorrectedByPath(m.files, count);
    CheckPassesIff(m, tree);
  }

  lemma CorrectedIsTree(m: Manifest, count: string -> nat)
    requires Loads(m)
    ensures IsTree(Corrected(m.files, count)) && Genuine(Corrected(m.files, count), count)
  {
    StrictIsTree(m.files);
  }

  /** A request with a complete note that asks for a policy. */
  lemma CompleteRequest(policy: Policy) returns (r: Request)
    ensures CompleteNote(NoteOf(r)) && r.policy == Some(policy)
  {
    r := Request(Some("x"), Some("x"), Some("x"), Some("x"), Some(policy), None);
    StripFinds("", "x", "");
    assert "" + "x" + "" == "x";
  }

  /**
   Every run over genuine trees names every fingerprint change exactly when the line counts of the manifest it starts
   from are genuine.
   */
  lemma ChangesNamedIff(m: Manifest, count: string -> nat)
    requires Loads(m)
    ensures (forall tree, steps :: GenuineTrees(State(m, tree), steps, count) ==>
              ChangesNamed(m, After(State(m, tree), steps).manifest))
      <==> Genuine(m.files, count)
  {
    hide After, GenuineTrees, ChangesNamed, Genuine, Loads, CompleteNote, NoteOf;
    if Genuine(m.files, count) {
      forall tree, steps | GenuineTrees(State(m, tree), steps, count)
        ensures ChangesNamed(m, After(State(m, tree), steps).manifest)
      {
        GenuineChangesNamed(State(m, tree), steps, count);
      }
    } else {
      var r := CompleteRequest(if m.policy.Frozen? then DeletionsOnly else Frozen);
      WrongCountEscapes(m, count, r);
    }
  }

  lemma WrongCountEscapes(m: Manifest, count: string -> nat, r: Request)
    requires Loads(m) && !Genuine(m.files, count)
    requires CompleteNote(NoteOf(r)) && r.policy.Some? && r.policy.value != m.policy
    ensures var s, steps := State(m, Corrected(m.files, count)), [Record(r)];
      GenuineTrees(s, steps, count) && !ChangesNamed(m, After(s, steps).manifest)
  {
    hide After, RecordChange, Loads, CompleteNote, NoteOf, FingerprintTree, ByPath, Genuine, NamedModified;
    var s := State(m, Corrected(m.files, count));
    FlipCorrectsUnnamed(m, count, r);
    OneStep(s, Record(r));
    var now := Next(s, Record(r)).manifest;
    var p := WrongCount(m, count);
    FlipLogsNothing(m, now, r, p);
  }

  lemma OneStep(s: State, step: Step)
    ensures After(s, [step]) == Next(s, step)
  {
    assert [step][..0] == [];
  }

  lemma WrongCount(m: Manifest, count: string -> nat) returns (p: string)
    requires Loads(m) && !Genuine(m.files, count)
    ensures p in Listed(m.files) && p in Listed(Corrected(m.files, count))
    ensures ByPath(Corrected(m.files, count))[p] != ByPath(m.files)[p]
  {
    var f :| f in m.files && f.lines != count(f.sha);
    StrictIsTree(m.files);
    ByPathExact(m.files, f);
    CorrectedByPath(m.files, count);
    p := f.path;
  }

  lemma FlipLogsNothing(m: Manifest, now: Manifest, r: Request, p: string)
    requires now.changes == m.changes + [Change(r.pr, now.policy, [], NoteOf(r))]
    ensures m.changes <= now.changes && !NamedModified(now.changes[|m.changes|..], p)
  {
    assert now.changes[|m.changes|..] == [Change(r.pr, now.policy, [], NoteOf(r))];
  }
}
