/** The source graph walked by plain recursion, the last import first. */
module ModuleWalk {
  import opened Orders
  import opened TopologicalSort

  /** What reading, parsing and resolving one spelled path yields; a self-import is a failure. */
  datatype FileResult = Parsed(imports: seq<string>) | Failed(error: string)

  datatype Result = Collected(modules: seq<Module>, edges: map<string, set<string>>) | Error(path: string, error: string)

  /** A path that is not on disk keeps its spelling and fails when it is read. */
  function Read(files: map<string, FileResult>, path: string): FileResult {
    if path in files then files[path] else Failed("unreadable")
  }

  function ImportKeys(imports: seq<string>, key: string -> string): set<string> {
    set i | 0 <= i < |imports| :: key(imports[i])
  }

  /** The identities not collected yet. */
  function Left(files: map<string, FileResult>, key: string -> string, before: Result): set<string> {
    if before.Error? then {} else (set p | p in files :: key(p)) - before.edges.Keys
  }

  /** A file whose identity is new is collected with its edges before its imports are walked; a failure ends the walk. */
  function Visit(files: map<string, FileResult>, key: string -> string, path: string, before: Result): (r: Result)
    ensures before.Error? ==> r == before
    ensures before.Collected? && r.Collected? ==> before.edges.Keys <= r.edges.Keys
    ensures Left(files, key, r) <= Left(files, key, before)
    decreases Left(files, key, before), 0, 0
  {
    if before.Error? || key(path) in before.edges then before
    else
      match Read(files, path)
      case Failed(e) => Error(path, e)
      case Parsed(imports) =>
        var next := Added(key, path, imports, before);
        assert key(path) in Left(files, key, before) && key(path) !in Left(files, key, next);
        VisitAll(files, key, imports, next)
  }

  function Added(key: string -> string, path: string, imports: seq<string>, before: Result): (r: Result)
    requires before.Collected?
    ensures r.Collected?
  {
    Collected(before.modules + [Module(key(path), path)], before.edges[key(path) := ImportKeys(imports, key)])
  }

  /** The last path first. */
  function VisitAll(files: map<string, FileResult>, key: string -> string, paths: seq<string>, before: Result): (r: Result)
    ensures before.Error? ==> r == before
    ensures before.Collected? && r.Collected? ==> before.edges.Keys <= r.edges.Keys
    ensures Left(files, key, r) <= Left(files, key, before)
    decreases Left(files, key, before), 1, |paths|
  {
    if paths == [] then before
    else VisitAll(files, key, paths[..|paths| - 1], Visit(files, key, paths[|paths| - 1], before))
  }

  lemma {:induction false} WalkConcat(files: map<string, FileResult>, key: string -> string, a: seq<string>, b: seq<string>,
                                      before: Result)
    ensures VisitAll(files, key, a + b, before) == VisitAll(files, key, a, VisitAll(files, key, b, before))
    decreases |b|
  {
    if b == [] {
      assert a + b == a;
    } else {
      var n := |b| - 1;
      assert (a + b)[..|a + b| - 1] == a + b[..n] && (a + b)[|a + b| - 1] == b[n];
      WalkConcat(files, key, a, b[..n], Visit(files, key, b[n], before));
    }
  }

  /** The paths whose identity is not among those given. */
  function Fresh(paths: seq<string>, key: string -> string, seen: set<string>): seq<string> {
    if paths == [] then []
    else
      var n := |paths| - 1;
      Fresh(paths[..n], key, seen) + if key(paths[n]) in seen then [] else [paths[n]]
  }

  /** Leaving out paths whose identity is collected already changes nothing. */
  lemma {:induction false} FreshSuffices(files: map<string, FileResult>, key: string -> string, paths: seq<string>,
                                         seen: set<string>, before: Result)
    requires before.Collected? ==> seen <= before.edges.Keys
    ensures VisitAll(files, key, Fresh(paths, key, seen), before) == VisitAll(files, key, paths, before)
    decreases |paths|
  {
    if paths != [] {
      var n := |paths| - 1;
      var first := Fresh(paths[..n], key, seen);
      if key(paths[n]) in seen {
        FreshSuffices(files, key, paths[..n], seen, before);
        assert first + [] == first;
      } else {
        var next := Visit(files, key, paths[n], before);
        FreshSuffices(files, key, paths[..n], seen, next);
        assert (first + [paths[n]])[..|first|] == first;
      }
    }
  }

  /** One path off the stack: it is skipped, ends the walk, or puts its fresh imports in its place. */
  lemma WalkStep(files: map<string, FileResult>, key: string -> string, stack: seq<string>, before: Result)
    requires stack != [] && before.Collected?
    ensures var rest, file := stack[..|stack| - 1], stack[|stack| - 1];
      VisitAll(files, key, stack, before) ==
        if key(file) in before.edges then VisitAll(files, key, rest, before)
        else match Read(files, file)
          case Failed(e) => Error(file, e)
          case Parsed(imports) =>
            VisitAll(files, key, rest + Fresh(imports, key, before.edges.Keys + {key(file)}),
                     Added(key, file, imports, before))
  {
    var rest, file := stack[..|stack| - 1], stack[|stack| - 1];
    if key(file) !in before.edges {
      match Read(files, file)
      case Failed(e) =>
      case Parsed(imports) =>
        var next, some := Added(key, file, imports, before), Fresh(imports, key, before.edges.Keys + {key(file)});
        FreshSuffices(files, key, imports, before.edges.Keys + {key(file)}, next);
        WalkConcat(files, key, rest, some, next);
    }
  }
}
