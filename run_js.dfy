/**
 * run.js, the JavaScript task runner: it lists or calls the exports of
 * `./Runfile.js`, a task name starting with `.` is taken from run.js's own
 * exports instead, and its exported `complete` prints the export names that
 * start with the word being completed.  Importing a module is the given
 * `Option<ModuleNamespace>`: `None` when the file does not exist.
 */
module RunJs {
  import opened Wrappers
  import opened Text
  import opened Namespaces

  /** JavaScript's `a < b` on strings: code-unit order, a proper prefix first. */
  predicate Precedes(a: string, b: string) {
    if a == [] then b != []
    else if b == [] then false
    else if a[0] != b[0] then a[0] < b[0]
    else Precedes(a[1..], b[1..])
  }

  /** Every name comes before every later one. */
  predicate Ascending(names: seq<string>) {
    forall i, j :: 0 <= i < j < |names| ==> Precedes(names[i], names[j])
  }

  /**
   * A module namespace object: `Object.keys` gives its export names in
   * ascending code-unit order, whatever order the source declares them in.
   */
  type ModuleNamespace = ns: Namespace | Ascending(Names(ns)) witness []

  /** Which file a task is looked up in. */
  datatype Script = RunfileScript | SelfScript

  /** What one run of `main` does. */
  datatype Outcome =
    | Printed(lines: seq<string>)                              // console.log, one per line
    | Created(message: string)                                 // template written, message printed
    | Called(script: Script, task: string, args: seq<string>)  // `await fn(...args)`
    | Failed(error: Exception)                                 // rejected, printed by console.error
    | Unhandled(error: Exception)                              // resolved, but a promise it did not await rejects

  const RunfilePath := "./Runfile.js"

  /** run.js's own exports; `main`, `runTask` and the rest are not exported. */
  const SelfExports: ModuleNamespace := [Symbol("complete", Callable), Symbol("install", Callable)]

  /** The filter `fn => fn.startsWith(prefix)`. */
  function HasPrefix(prefix: string): Symbol -> bool {
    (s: Symbol) => StartsWith(s.name, prefix)
  }

  /** Every name the prefix filter keeps starts with the prefix. */
  lemma SelectedHavePrefix(exports: ModuleNamespace, prefix: string)
    ensures forall i :: 0 <= i < |Select(exports, HasPrefix(prefix))|
              ==> StartsWith(Select(exports, HasPrefix(prefix))[i], prefix)
  {
    var names := Select(exports, HasPrefix(prefix));
    forall i | 0 <= i < |names| ensures StartsWith(names[i], prefix) {
      SelectMembers(exports, HasPrefix(prefix), names[i]);
      var s :| s in exports && s.name == names[i] && HasPrefix(prefix)(s);
    }
  }

  /** `printFunctions`: the export names starting with `prefix`, in key order. */
  function PrintFunctions(exports: ModuleNamespace, prefix: string): (lines: seq<string>)
    ensures |lines| <= |exports|
    ensures forall i :: 0 <= i < |lines| ==> StartsWith(lines[i], prefix) && lines[i] in Names(exports)
  {
    SelectedHavePrefix(exports, prefix);
    Select(exports, HasPrefix(prefix))
  }

  /** `listFunctions`: import the file, then `printFunctions`. */
  function ListFunctions(exports: Option<ModuleNamespace>, prefix: string): (o: Outcome)
    ensures o.Printed? || o == Failed(FileNotFound(RunfilePath))
  {
    match exports
    case None => Failed(FileNotFound(RunfilePath))
    case Some(m) => Printed(PrintFunctions(m, prefix))
  }

  /** `String.prototype.slice(0, end)`: where the cut falls in a string of length `len`. */
  function SliceEnd(len: nat, end: Option<int>): (e: nat)
    ensures e <= len
  {
    match end
    case None => len
    case Some(p) => if p < 0 then (if len + p < 0 then 0 else len + p) else if p < len then p else len
  }

  /** The word being completed: what follows the last space of the text before the cursor. */
  function CompletionPrefix(line: string, point: Option<int>): (prefix: string)
    ensures ' ' !in prefix
  {
    var words := Split(line[..SliceEnd(|line|, point)], ' ');
    Last(words)
  }

  /**
   * `complete`, on the environment variables `COMP_LINE` and `COMP_POINT`
   * (the latter already converted to an integer; `None` when unset) and
   * the imported Runfile.  `complete` calls `listFunctions` without awaiting
   * it, so a Runfile that cannot be imported does not reject `complete`: the
   * rejection is left unhandled instead of reaching `main`'s `catch`.
   */
  function Complete(compLine: Option<string>, compPoint: Option<int>,
                    runfile: Option<ModuleNamespace>): (o: Outcome)
    ensures o.Failed? <==> compLine.None?
    ensures o.Failed? ==> o.error == TypeError
    ensures compLine.Some? && runfile.None? ==> o == Unhandled(FileNotFound(RunfilePath))
    ensures o.Printed? ==> runfile.Some? && forall i :: 0 <= i < |o.lines| ==> o.lines[i] in Names(runfile.value)
  {
    match compLine
    case None => Failed(TypeError)   // `slice` of undefined
    case Some(line) =>
      match ListFunctions(runfile, CompletionPrefix(line, compPoint))
      case Failed(e) => Unhandled(e)
      case o => o
  }

  /** `runTask`: call the export, or print every export name when it is missing or falsy. */
  function RunTask(script: Script, exports: Option<ModuleNamespace>, name: string, args: seq<string>): (o: Outcome)
    ensures o.Called? ==> o == Called(script, name, args)
    ensures o.Called? <==> exports.Some? && Lookup(exports.value, name) == Some(Callable)
    ensures o == Failed(FileNotFound(RunfilePath)) <==> exports.None?
    ensures o == Failed(TypeError) <==> exports.Some? && Lookup(exports.value, name) == Some(OtherValue)
    ensures o.Printed? <==> exports.Some? && Lookup(exports.value, name) in {None, Some(NoneValue), Some(FalsyValue)}
    ensures o.Printed? ==> o.lines == PrintFunctions(exports.value, "")
  {
    match exports
    case None => Failed(FileNotFound(RunfilePath))
    case Some(m) =>
      match Lookup(m, name)
      case None => Printed(PrintFunctions(m, ""))
      case Some(kind) =>
        match kind
        case NoneValue | FalsyValue => Printed(PrintFunctions(m, ""))
        case Callable => Called(script, name, args)
        case OtherValue => Failed(TypeError)   // a truthy export that is not a function
  }

  /** The task name `main` reads: `process.argv[2]`, with `undefined` read as the falsy "". */
  function TaskName(argv: seq<string>): string {
    if |argv| > 2 then argv[2] else ""
  }

  function TaskArgs(argv: seq<string>): seq<string> {
    if |argv| > 3 then argv[3..] else []
  }

  /** `main` on `process.argv` and the imported `./Runfile.js`. */
  function RunMain(argv: seq<string>, runfile: Option<ModuleNamespace>): (o: Outcome)
    ensures o.Called? ==> o.args == TaskArgs(argv)
    ensures o.Called? ==> TaskName(argv) != "" && (o.script == SelfScript <==> TaskName(argv)[0] == '.')
    ensures o.Called? && o.script == SelfScript ==> o.task == TaskName(argv)[1..] && o.task in Names(SelfExports)
    ensures o.Created? ==> TaskName(argv) == "" && runfile.None?
  {
    var name, args := TaskName(argv), TaskArgs(argv);
    if name == "" then
      if runfile.Some? then ListFunctions(runfile, "") else Created(RunfilePath + " created!")
    else if name[0] == '.' then RunTask(SelfScript, Some(SelfExports), name[1..], args)
    else RunTask(RunfileScript, runfile, name, args)
  }

  lemma {:induction false} PrecedesIrreflexive(a: string)
    ensures !Precedes(a, a)
  {
    if a != [] {
      PrecedesIrreflexive(a[1..]);
    }
  }

  /** Export names are distinct. */
  lemma ExportsDistinct(exports: ModuleNamespace)
    ensures Distinct(exports)
  {
    forall i, j | 0 <= i < j < |exports|
      ensures exports[i].name != exports[j].name
    {
      assert Precedes(Names(exports)[i], Names(exports)[j]);
      PrecedesIrreflexive(exports[i].name);
    }
  }

  /**
   * `printFunctions` prints exactly the export names that start with the
   * prefix, in key order, so in ascending order.
   */
  lemma PrintFunctionsExact(exports: ModuleNamespace, prefix: string, name: string)
    ensures name in PrintFunctions(exports, prefix) <==> name in Names(exports) && StartsWith(name, prefix)
    ensures IsSubsequence(PrintFunctions(exports, prefix), Names(exports))
    ensures Ascending(PrintFunctions(exports, prefix))
  {
    var keep := HasPrefix(prefix);
    SelectMembers(exports, keep, name);
    SelectInOrder(exports, keep);
    SelectAscending(exports, keep);
    if name in Names(exports) {
      var k :| 0 <= k < |exports| && Names(exports)[k] == name;
      assert exports[k] in exports;
    }
  }

  /** The default prefix `''` prints every export. */
  lemma EmptyPrefixPrintsAll(exports: ModuleNamespace)
    ensures PrintFunctions(exports, "") == Names(exports)
  {
    SelectEverything(exports, HasPrefix(""));
  }

  /** Selecting from an ascending namespace keeps the names ascending. */
  lemma {:induction false} SelectAscending(ns: Namespace, keep: Symbol -> bool)
    requires Ascending(Names(ns))
    ensures Ascending(Select(ns, keep))
  {
    if ns != [] {
      var n := |ns| - 1;
      var init := ns[..n];
      assert Names(init) == Names(ns)[..n];
      SelectAscending(init, keep);
      if keep(ns[n]) {
        assert ns == init + [ns[n]];
        SelectedPrecedeLast(init, ns[n], keep);
        AscendingSnoc(Select(init, keep), ns[n].name);
      }
    }
  }

  /** Every name selected before the last symbol comes before that symbol's name. */
  lemma SelectedPrecedeLast(init: Namespace, last: Symbol, keep: Symbol -> bool)
    requires Ascending(Names(init + [last]))
    ensures forall i :: 0 <= i < |Select(init, keep)| ==> Precedes(Select(init, keep)[i], last.name)
  {
    var ns := init + [last];
    forall i | 0 <= i < |Select(init, keep)|
      ensures Precedes(Select(init, keep)[i], last.name)
    {
      var x := Select(init, keep)[i];
      SelectMembers(init, keep, x);
      var s :| s in init && s.name == x && keep(s);
      var k :| 0 <= k < |init| && init[k] == s;
      assert Names(ns)[k] == x && Names(ns)[|init|] == last.name;
    }
  }

  lemma AscendingSnoc(names: seq<string>, x: string)
    requires Ascending(names) && forall i :: 0 <= i < |names| ==> Precedes(names[i], x)
    ensures Ascending(names + [x])
  {
    var all := names + [x];
    forall i, j | 0 <= i < j < |all|
      ensures Precedes(all[i], all[j])
    {
      assert all[i] == names[i];
      if j < |names| {
        assert all[j] == names[j];
      }
    }
  }

  /** `complete` reads only the text before `COMP_POINT`; without `COMP_POINT`, the whole line. */
  lemma CompleteUsesTextBeforeCursor(line: string, point: nat, runfile: Option<ModuleNamespace>)
    requires point <= |line|
    ensures Complete(Some(line), Some(point), runfile) == Complete(Some(line[..point]), None, runfile)
  {
    assert line[..point][..point] == line[..point];
  }

  /** The completed word is what follows the last space before the cursor. */
  lemma CompletesLastWord(before: string, word: string, runfile: ModuleNamespace)
    requires ' ' !in word
    ensures Complete(Some(before + " " + word), None, Some(runfile)) == Printed(PrintFunctions(runfile, word))
  {
    var line := before + " " + word;
    assert line[..|line|] == before + [' '] + word;
    LastPiece(before, word, ' ');
  }

  /** A line without spaces is completed as a whole. */
  lemma CompletesSingleWord(word: string, runfile: ModuleNamespace)
    requires ' ' !in word
    ensures Complete(Some(word), None, Some(runfile)) == Printed(PrintFunctions(runfile, word))
  {
    assert word[..|word|] == word;
    SplitWithoutSeparator(word, ' ');
  }

  /** A cursor just after a space completes the empty word: every export is printed. */
  lemma CompleteAfterSpace(line: string, point: nat, runfile: ModuleNamespace)
    requires 0 < point <= |line| && line[point - 1] == ' '
    ensures Complete(Some(line), Some(point), Some(runfile)) == Printed(Names(runfile))
  {
    var before := line[..point - 1];
    assert line[..point] == before + [' '] + "";
    LastPiece(before, "", ' ');
    EmptyPrefixPrintsAll(runfile);
  }

  /** A negative `COMP_POINT` counts back from the end of the line, as `slice` does. */
  lemma CompleteNegativePoint(line: string, back: nat, runfile: Option<ModuleNamespace>)
    requires 0 < back <= |line|
    ensures Complete(Some(line), Some(-(back as int)), runfile) == Complete(Some(line[..|line| - back]), None, runfile)
  {
    var cut := line[..|line| - back];
    assert cut[..|cut|] == cut;
  }

  /** With no task name, `./Runfile.js` is listed in full when it exists and created otherwise. */
  lemma NoNameListsOrCreates(argv: seq<string>, runfile: Option<ModuleNamespace>)
    requires |argv| <= 2 || argv[2] == ""
    ensures runfile.Some? ==> RunMain(argv, runfile) == Printed(Names(runfile.value))
    ensures runfile.None? ==> RunMain(argv, runfile) == Created("./Runfile.js created!")
  {
    if runfile.Some? {
      EmptyPrefixPrintsAll(runfile.value);
    }
  }

  /**
   * A name starting with `.` loses exactly that first character and is looked
   * up in run.js's own exports; `./Runfile.js` plays no part.
   */
  lemma DotNameRunsSelf(argv: seq<string>, r1: Option<ModuleNamespace>, r2: Option<ModuleNamespace>)
    requires |argv| > 2 && argv[2] != [] && argv[2][0] == '.'
    ensures RunMain(argv, r1) == RunTask(SelfScript, Some(SelfExports), argv[2][1..], TaskArgs(argv))
    ensures RunMain(argv, r1) == RunMain(argv, r2)
  {
  }

  /** The shell completion hook `run.js .complete` reaches the exported `complete`. */
  lemma CompletionHookCallsComplete(rest: seq<string>, runfile: Option<ModuleNamespace>)
    ensures RunMain(["bun", "run.js", ".complete"] + rest, runfile) == Called(SelfScript, "complete", rest)
  {
    var argv := ["bun", "run.js", ".complete"] + rest;
    assert argv[2] == ".complete" && argv[2][1..] == "complete";
    assert |argv| > 3 ==> argv[3..] == rest;
    ExportsDistinct(SelfExports);
    LookupDistinct(SelfExports, Symbol("complete", Callable));
  }

  /** Functions run.js does not export cannot be reached: `run.js .main` only lists the exports. */
  lemma SelfUnexportedListsExports(runfile: Option<ModuleNamespace>)
    ensures RunMain(["bun", "run.js", ".main"], runfile) == Printed(["complete", "install"])
  {
    var argv := ["bun", "run.js", ".main"];
    assert argv[2] == ".main" && argv[2][1..] == "main";
    assert "main" !in Names(SelfExports);
    EmptyPrefixPrintsAll(SelfExports);
  }

  /**
   * A Runfile export that is a function is called with the trailing
   * arguments unchanged and in order: no flag classification.
   */
  lemma RunfileTaskCalled(argv: seq<string>, exports: ModuleNamespace)
    requires |argv| > 2 && argv[2] != [] && argv[2][0] != '.'
    requires Symbol(argv[2], Callable) in exports
    ensures RunMain(argv, Some(exports)) == Called(RunfileScript, argv[2], TaskArgs(argv))
  {
    ExportsDistinct(exports);
    LookupDistinct(exports, Symbol(argv[2], Callable));
  }

  /** A missing or falsy export prints every export name and raises nothing. */
  lemma MissingTaskListsAll(argv: seq<string>, exports: ModuleNamespace)
    requires |argv| > 2 && argv[2] != [] && argv[2][0] != '.'
    requires Lookup(exports, argv[2]) in {None, Some(NoneValue), Some(FalsyValue)}
    ensures RunMain(argv, Some(exports)) == Printed(Names(exports))
  {
    EmptyPrefixPrintsAll(exports);
  }

  /**
   * A truthy export that is not a function is called anyway: the call throws
   * TypeError, `main` rejects and its `catch` prints the error.
   */
  lemma NonFunctionExportRaises(argv: seq<string>, exports: ModuleNamespace)
    requires |argv| > 2 && argv[2] != [] && argv[2][0] != '.'
    requires Lookup(exports, argv[2]) == Some(OtherValue)
    ensures RunMain(argv, Some(exports)) == Failed(TypeError)
  {
  }

  /** A task name without a Runfile makes the import, and so `main`, reject. */
  lemma MissingRunfileRejects(argv: seq<string>)
    requires |argv| > 2 && argv[2] != [] && argv[2][0] != '.'
    ensures RunMain(argv, None) == Failed(FileNotFound(RunfilePath))
  {
  }
}
