/**
 * run.py, the Python task runner: with no task name it lists the callables
 * of `./Runfile.py` (or writes a template Runfile when there is none); with a
 * name it calls that task, taken from the Runfile or, when `LOCAL=1`, from
 * run.py's own globals.  Loading the Runfile is the given `Option<Namespace>`:
 * `None` when the file does not exist.
 */
module RunPy {
  import opened Wrappers
  import opened Text
  import opened Namespaces

  /** Where a task is looked up. */
  datatype Target = Local | Runfile

  /** What one run of `main` does. */
  datatype Outcome =
    | Printed(lines: seq<string>)                                // printed, one per line
    | Generated(message: string)                                 // template written, message printed
    | Called(target: Target, task: string, args: seq<string>)   // `func(*args)`, result dropped
    | NothingDone
    | Raised(error: Exception)

  const RunfileName := "Runfile.py"
  const CreatedMessage := "Runfile.py created!"

  predicate IsCallable(s: Symbol) {
    s.kind == Callable
  }

  /** `get_functions`: the names of the Runfile's callables, in namespace order. */
  function GetFunctions(tasks: Namespace): (names: seq<string>)
    ensures |names| <= |tasks|
  {
    Select(tasks, IsCallable)
  }

  /** `list_or_generate_script`. */
  function ListOrGenerate(runfile: Option<Namespace>): (o: Outcome)
    ensures o.Printed? <==> runfile.Some?
    ensures o.Generated? <==> runfile.None?
  {
    match runfile
    case Some(tasks) => Printed(GetFunctions(tasks))
    case None => Generated(CreatedMessage)
  }

  /** `run_local_task`: `globals().get(fn)`, called unless it is None. */
  function RunLocalTask(globals: Namespace, fn: string, args: seq<string>): (o: Outcome)
    ensures o.Called? ==> o == Called(Local, fn, args) && Symbol(fn, Callable) in globals
    ensures o.Called? <==> Lookup(globals, fn) == Some(Callable)
    ensures o.NothingDone? <==> Lookup(globals, fn) in {None, Some(NoneValue)}
    ensures o == Raised(TypeError) <==> Lookup(globals, fn) in {Some(FalsyValue), Some(OtherValue)}
    ensures o.Called? || o.NothingDone? || o == Raised(TypeError)
  {
    match Lookup(globals, fn)
    case None => NothingDone
    case Some(kind) =>
      match kind
      case NoneValue => NothingDone
      case Callable => Called(Local, fn, args)
      case FalsyValue | OtherValue => Raised(TypeError)   // the value is not callable
  }

  /** `run_runfile_task`: the Runfile's attribute `fn`, or the invalid-name message and the listing. */
  function RunRunfileTask(runfile: Option<Namespace>, fn: string, args: seq<string>): (o: Outcome)
    ensures o.Called? ==> o == Called(Runfile, fn, args)
    ensures o.Called? <==> runfile.Some? && Lookup(runfile.value, fn) == Some(Callable)
    ensures o.Printed? <==> runfile.Some? && fn !in Names(runfile.value)
    ensures o == Raised(FileNotFound(RunfileName)) <==> runfile.None?
    ensures o == Raised(TypeError)
        <==> runfile.Some? && Lookup(runfile.value, fn).Some? && Lookup(runfile.value, fn) != Some(Callable)
  {
    match runfile
    case None => Raised(FileNotFound(RunfileName))
    case Some(tasks) =>
      match Lookup(tasks, fn)
      case None => Printed(["invalid function: " + fn] + GetFunctions(tasks))
      case Some(kind) =>
        if kind == Callable then Called(Runfile, fn, args) else Raised(TypeError)
  }

  /**
   * `main` on `sys.argv`, the value of the environment variable `LOCAL`
   * (`None` when unset), the loaded Runfile and run.py's own globals.
   */
  function RunMain(argv: seq<string>, local: Option<string>, runfile: Option<Namespace>,
                globals: Namespace): (o: Outcome)
    ensures |argv| < 2 ==> o.Printed? || o.Generated?
    ensures o.Called? ==> |argv| >= 2 && o.task == argv[1] && o.args == argv[2..]
    ensures o.Called? ==> (o.target == Local <==> local == Some("1"))
  {
    if |argv| < 2 then ListOrGenerate(runfile)
    else
      var fn, args := argv[1], argv[2..];
      if local.Some? && local.value == "1" then RunLocalTask(globals, fn, args)
      else RunRunfileTask(runfile, fn, args)
  }

  /**
   * The process exit status: 1 after an uncaught exception, 0 otherwise; a
   * task's return value never becomes the status.
   */
  function ExitStatus(o: Outcome): (status: nat)
    ensures status == 0 <==> !o.Raised?
  {
    if o.Raised? then 1 else 0
  }

  /**
   * `get_functions` gives exactly the callable names, `_`-prefixed ones
   * included, in namespace order.
   */
  lemma GetFunctionsExact(tasks: Namespace, name: string)
    ensures name in GetFunctions(tasks) <==> Symbol(name, Callable) in tasks
    ensures IsSubsequence(GetFunctions(tasks), Names(tasks))
  {
    SelectMembers(tasks, IsCallable, name);
    SelectInOrder(tasks, IsCallable);
    if Symbol(name, Callable) in tasks {
      assert IsCallable(Symbol(name, Callable));
    }
  }

  /**
   * With no task name, the Runfile's callables are listed when the Runfile
   * exists and the template is generated otherwise, whatever `LOCAL` says.
   */
  lemma NoTaskListsOrGenerates(argv: seq<string>, local: Option<string>, runfile: Option<Namespace>,
                               globals: Namespace)
    requires |argv| < 2
    ensures runfile.Some? ==> RunMain(argv, local, runfile, globals) == Printed(GetFunctions(runfile.value))
    ensures runfile.None? ==> RunMain(argv, local, runfile, globals) == Generated("Runfile.py created!")
  {
  }

  /** Unless `LOCAL` is exactly "1", run.py's globals play no part: the task comes from the Runfile. */
  lemma LocalOnlyWhenOne(argv: seq<string>, local: Option<string>, runfile: Option<Namespace>,
                         g1: Namespace, g2: Namespace)
    requires local != Some("1")
    ensures RunMain(argv, local, runfile, g1) == RunMain(argv, local, runfile, g2)
    ensures |argv| >= 2 ==> RunMain(argv, local, runfile, g1) == RunRunfileTask(runfile, argv[1], argv[2..])
  {
  }

  /** With `LOCAL=1` and a task name, the Runfile is never loaded. */
  lemma LocalIgnoresRunfile(argv: seq<string>, r1: Option<Namespace>, r2: Option<Namespace>,
                            globals: Namespace)
    requires |argv| >= 2
    ensures RunMain(argv, Some("1"), r1, globals) == RunMain(argv, Some("1"), r2, globals)
    ensures RunMain(argv, Some("1"), r1, globals) == RunLocalTask(globals, argv[1], argv[2..])
  {
  }

  /**
   * A Runfile callable is called with every trailing argument as a
   * positional, unchanged and in order: no flag classification.
   */
  lemma RunfileTaskCalled(argv: seq<string>, local: Option<string>, tasks: Namespace, globals: Namespace)
    requires |argv| >= 2 && local != Some("1")
    requires Symbol(argv[1], Callable) in tasks && Distinct(tasks)
    ensures RunMain(argv, local, Some(tasks), globals) == Called(Runfile, argv[1], argv[2..])
    ensures ExitStatus(RunMain(argv, local, Some(tasks), globals)) == 0
  {
    LookupDistinct(tasks, Symbol(argv[1], Callable));
  }

  /**
   * A name the Runfile lacks prints `invalid function: <fn>` and then the
   * full listing, and the run still ends with status 0.
   */
  lemma InvalidFunctionListed(argv: seq<string>, local: Option<string>, tasks: Namespace, globals: Namespace)
    requires |argv| >= 2 && local != Some("1") && argv[1] !in Names(tasks)
    ensures RunMain(argv, local, Some(tasks), globals)
         == Printed(["invalid function: " + argv[1]] + GetFunctions(tasks))
    ensures ExitStatus(RunMain(argv, local, Some(tasks), globals)) == 0
  {
  }

  /**
   * With `LOCAL=1`, a callable of run.py's own globals is called with the
   * trailing arguments: the shell completion's `LOCAL=1 run list_functions`.
   */
  lemma LocalTaskCalled(argv: seq<string>, runfile: Option<Namespace>, globals: Namespace)
    requires |argv| >= 2 && Symbol(argv[1], Callable) in globals && Distinct(globals)
    ensures RunMain(argv, Some("1"), runfile, globals) == Called(Local, argv[1], argv[2..])
  {
    LookupDistinct(globals, Symbol(argv[1], Callable));
  }

  /** An unknown local name, or one bound to None, silently does nothing. */
  lemma UnknownLocalTaskDoesNothing(argv: seq<string>, runfile: Option<Namespace>, globals: Namespace)
    requires |argv| >= 2 && argv[1] !in Names(globals)
    ensures RunMain(argv, Some("1"), runfile, globals) == NothingDone
    ensures ExitStatus(RunMain(argv, Some("1"), runfile, globals)) == 0
  {
  }

  /** Without a Runfile, a task name outside `LOCAL=1` raises FileNotFoundError. */
  lemma MissingRunfileRaises(argv: seq<string>, local: Option<string>, globals: Namespace)
    requires |argv| >= 2 && local != Some("1")
    ensures RunMain(argv, local, None, globals) == Raised(FileNotFound("Runfile.py"))
    ensures ExitStatus(RunMain(argv, local, None, globals)) == 1
  {
  }

  /**
   * A bound value that is not callable, None included, is called anyway and
   * raises TypeError: from the Runfile outside `LOCAL=1`, and from run.py's
   * globals under `LOCAL=1` unless it is None.  The run exits with status 1.
   */
  lemma NonCallableRaises(argv: seq<string>, local: Option<string>, runfile: Option<Namespace>,
                          globals: Namespace)
    requires |argv| >= 2
    requires local == Some("1") ==> Lookup(globals, argv[1]) in {Some(FalsyValue), Some(OtherValue)}
    requires local != Some("1") ==> runfile.Some? && Lookup(runfile.value, argv[1]).Some?
                                    && Lookup(runfile.value, argv[1]) != Some(Callable)
    ensures RunMain(argv, local, runfile, globals) == Raised(TypeError)
    ensures ExitStatus(RunMain(argv, local, runfile, globals)) == 1
  {
  }
}
