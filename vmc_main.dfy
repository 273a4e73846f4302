/**
 * vmc.py's entry point `_main`: with no task name it prints the public tasks
 * of the script's globals; with a name it looks the name up and calls the
 * symbol with the classified arguments.
 */
module VmcMain {
  import opened Wrappers
  import opened Text
  import opened Namespaces
  import opened VmcArgs

  /** What one run of `_main` does. */
  datatype Outcome =
    | Listed(names: seq<string>)                       // printed, one per line
    | Invoked(task: string, arguments: ArgumentSet)    // `sym(*args, **kwargs)`
    | Ignored                                          // the name is bound to a non-callable value
    | Raised(error: Exception)

  /** A global `_main` lists: not `_`-prefixed, and callable. */
  predicate IsPublicTask(s: Symbol) {
    !StartsWith(s.name, "_") && s.kind == Callable
  }

  function PublicTasks(globals: Namespace): seq<string> {
    Select(globals, IsPublicTask)
  }

  /** `_main` on `sys.argv`, against the script's globals. */
  function Dispatch(argv: seq<string>, globals: Namespace): (o: Outcome)
    ensures o.Listed? <==> |argv| < 2
    ensures o.Invoked? ==> o.task == argv[1] && Lookup(globals, argv[1]) == Some(Callable)
    ensures o.Ignored? ==> Lookup(globals, argv[1]).Some? && Lookup(globals, argv[1]).value != Callable
    ensures |argv| >= 2 ==> (o == Raised(KeyError(argv[1])) <==> argv[1] !in Names(globals))
    ensures o.Raised? ==> o.error == KeyError(argv[1]) || o.error == ValueError
  {
    if |argv| < 2 then Listed(PublicTasks(globals))
    else
      var name := argv[1];
      match Lookup(globals, name)
      case None => Raised(KeyError(name))
      case Some(kind) =>
        if kind != Callable then Ignored
        else
          match Classify(argv[2..])
          case Err(e) => Raised(e)
          case Ok(a) => Invoked(name, a)
  }

  /** The listing loop of `_main`: prints each global that is public and callable. */
  method ListTasks(globals: Namespace) returns (lines: seq<string>)
    ensures lines == PublicTasks(globals)
  {
    lines := [];
    for i := 0 to |globals|
      invariant lines == PublicTasks(globals[..i])
    {
      assert globals[..i + 1][..i] == globals[..i];
      var sym := globals[i];
      if !StartsWith(sym.name, "_") && sym.kind == Callable {
        lines := lines + [sym.name];
      }
    }
    assert globals[..|globals|] == globals;
  }

  /** `_main`. */
  method RunMain(argv: seq<string>, globals: Namespace) returns (outcome: Outcome)
    ensures outcome == Dispatch(argv, globals)
  {
    if |argv| < 2 {
      var lines := ListTasks(globals);
      return Listed(lines);
    }
    var name := argv[1];
    var sym := Lookup(globals, name);
    if sym.None? {
      return Raised(KeyError(name));
    }
    if sym.value == Callable {
      var parsed := ParseKwargs(argv[2..]);
      if parsed.Err? {
        return Raised(parsed.error);
      }
      return Invoked(name, parsed.value);
    }
    return Ignored;
  }

  /**
   * With no task name, the names printed are exactly the globals that are not
   * `_`-prefixed and are callable, in definition order.
   */
  lemma ListingIsPublicTasks(argv: seq<string>, globals: Namespace, name: string)
    requires |argv| < 2
    ensures Dispatch(argv, globals).Listed?
    ensures name in Dispatch(argv, globals).names
        <==> exists s :: s in globals && s.name == name && !StartsWith(name, "_") && s.kind == Callable
    ensures IsSubsequence(Dispatch(argv, globals).names, Names(globals))
  {
    SelectMembers(globals, IsPublicTask, name);
    SelectInOrder(globals, IsPublicTask);
  }

  /** A name that is not a global raises KeyError. */
  lemma UnknownTaskRaises(argv: seq<string>, globals: Namespace)
    requires |argv| >= 2 && argv[1] !in Names(globals)
    ensures Dispatch(argv, globals) == Raised(KeyError(argv[1]))
  {
  }

  /** A name bound to a non-callable value does nothing, whatever the arguments. */
  lemma NonCallableIgnored(argv: seq<string>, globals: Namespace)
    requires |argv| >= 2 && Lookup(globals, argv[1]).Some? && Lookup(globals, argv[1]).value != Callable
    ensures Dispatch(argv, globals) == Ignored
  {
  }

  /**
   * A callable receives the classified positionals and flags; this holds for
   * `_`-prefixed callables too, which are never listed.
   */
  lemma CallableInvoked(argv: seq<string>, globals: Namespace)
    requires |argv| >= 2 && Lookup(globals, argv[1]) == Some(Callable)
    ensures Classify(argv[2..]).Ok? ==> Dispatch(argv, globals) == Invoked(argv[1], Classify(argv[2..]).value)
    ensures Classify(argv[2..]).Err? ==> Dispatch(argv, globals) == Raised(ValueError)
    ensures StartsWith(argv[1], "_") ==> argv[1] !in PublicTasks(globals)
  {
    SelectMembers(globals, IsPublicTask, argv[1]);
  }
}
