/**
 * vmc.py's argument classifier `_parse_kwargs`: the tokens after the task
 * name become positional arguments and a `--flag[=value]` map.
 */
module VmcArgs {
  import opened Wrappers
  import opened Text

  /** What `_parse_kwargs` makes of one token. */
  datatype Token =
    | Positional(arg: string)
    | Flag(key: string, value: string)
    | Unpackable   // `key, value = arg.split('=')` meets more than two pieces

  /** The positional arguments and the keyword map a task is called with. */
  datatype ArgumentSet = ArgumentSet(args: seq<string>, kwargs: map<string, string>)

  /**
   * One token: without the `--` prefix it is positional; with it and no `=`
   * it is a bare flag with the empty value; with exactly one `=` it is split
   * there; with two or more `=` the two-name unpacking fails.
   */
  function ClassifyToken(t: string): (r: Token)
    ensures r.Positional? <==> !StartsWith(t, "--")
    ensures r.Positional? ==> r.arg == t
    ensures r.Unpackable? <==> StartsWith(t, "--") && Count(t, '=') >= 2
    ensures r.Flag? ==> StartsWith(r.key, "--") && '=' !in r.key && '=' !in r.value
    ensures r.Flag? ==> (t == r.key && r.value == "") || t == r.key + "=" + r.value
  {
    if !StartsWith(t, "--") then Positional(t)
    else if '=' !in t then
      CountAbsent(t, '=');
      Flag(t, "")
    else
      var parts := Split(t, '=');
      CountPresent(t, '=');
      if |parts| == 2 then
        JoinSplit(t, '=');
        assert t == parts[0] + "=" + parts[1];
        assert |parts[0]| >= 2;
        assert parts[0][..2] == t[..2];
        Flag(parts[0], parts[1])
      else Unpackable
  }

  /** One turn of `_parse_kwargs`'s loop: the token goes to the list or the map, or raises. */
  function Step(acc: Result<ArgumentSet, Exception>, t: string): Result<ArgumentSet, Exception> {
    match acc
    case Err(e) => Err(e)
    case Ok(a) =>
      match ClassifyToken(t)
      case Positional(x) => Ok(ArgumentSet(a.args + [x], a.kwargs))
      case Flag(k, v) => Ok(ArgumentSet(a.args, a.kwargs[k := v]))
      case Unpackable => Err(ValueError)
  }

  /** `_parse_kwargs` as a left-to-right fold; the first bad token raises ValueError. */
  function Classify(tokens: seq<string>): (r: Result<ArgumentSet, Exception>)
    ensures r.Err? ==> r.error == ValueError
  {
    if tokens == [] then Ok(ArgumentSet([], map[]))
    else Step(Classify(tokens[..|tokens| - 1]), Last(tokens))
  }

  lemma ClassifySnoc(tokens: seq<string>, t: string)
    ensures Classify(tokens + [t]) == Step(Classify(tokens), t)
  {
    assert (tokens + [t])[..|tokens|] == tokens;
  }

  /** The tokens without the `--` prefix, in their order. */
  function Positionals(tokens: seq<string>): seq<string> {
    if tokens == [] then []
    else Positionals(tokens[..|tokens| - 1])
         + (if StartsWith(Last(tokens), "--") then [] else [Last(tokens)])
  }

  /** `vmc.py`'s `_parse_kwargs`: fills a list and a dict in one pass over the tokens. */
  method ParseKwargs(allArgs: seq<string>) returns (r: Result<ArgumentSet, Exception>)
    ensures r == Classify(allArgs)
  {
    var kwargs: map<string, string> := map[];
    var args: seq<string> := [];
    for i := 0 to |allArgs|
      invariant Classify(allArgs[..i]) == Ok(ArgumentSet(args, kwargs))
    {
      var arg := allArgs[i];
      assert allArgs[..i + 1][..i] == allArgs[..i];
      if !StartsWith(arg, "--") {
        args := args + [arg];
      } else if '=' !in arg {
        kwargs := kwargs[arg := ""];
      } else {
        var parts := Split(arg, '=');
        if |parts| != 2 {
          ClassifyFailure(allArgs, i);
          return Err(ValueError);
        }
        kwargs := kwargs[parts[0] := parts[1]];
      }
    }
    assert allArgs[..|allArgs|] == allArgs;
    return Ok(ArgumentSet(args, kwargs));
  }

  /** Classification fails exactly when some token has two or more `=` after the `--` prefix. */
  lemma {:induction false} ClassifyFails(tokens: seq<string>)
    ensures Classify(tokens).Err?
        <==> exists i :: 0 <= i < |tokens| && ClassifyToken(tokens[i]).Unpackable?
  {
    if tokens != [] {
      var init := tokens[..|tokens| - 1];
      ClassifyFails(init);
      assert forall i :: 0 <= i < |init| ==> init[i] == tokens[i];
    }
  }

  lemma ClassifyFailure(tokens: seq<string>, i: nat)
    requires i < |tokens| && ClassifyToken(tokens[i]).Unpackable?
    ensures Classify(tokens) == Err(ValueError)
  {
    ClassifyFails(tokens);
  }

  /** The positional arguments are exactly the tokens without the `--` prefix, in their order. */
  lemma {:induction false} ClassifyPositionals(tokens: seq<string>)
    requires Classify(tokens).Ok?
    ensures Classify(tokens).value.args == Positionals(tokens)
  {
    if tokens != [] {
      ClassifyPositionals(tokens[..|tokens| - 1]);
    }
  }

  /** The token is a flag with that key. */
  predicate FlagFor(t: string, key: string) {
    var c := ClassifyToken(t); c.Flag? && c.key == key
  }

  /** A classification without error grew by its last token from that of the tokens before it. */
  lemma ClassifyStep(tokens: seq<string>)
    requires tokens != [] && Classify(tokens).Ok?
    ensures Classify(tokens[..|tokens| - 1]).Ok?
    ensures var before := Classify(tokens[..|tokens| - 1]).value.kwargs;
      Classify(tokens).value.kwargs
        == match ClassifyToken(tokens[|tokens| - 1])
           case Flag(k, v) => before[k := v]
           case _ => before
  {
  }

  /** A key is in the flag map exactly when some token is a flag with that key. */
  lemma {:induction false} ClassifyFlagKeys(tokens: seq<string>, key: string)
    requires Classify(tokens).Ok?
    ensures key in Classify(tokens).value.kwargs <==> exists i :: 0 <= i < |tokens| && FlagFor(tokens[i], key)
  {
    if tokens != [] {
      var init := tokens[..|tokens| - 1];
      ClassifyStep(tokens);
      ClassifyFlagKeys(init, key);
      FlagForSnoc(init, Last(tokens), key);
      assert tokens == init + [Last(tokens)];
    }
  }

  /** Some token of `init + [t]` is a flag for `key` exactly when one of `init` is or `t` is. */
  lemma FlagForSnoc(init: seq<string>, t: string, key: string)
    ensures (exists i :: 0 <= i < |init + [t]| && FlagFor((init + [t])[i], key))
        <==> (exists i :: 0 <= i < |init| && FlagFor(init[i], key)) || FlagFor(t, key)
  {
    var tokens := init + [t];
    if exists i :: 0 <= i < |tokens| && FlagFor(tokens[i], key) {
      var i :| 0 <= i < |tokens| && FlagFor(tokens[i], key);
      if i < |init| {
        assert init[i] == tokens[i];
      }
    }
    if exists i :: 0 <= i < |init| && FlagFor(init[i], key) {
      var i :| 0 <= i < |init| && FlagFor(init[i], key);
      assert tokens[i] == init[i];
    }
    assert tokens[|init|] == t;
  }

  /** The value of a flag is the one of the last token with that key: a repeated flag overwrites. */
  lemma {:induction false} ClassifyLastFlagWins(tokens: seq<string>, i: nat, key: string)
    requires Classify(tokens).Ok?
    requires i < |tokens| && FlagFor(tokens[i], key)
    requires forall j :: i < j < |tokens| ==> !FlagFor(tokens[j], key)
    ensures key in Classify(tokens).value.kwargs
    ensures Classify(tokens).value.kwargs[key] == ClassifyToken(tokens[i]).value
  {
    var n := |tokens| - 1;
    var init := tokens[..n];
    ClassifyStep(tokens);
    if i < n {
      assert !FlagFor(tokens[n], key);
      assert init[i] == tokens[i];
      forall j | i < j < n ensures !FlagFor(init[j], key) {
        assert init[j] == tokens[j];
      }
      ClassifyLastFlagWins(init, i, key);
    }
  }

  /** How the bare tokens of the example classify. */
  lemma ExampleTokens()
    ensures ClassifyToken("a") == Positional("a")
    ensures ClassifyToken("--x") == Flag("--x", "")
    ensures ClassifyToken("b") == Positional("b")
  {
  }

  /** `--y=1` is split at its one `=`. */
  lemma ExampleValueFlag()
    ensures ClassifyToken("--y=1") == Flag("--y", "1")
  {
    assert Split("--y=1", '=') == ["--y", "1"] by {
      assert "--y=1" == "--y" + ['='] + "1";
      SplitPair("--y", "1", '=');
    }
  }

  /** `a --x`: one positional and the bare flag with the empty value. */
  lemma ClassifyExampleStart()
    ensures Classify(["a", "--x"]) == Ok(ArgumentSet(["a"], map["--x" := ""]))
  {
    ExampleTokens();
    ClassifySnoc([], "a");
    assert [] + ["a"] == ["a"];
    ClassifySnoc(["a"], "--x");
    assert ["a"] + ["--x"] == ["a", "--x"];
  }

  /** `a --x --y=1 b`: two positionals and two flags, the bare one with the empty value. */
  lemma ClassifyExample()
    ensures Classify(["a", "--x", "--y=1", "b"]) == Ok(ArgumentSet(["a", "b"], map["--x" := "", "--y" := "1"]))
  {
    ClassifyExampleStart();
    ExampleTokens();
    ExampleValueFlag();
    ClassifySnoc(["a", "--x"], "--y=1");
    assert ["a", "--x"] + ["--y=1"] == ["a", "--x", "--y=1"];
    ClassifySnoc(["a", "--x", "--y=1"], "b");
    assert ["a", "--x", "--y=1"] + ["b"] == ["a", "--x", "--y=1", "b"];
    assert ["a"] + ["b"] == ["a", "b"];
  }

  /** A second `=` in a flag is an error: there is no split at the first `=` only. */
  lemma SecondEqualsFails()
    ensures Classify(["--k=v=w"]) == Err(ValueError)
  {
    assert ClassifyToken("--k=v=w").Unpackable?;
    assert ["--k=v=w"][..0] == [];
  }
}
