/**
 * A loaded script seen the way the dispatchers see it: its top-level names in
 * definition order, each with what kind of value it is bound to.  Python's
 * `globals()` / `vars(module)` and the key list of a JavaScript module
 * namespace both become a `Namespace`.
 */
module Namespaces {
  import opened Wrappers

  /**
   * What a bound name refers to, as far as the dispatchers look at it.  The
   * Python scripts only ask `callable(x)` and `x is None`, so for them
   * FalsyValue and OtherValue behave alike; run.js asks whether an export is
   * truthy and then calls it.
   */
  datatype Kind =
    | Callable    // Python: anything callable() accepts, classes included; JavaScript: a function that is not a class
    | NoneValue   // Python's None; JavaScript's undefined or null
    | FalsyValue  // JavaScript's false, 0, "" or NaN
    | OtherValue  // any other value: a module, a non-empty string, an object; in JavaScript also a class,
                  // which throws TypeError when called without `new`

  datatype Symbol = Symbol(name: string, kind: Kind)

  type Namespace = seq<Symbol>

  function Names(ns: Namespace): (names: seq<string>)
    ensures |names| == |ns| && forall i :: 0 <= i < |ns| ==> names[i] == ns[i].name
  {
    seq(|ns|, i requires 0 <= i < |ns| => ns[i].name)
  }

  /** A dictionary's keys, and a module's export names, are distinct. */
  predicate Distinct(ns: Namespace) {
    forall i, j :: 0 <= i < j < |ns| ==> ns[i].name != ns[j].name
  }

  /** The value bound to `name`: Python's `d.get(name)`, JavaScript's `module[name]`. */
  function Lookup(ns: Namespace, name: string): (r: Option<Kind>)
    ensures r.None? <==> name !in Names(ns)
    ensures r.Some? ==> Symbol(name, r.value) in ns
  {
    if ns == [] then None
    else if ns[0].name == name then Some(ns[0].kind)
    else
      assert Names(ns) == [ns[0].name] + Names(ns[1..]);
      Lookup(ns[1..], name)
  }

  /** The names of the symbols `keep` accepts, in namespace order. */
  function Select(ns: Namespace, keep: Symbol -> bool): (names: seq<string>)
    ensures |names| <= |ns|
    ensures forall i :: 0 <= i < |names| ==> names[i] in Names(ns)
  {
    if ns == [] then []
    else
      assert Names(ns[..|ns| - 1]) == Names(ns)[..|ns| - 1];
      Select(ns[..|ns| - 1], keep) + (if keep(ns[|ns| - 1]) then [ns[|ns| - 1].name] else [])
  }

  /** `a` is `b` with some elements left out, the rest kept in order. */
  predicate IsSubsequence<T(==)>(a: seq<T>, b: seq<T>) {
    if a == [] then true
    else if b == [] then false
    else (a[|a| - 1] == b[|b| - 1] && IsSubsequence(a[..|a| - 1], b[..|b| - 1]))
         || IsSubsequence(a, b[..|b| - 1])
  }

  /** A name is selected exactly when one of its bindings is accepted. */
  lemma {:induction false} SelectMembers(ns: Namespace, keep: Symbol -> bool, name: string)
    ensures name in Select(ns, keep) <==> exists s :: s in ns && s.name == name && keep(s)
  {
    if ns != [] {
      var init := ns[..|ns| - 1];
      SelectMembers(init, keep, name);
      assert ns == init + [ns[|ns| - 1]];
      assert forall s :: s in ns <==> s in init || s == ns[|ns| - 1];
    }
  }

  /** The selected names keep the namespace's order. */
  lemma {:induction false} SelectInOrder(ns: Namespace, keep: Symbol -> bool)
    ensures IsSubsequence(Select(ns, keep), Names(ns))
  {
    if ns != [] {
      var init := ns[..|ns| - 1];
      SelectInOrder(init, keep);
      assert Names(ns)[..|ns| - 1] == Names(init);
      var sel := Select(ns, keep);
      if keep(ns[|ns| - 1]) {
        assert sel[..|sel| - 1] == Select(init, keep);
      } else {
        assert sel == Select(init, keep);
        if sel != [] {
          assert IsSubsequence(sel, Names(ns)[..|ns| - 1]);
        }
      }
    }
  }

  /** Selecting with a test that accepts everything gives every name. */
  lemma {:induction false} SelectEverything(ns: Namespace, keep: Symbol -> bool)
    requires forall s :: keep(s)
    ensures Select(ns, keep) == Names(ns)
  {
    if ns != [] {
      SelectEverything(ns[..|ns| - 1], keep);
    }
  }

  /** In a namespace with distinct names, a listed symbol is what the name looks up. */
  lemma {:induction false} LookupDistinct(ns: Namespace, s: Symbol)
    requires Distinct(ns) && s in ns
    ensures Lookup(ns, s.name) == Some(s.kind)
  {
    if ns[0] != s {
      assert ns[0].name != s.name by {
        var j :| 0 <= j < |ns| && ns[j] == s;
        assert j > 0;
      }
      assert s in ns[1..] by {
        var j :| 0 <= j < |ns| && ns[j] == s;
        assert ns[1..][j - 1] == s;
      }
      LookupDistinct(ns[1..], s);
    }
  }
}
