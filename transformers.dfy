/**
 * The transformation registry and dispatcher (`TransformerManager`).
 *
 * Handlers are opaque: a handler is an identifier, and "invoking" it on a
 * variable collection appends an `Invocation` record to the collection's
 * history. The default object is a finite map from attribute names to handlers.
 */
module Transformers {
  import opened Wrappers
  import opened Errors

  /** An opaque transformation callable. */
  datatype Handler = Handler(id: nat)

  /** Names to handlers: the registry, or the attributes of the default object. */
  type Namespace = map<string, Handler>

  /**
   * One transformation spec: the `Name` key (absent when the dict lacks it),
   * the optional `Input` list and every remaining key, forwarded as options.
   */
  datatype TransformSpec = TransformSpec(name: Option<string>, input: Option<seq<string>>, options: map<string, string>)

  /** One call `func(collection, cols, **kwargs)`. */
  datatype Invocation = Invocation(handler: Handler, input: Option<seq<string>>, options: map<string, string>)

  /** The handlers invoked, in order, and the error that stopped the walk, if any. */
  datatype Outcome = Outcome(trace: seq<Invocation>, error: Option<Error>)

  function Prepend(done: seq<Invocation>, o: Outcome): Outcome
  {
    Outcome(done + o.trace, o.error)
  }

  predicate IsReserved(name: string)
  {
    name == "And" || name == "Or"
  }

  /** `_sanitize_name`: a trailing underscore keeps "And" and "Or" clear of the reserved words. */
  function SanitizeName(name: string): (r: string)
    ensures !IsReserved(r)
    ensures r == name <==> !IsReserved(name)
  {
    if IsReserved(name) then
      assert name + "_" == (if name == "And" then "And_" else "Or_");
      name + "_"
    else name
  }

  lemma SanitizeNameCases(name: string)
    ensures name == "And" ==> SanitizeName(name) == "And_"
    ensures name == "Or" ==> SanitizeName(name) == "Or_"
    ensures !IsReserved(name) ==> SanitizeName(name) == name
    ensures !IsReserved(SanitizeName(name))
    ensures SanitizeName(SanitizeName(name)) == SanitizeName(name)
  {
  }

  /** Two names share a registry slot exactly when they are equal or one is the sanitised form of the other. */
  lemma SanitizeNameCollisions(a: string, b: string)
    ensures SanitizeName(a) == SanitizeName(b) <==>
      a == b ||
      (a == "And" && b == "And_") || (a == "And_" && b == "And") ||
      (a == "Or" && b == "Or_") || (a == "Or_" && b == "Or")
  {
    if IsReserved(a) && !IsReserved(b) && SanitizeName(a) == SanitizeName(b) {
      assert b == a + "_";
    }
    if IsReserved(b) && !IsReserved(a) && SanitizeName(a) == SanitizeName(b) {
      assert a == b + "_";
    }
    if IsReserved(a) && IsReserved(b) && SanitizeName(a) == SanitizeName(b) {
      assert (a + "_")[..|a|] == a && (b + "_")[..|b|] == b;
    }
  }

  /** A spec that `transform` can resolve: it has a name, registered or on the default object. */
  predicate Resolvable(registry: Namespace, default: Namespace, spec: TransformSpec)
  {
    spec.name.Some? && (SanitizeName(spec.name.value) in registry || SanitizeName(spec.name.value) in default)
  }

  /** The errors `transform` raises: the `KeyError` of a spec without `Name`, or a sanitised name found nowhere. */
  predicate TransformError(registry: Namespace, default: Namespace, e: Error)
  {
    e == MissingKey("Name") || (e.UnknownTransformation? && e.name !in registry && e.name !in default)
  }

  /**
   * What `transform` does, as written: a name found in the registry is looked
   * up and skipped, because the call sits inside the `if func is None` branch;
   * only handlers taken from the default object are invoked.
   */
  function Run(registry: Namespace, default: Namespace, specs: seq<TransformSpec>): (r: Outcome)
    ensures r.error.Some? ==> TransformError(registry, default, r.error.value)
    decreases |specs|
  {
    if specs == [] then Outcome([], None)
    else
      var spec := specs[0];
      if spec.name.None? then Outcome([], Some(MissingKey("Name")))
      else
        var name := SanitizeName(spec.name.value);
        if name in registry then Run(registry, default, specs[1..])
        else if name !in default then Outcome([], Some(UnknownTransformation(name)))
        else Prepend([Invocation(default[name], spec.input, spec.options)], Run(registry, default, specs[1..]))
  }

  /** The dispatch the code evidently intends: the registry first, then the default object, and always invoke. */
  function RunIntended(registry: Namespace, default: Namespace, specs: seq<TransformSpec>): (r: Outcome)
    ensures r.error.Some? ==> TransformError(registry, default, r.error.value)
    ensures r.error.None? ==> |r.trace| == |specs|
    decreases |specs|
  {
    if specs == [] then Outcome([], None)
    else
      var spec := specs[0];
      if spec.name.None? then Outcome([], Some(MissingKey("Name")))
      else
        var name := SanitizeName(spec.name.value);
        if name !in registry && name !in default then Outcome([], Some(UnknownTransformation(name)))
        else
          var func := if name in registry then registry[name] else default[name];
          Prepend([Invocation(func, spec.input, spec.options)], RunIntended(registry, default, specs[1..]))
  }

  /** The handler a resolvable spec should dispatch to. */
  function Resolve(registry: Namespace, default: Namespace, spec: TransformSpec): Handler
    requires Resolvable(registry, default, spec)
  {
    var name := SanitizeName(spec.name.value);
    if name in registry then registry[name] else default[name]
  }

  /** `h` is the default object's handler for some name the registry lacks. */
  ghost predicate FromDefaultOnly(registry: Namespace, default: Namespace, h: Handler)
  {
    exists name :: name !in registry && name in default && default[name] == h
  }

  /** Every handler `transform` invokes comes from the default object under a name the registry lacks. */
  lemma {:induction false} OnlyDefaultHandlersRun(registry: Namespace, default: Namespace, specs: seq<TransformSpec>)
    ensures forall k :: 0 <= k < |Run(registry, default, specs).trace| ==>
      FromDefaultOnly(registry, default, Run(registry, default, specs).trace[k].handler)
    ensures |Run(registry, default, specs).trace| <= |specs|
    decreases |specs|
  {
    if specs != [] && specs[0].name.Some? {
      OnlyDefaultHandlersRun(registry, default, specs[1..]);
      var name := SanitizeName(specs[0].name.value);
      var o := Run(registry, default, specs);
      var rest := Run(registry, default, specs[1..]);
      if name in registry {
        assert o == rest;
      } else if name in default {
        assert o.trace == [Invocation(default[name], specs[0].input, specs[0].options)] + rest.trace;
        forall k | 0 <= k < |o.trace|
          ensures FromDefaultOnly(registry, default, o.trace[k].handler)
        {
          if k == 0 {
            assert o.trace[0].handler == default[name];
          } else {
            assert o.trace[k] == rest.trace[k - 1];
          }
        }
      }
    }
  }

  /** A walk whose every name is registered invokes nothing and raises nothing. */
  lemma {:induction false} RegisteredSpecsNeverRun(registry: Namespace, default: Namespace, specs: seq<TransformSpec>)
    requires forall i :: 0 <= i < |specs| ==> specs[i].name.Some? && SanitizeName(specs[i].name.value) in registry
    ensures Run(registry, default, specs) == Outcome([], None)
    decreases |specs|
  {
    if specs != [] {
      RegisteredSpecsNeverRun(registry, default, specs[1..]);
    }
  }

  /** `transform` raises exactly when some spec cannot be resolved. */
  lemma {:induction false} RunFailsIffUnresolvable(registry: Namespace, default: Namespace, specs: seq<TransformSpec>)
    ensures Run(registry, default, specs).error.Some? <==>
      exists i :: 0 <= i < |specs| && !Resolvable(registry, default, specs[i])
    decreases |specs|
  {
    if specs != [] {
      RunFailsIffUnresolvable(registry, default, specs[1..]);
      if exists i :: 0 <= i < |specs[1..]| && !Resolvable(registry, default, specs[1..][i]) {
        var i :| 0 <= i < |specs[1..]| && !Resolvable(registry, default, specs[1..][i]);
        assert specs[i + 1] == specs[1..][i];
      }
      if exists i :: 0 <= i < |specs| && !Resolvable(registry, default, specs[i]) {
        var i :| 0 <= i < |specs| && !Resolvable(registry, default, specs[i]);
        if i > 0 {
          assert specs[1..][i - 1] == specs[i];
        }
      }
    }
  }

  /** Specs run strictly in list order: a walk over `a + b` is the walk over `a` followed by the walk over `b`. */
  lemma {:induction false} RunInOrder(registry: Namespace, default: Namespace, a: seq<TransformSpec>, b: seq<TransformSpec>)
    requires Run(registry, default, a).error.None?
    ensures Run(registry, default, a + b) == Prepend(Run(registry, default, a).trace, Run(registry, default, b))
    decreases |a|
  {
    if a == [] {
      assert a + b == b;
    } else {
      assert (a + b)[0] == a[0];
      assert (a + b)[1..] == a[1..] + b;
      RunInOrder(registry, default, a[1..], b);
    }
  }

  /** The intended dispatch invokes, in order, the resolved handler of every spec. */
  lemma {:induction false} IntendedInvokesEveryResolved(registry: Namespace, default: Namespace, specs: seq<TransformSpec>)
    requires forall i :: 0 <= i < |specs| ==> Resolvable(registry, default, specs[i])
    ensures RunIntended(registry, default, specs).error.None?
    ensures |RunIntended(registry, default, specs).trace| == |specs|
    ensures forall i :: 0 <= i < |specs| ==>
      RunIntended(registry, default, specs).trace[i] == Invocation(Resolve(registry, default, specs[i]), specs[i].input, specs[i].options)
    decreases |specs|
  {
    if specs != [] {
      IntendedInvokesEveryResolved(registry, default, specs[1..]);
      var o := RunIntended(registry, default, specs);
      var rest := RunIntended(registry, default, specs[1..]);
      forall i | 0 <= i < |specs|
        ensures o.trace[i] == Invocation(Resolve(registry, default, specs[i]), specs[i].input, specs[i].options)
      {
        if i > 0 {
          assert o.trace[i] == rest.trace[i - 1];
          assert specs[1..][i - 1] == specs[i];
        }
      }
    }
  }

  /** When no name is registered, the code as written and the intended dispatch agree. */
  lemma {:induction false} RunMatchesIntendedWithoutRegistered(registry: Namespace, default: Namespace, specs: seq<TransformSpec>)
    requires forall i :: 0 <= i < |specs| && specs[i].name.Some? ==> SanitizeName(specs[i].name.value) !in registry
    ensures Run(registry, default, specs) == RunIntended(registry, default, specs)
    decreases |specs|
  {
    if specs != [] {
      RunMatchesIntendedWithoutRegistered(registry, default, specs[1..]);
    }
  }

  /**
   * A handler registered under "And" is found by a spec named "And" but, as
   * written, never invoked: the walk succeeds with an empty trace.
   */
  lemma RegisteredHandlerIsSkipped(registry: Namespace, h: Handler, input: Option<seq<string>>, options: map<string, string>)
    ensures var spec := TransformSpec(Some("And"), input, options);
      Run(registry[SanitizeName("And") := h], map[], [spec]) == Outcome([], None)
  {
    var spec := TransformSpec(Some("And"), input, options);
    RegisteredSpecsNeverRun(registry[SanitizeName("And") := h], map[], [spec]);
  }

  /** With the intended dispatch the same registration is invoked exactly once. */
  lemma RegisteredHandlerIsInvokedWhenIntended(registry: Namespace, h: Handler, input: Option<seq<string>>, options: map<string, string>)
    ensures var spec := TransformSpec(Some("And"), input, options);
      RunIntended(registry[SanitizeName("And") := h], map[], [spec]) == Outcome([Invocation(h, input, options)], None)
  {
    var spec := TransformSpec(Some("And"), input, options);
    IntendedInvokesEveryResolved(registry[SanitizeName("And") := h], map[], [spec]);
  }

  /** A variable collection; handlers mutate it in place, which the model records as its history of invocations. */
  class VariableCollection {
    var applied: seq<Invocation>

    constructor ()
      ensures applied == []
    {
      applied := [];
    }
  }

  class TransformerManager {
    /** Explicitly registered handlers, keyed by sanitised name. */
    var transformations: Namespace
    /** The attributes of the default object, the fallback for unregistered names. */
    const default: Namespace

    /** A missing default object is replaced by the built-in transformations. */
    constructor (default: Option<Namespace>, builtins: Namespace)
      ensures transformations == map[]
      ensures this.default == (if default.Some? then default.value else builtins)
    {
      transformations := map[];
      this.default := if default.Some? then default.value else builtins;
    }

    /** `register`: store `func` under the sanitised name, replacing any earlier handler there. */
    method Register(name: string, func: Handler)
      modifies this
      ensures transformations == old(transformations)[SanitizeName(name) := func]
      ensures SanitizeName(name) in transformations && transformations[SanitizeName(name)] == func
      ensures forall k :: k != SanitizeName(name) ==>
        (k in transformations <==> k in old(transformations)) &&
        (k in transformations ==> transformations[k] == old(transformations)[k])
    {
      var key := SanitizeName(name);
      transformations := transformations[key := func];
    }

    /**
     * `transform`: walk the specs in order, mutating `collection` in place, and
     * return that same collection; raise at the first unresolvable spec, after
     * the effects of the specs before it.
     */
    method Transform(collection: VariableCollection, specs: seq<TransformSpec>) returns (r: Result<VariableCollection, Error>)
      modifies collection
      ensures var o := Run(transformations, default, specs);
        collection.applied == old(collection.applied) + o.trace &&
        r == (if o.error.Some? then Failure(o.error.value) else Success(collection))
    {
      ghost var done: seq<Invocation> := [];
      var i := 0;
      assert specs[0..] == specs;
      assert [] + Run(transformations, default, specs).trace == Run(transformations, default, specs).trace;
      while i < |specs|
        invariant 0 <= i <= |specs|
        invariant collection.applied == old(collection.applied) + done
        invariant Run(transformations, default, specs) == Prepend(done, Run(transformations, default, specs[i..]))
      {
        var spec := specs[i];
        assert specs[i..][0] == spec && specs[i..][1..] == specs[i + 1..];
        ghost var here := Run(transformations, default, specs[i..]);
        ghost var rest := Run(transformations, default, specs[i + 1..]);
        if spec.name.None? {
          assert here == Outcome([], Some(MissingKey("Name")));
          return Failure(MissingKey("Name"));
        }
        var name := SanitizeName(spec.name.value);
        if name !in transformations {
          if name !in default {
            assert here == Outcome([], Some(UnknownTransformation(name)));
            return Failure(UnknownTransformation(name));
          }
          var func := default[name];
          var call := Invocation(func, spec.input, spec.options);
          assert here == Prepend([call], rest);
          assert done + ([call] + rest.trace) == (done + [call]) + rest.trace;
          collection.applied := collection.applied + [call];
          done := done + [call];
        } else {
          assert here == rest;
        }
        i := i + 1;
      }
      assert specs[i..] == [];
      r := Success(collection);
    }
  }
}
