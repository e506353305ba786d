/**
 * Running a generated wrapper on harness-owned state has the effect of calling the library function
 * on the contents of that state.
 */
module WrapperSemantics {
  import opened Options
  import opened HarnessModel
  import opened HarnessPlan

  /** The parameters' values when a library function returns, and what it returns. */
  datatype Outcome<V> = Outcome(post: seq<V>, returned: seq<V>)

  /** A library function, seen as a transformer of its parameters' values. */
  type Interpretation<!V> = seq<V> -> Outcome<V>

  /** The wrapper's parameters, which hide state variables of the same name, and the state. */
  datatype Scope<V> = Scope(env: map<string, V>, store: map<string, V>) {
    predicate Has(name: string) {
      name in env || name in store
    }

    function Read(name: string): V
      requires Has(name)
    {
      if name in env then env[name] else store[name]
    }
  }

  // ----- The wrapper's body, as rendered -----

  function Bind<V>(ps: seq<LibParam>, actuals: seq<V>): map<string, V>
    requires |actuals| == |ps|
  {
    if ps == [] then map[]
    else
      var last := |ps| - 1;
      Bind(ps[..last], actuals[..last])[ps[last].name := actuals[last]]
  }

  predicate IsByReference(ps: seq<LibParam>, name: string) {
    exists i :: 0 <= i < |ps| && ps[i].name == name && ps[i].location == "memory"
  }

  /** State variables and memory parameters are passed by reference, the others by value. */
  function AfterCall<V>(w: Wrapper, scope: Scope<V>, args: seq<string>, post: seq<V>): Scope<V>
    requires |args| == |post|
    decreases |args|
  {
    if args == [] then scope
    else
      var last := |args| - 1;
      var prev := AfterCall(w, scope, args[..last], post[..last]);
      if args[last] !in prev.env then prev.(store := prev.store[args[last] := post[last]])
      else if IsByReference(w.params, args[last]) then prev.(env := prev.env[args[last] := post[last]])
      else prev
  }

  datatype Effect<V> = Effect(store: map<string, V>, returned: seq<V>)

  ghost predicate Runnable<V(!new)>(w: Wrapper, call: Interpretation<V>, store: map<string, V>, actuals: seq<V>) {
    && |actuals| == |w.params|
    && (forall i :: 0 <= i < |w.callArgs| ==> Scope(Bind(w.params, actuals), store).Has(w.callArgs[i]))
    && (forall xs :: |xs| == |w.callArgs| ==> |call(xs).post| == |xs|)
    && (w.returnsMutatedParam.Some? ==> w.returnsMutatedParam.value in w.callArgs)
  }

  function Inputs<V>(w: Wrapper, scope: Scope<V>): seq<V>
    requires forall i :: 0 <= i < |w.callArgs| ==> scope.Has(w.callArgs[i])
  {
    seq(|w.callArgs|, i requires 0 <= i < |w.callArgs| => scope.Read(w.callArgs[i]))
  }

  /** The call statement followed by the return statement that the wrapper is rendered with. */
  ghost function Run<V(!new)>(w: Wrapper, call: Interpretation<V>, store: map<string, V>, actuals: seq<V>): Effect<V>
    requires Runnable(w, call, store, actuals)
  {
    var scope := Scope(Bind(w.params, actuals), store);
    var out := call(Inputs(w, scope));
    var scope' := AfterCall(w, scope, w.callArgs, out.post);
    Effect(scope'.store,
           match w.returnsMutatedParam {
             case Some(name) => if scope'.Has(name) then [scope'.Read(name)] else []
             case None => if w.results != [] then out.returned else []
           })
  }

  // ----- What the library function itself does to the owned state -----

  predicate Distinct(names: seq<string>) {
    forall i, j :: 0 <= i < j < |names| ==> names[i] != names[j]
  }

  /** The value of parameter i: the owned variable's content, or the actual in its exposed position. */
  function LibraryInput<V>(fn: LibFunction, owned: map<string, string>, store: map<string, V>, actuals: seq<V>, i: nat): V
    requires i < |fn.params| && Owns(owned, fn.params) && |actuals| == |Exposed(fn.params)|
    requires fn.params[i].IsStorage() ==> owned[fn.params[i].solidityType] in store
  {
    if fn.params[i].IsStorage() then store[owned[fn.params[i].solidityType]]
    else
      ExposedPosition(fn.params, i);
      actuals[|Exposed(fn.params[..i])|]
  }

  lemma ExposedFront(ps: seq<LibParam>)
    requires ps != []
    ensures Exposed(ps) == Exposed(ps[..|ps| - 1]) + (if ps[|ps| - 1].IsStorage() then [] else [Expose(ps[|ps| - 1])])
  {
  }

  lemma {:induction false} ExposedPosition(ps: seq<LibParam>, i: nat)
    requires i < |ps| && !ps[i].IsStorage()
    ensures |Exposed(ps[..i])| < |Exposed(ps)| && Exposed(ps)[|Exposed(ps[..i])|] == Expose(ps[i])
  {
    var last := |ps| - 1;
    ExposedFront(ps);
    if i < last {
      ExposedPosition(ps[..last], i);
      assert ps[..last][..i] == ps[..i];
    }
  }

  lemma {:induction false} BindKeys<V>(ps: seq<LibParam>, actuals: seq<V>, name: string)
    requires |actuals| == |ps|
    ensures name in Bind(ps, actuals) <==> exists i :: 0 <= i < |ps| && ps[i].name == name
  {
    if ps != [] {
      var last := |ps| - 1;
      BindKeys(ps[..last], actuals[..last], name);
      if i :| 0 <= i < last && ps[..last][i].name == name {
        assert ps[i].name == name;
      }
    }
  }

  lemma {:induction false} BindAt<V>(ps: seq<LibParam>, actuals: seq<V>, k: nat)
    requires k < |actuals| == |ps| && forall j :: k < j < |ps| ==> ps[j].name != ps[k].name
    ensures ps[k].name in Bind(ps, actuals) && Bind(ps, actuals)[ps[k].name] == actuals[k]
  {
    var last := |ps| - 1;
    if k < last {
      BindAt(ps[..last], actuals[..last], k);
    }
  }

  lemma {:induction false} ExposedComeFrom(ps: seq<LibParam>, k: nat) returns (i: nat)
    requires k < |Exposed(ps)|
    ensures i < |ps| && !ps[i].IsStorage() && k == |Exposed(ps[..i])| && Exposed(ps)[k] == Expose(ps[i])
  {
    var last := |ps| - 1;
    if k < |Exposed(ps[..last])| {
      i := ExposedComeFrom(ps[..last], k);
      assert ps[..last][..i] == ps[..i];
    } else {
      i := last;
    }
  }

  lemma StorageArgIsNotExposed<V>(fn: LibFunction, owned: map<string, string>, actuals: seq<V>, i: nat)
    requires i < |fn.params| && Owns(owned, fn.params) && |actuals| == |Exposed(fn.params)|
    requires Distinct(CallArgs(fn.params, owned)) && fn.params[i].IsStorage()
    ensures CallArgs(fn.params, owned)[i] !in Bind(Exposed(fn.params), actuals)
  {
    var ps, args := Exposed(fn.params), CallArgs(fn.params, owned);
    BindKeys(ps, actuals, args[i]);
    forall k | 0 <= k < |ps|
      ensures ps[k].name != args[i]
    {
      var j := ExposedComeFrom(fn.params, k);
      assert args[j] == ps[k].name;
    }
  }

  lemma ExposedArgIsBound<V>(fn: LibFunction, owned: map<string, string>, actuals: seq<V>, i: nat)
    requires i < |fn.params| && Owns(owned, fn.params) && |actuals| == |Exposed(fn.params)|
    requires Distinct(CallArgs(fn.params, owned)) && !fn.params[i].IsStorage()
    ensures |Exposed(fn.params[..i])| < |actuals|
    ensures var env := Bind(Exposed(fn.params), actuals);
      fn.params[i].name in env && env[fn.params[i].name] == actuals[|Exposed(fn.params[..i])|]
  {
    var ps, args := Exposed(fn.params), CallArgs(fn.params, owned);
    var k := |Exposed(fn.params[..i])|;
    ExposedPosition(fn.params, i);
    forall k' | k < k' < |ps|
      ensures ps[k'].name != ps[k].name
    {
      var j := ExposedComeFrom(fn.params, k');
      assert args[j] == ps[k'].name && args[i] == ps[k].name;
    }
    BindAt(ps, actuals, k);
  }

  /** The scope in which a wrapper runs gives each call argument the value of its parameter. */
  lemma ScopeReads<V>(fn: LibFunction, owned: map<string, string>, store: map<string, V>, actuals: seq<V>, i: nat)
    requires i < |fn.params| && Owns(owned, fn.params) && |actuals| == |Exposed(fn.params)|
    requires Distinct(CallArgs(fn.params, owned))
    requires fn.params[i].IsStorage() ==> owned[fn.params[i].solidityType] in store
    ensures var scope := Scope(Bind(Exposed(fn.params), actuals), store);
      var arg := CallArgs(fn.params, owned)[i];
      && scope.Has(arg)
      && (arg in scope.env <==> !fn.params[i].IsStorage())
      && scope.Read(arg) == LibraryInput(fn, owned, store, actuals, i)
  {
    if fn.params[i].IsStorage() {
      StorageArgIsNotExposed(fn, owned, actuals, i);
    } else {
      ExposedArgIsBound(fn, owned, actuals, i);
    }
  }

  lemma {:induction false} AfterCallFrame<V>(w: Wrapper, scope: Scope<V>, args: seq<string>, post: seq<V>, name: string)
    requires |args| == |post|
    ensures var s := AfterCall(w, scope, args, post);
      && s.env.Keys == scope.env.Keys
      && (name !in args || name in scope.env ==> (name in s.store <==> name in scope.store))
      && (name in scope.store && (name !in args || name in scope.env) ==> s.store[name] == scope.store[name])
    decreases |args|
  {
    if args != [] {
      var last := |args| - 1;
      AfterCallFrame(w, scope, args[..last], post[..last], name);
      assert args[last] in args;
    }
  }

  lemma {:induction false} AfterCallAt<V>(w: Wrapper, scope: Scope<V>, args: seq<string>, post: seq<V>, i: nat)
    requires i < |args| == |post| && Distinct(args)
    ensures var s := AfterCall(w, scope, args, post);
      && (args[i] !in scope.env ==> args[i] !in s.env && args[i] in s.store && s.store[args[i]] == post[i])
      && (args[i] in scope.env && IsByReference(w.params, args[i]) ==> args[i] in s.env && s.env[args[i]] == post[i])
    decreases |args|
  {
    var last := |args| - 1;
    AfterCallFrame(w, scope, args[..last], post[..last], args[i]);
    if i < last {
      AfterCallAt(w, scope, args[..last], post[..last], i);
    }
  }

  lemma {:induction false} OnlyMemoryParam(ps: seq<LibParam>) returns (i: nat)
    requires |MemoryOnly(ps)| == 1
    ensures i < |ps| && ps[i] == MemoryOnly(ps)[0] && ps[i].location == "memory"
  {
    if ps[0].location == "memory" {
      i := 0;
      assert MemoryOnly(ps)[0] == ps[0];
    } else {
      assert MemoryOnly(ps) == MemoryOnly(ps[1..]);
      i := OnlyMemoryParam(ps[1..]);
      i := i + 1;
    }
  }

  /** What a call of `fn` on the owned state must leave behind and hand back. */
  ghost predicate HasLibraryEffect<V(!new)>(fn: LibFunction, owned: map<string, string>, out: Outcome<V>,
                                            store: map<string, V>, e: Effect<V>)
    requires Owns(owned, fn.params) && |out.post| == |fn.params|
  {
    var args := CallArgs(fn.params, owned);
    && (forall i :: 0 <= i < |fn.params| && fn.params[i].IsStorage() ==>
          args[i] in e.store && e.store[args[i]] == out.post[i])
    && (forall x :: x in store && (forall i :: 0 <= i < |fn.params| && fn.params[i].IsStorage() ==> args[i] != x) ==>
          x in e.store && e.store[x] == store[x])
    && (fn.results != [] ==> e.returned == out.returned)
    && (fn.results == [] && |MemoryOnly(fn.params)| == 1 ==>
          exists i :: 0 <= i < |fn.params| && fn.params[i] == MemoryOnly(fn.params)[0] && e.returned == [out.post[i]])
    && (fn.results == [] && |MemoryOnly(fn.params)| != 1 ==> e.returned == [])
  }

  ghost predicate Callable<V(!new)>(fn: LibFunction, owned: map<string, string>, call: Interpretation<V>,
                                    store: map<string, V>, actuals: seq<V>)
  {
    && Owns(owned, fn.params)
    && |actuals| == |Exposed(fn.params)|
    && (forall i :: 0 <= i < |fn.params| && fn.params[i].IsStorage() ==> owned[fn.params[i].solidityType] in store)
    && (forall xs :: |xs| == |fn.params| ==> |call(xs).post| == |xs|)
  }

  ghost function LibraryCall<V(!new)>(fn: LibFunction, owned: map<string, string>, call: Interpretation<V>,
                                      store: map<string, V>, actuals: seq<V>): (out: Outcome<V>)
    requires Callable(fn, owned, call, store, actuals)
    ensures |out.post| == |fn.params|
  {
    call(LibraryInputs(fn, owned, store, actuals))
  }

  /** The call arguments name different things: the condition under which a wrapper is faithful. */
  predicate NamesApart(fn: LibFunction, owned: map<string, string>)
    requires Owns(owned, fn.params)
  {
    Distinct(CallArgs(fn.params, owned))
  }

  function LibraryInputs<V>(fn: LibFunction, owned: map<string, string>, store: map<string, V>, actuals: seq<V>): seq<V>
    requires Owns(owned, fn.params) && |actuals| == |Exposed(fn.params)|
    requires forall i :: 0 <= i < |fn.params| && fn.params[i].IsStorage() ==> owned[fn.params[i].solidityType] in store
  {
    seq(|fn.params|, i requires 0 <= i < |fn.params| => LibraryInput(fn, owned, store, actuals, i))
  }

  lemma MutatedIsPassed(w: Wrapper, fn: LibFunction, owned: map<string, string>, prefix: string)
    requires Owns(owned, fn.params) && Wraps(w, fn, owned, prefix)
    ensures w.returnsMutatedParam.Some? ==> w.returnsMutatedParam.value in w.callArgs
  {
    if MutatedMemoryParam(fn).Some? {
      var i := OnlyMemoryParam(fn.params);
      assert w.callArgs[i] == fn.params[i].name;
    }
  }

  /** What the wrapper's call reads for parameter i, in its own terms. */
  lemma WrapperReads<V(!new)>(w: Wrapper, fn: LibFunction, owned: map<string, string>, prefix: string,
                              call: Interpretation<V>, store: map<string, V>, actuals: seq<V>, i: nat)
    requires Callable(fn, owned, call, store, actuals) && NamesApart(fn, owned) && Wraps(w, fn, owned, prefix)
    requires i < |fn.params|
    ensures |w.params| == |actuals| && |w.callArgs| == |fn.params|
    ensures Scope(Bind(w.params, actuals), store).Has(w.callArgs[i])
    ensures Scope(Bind(w.params, actuals), store).Read(w.callArgs[i]) == LibraryInput(fn, owned, store, actuals, i)
  {
    ScopeReads(fn, owned, store, actuals, i);
  }

  lemma SameSequence<T>(a: seq<T>, b: seq<T>)
    requires |a| == |b| && forall i :: 0 <= i < |a| ==> a[i] == b[i]
    ensures a == b
  {
  }

  lemma WrapperRuns<V(!new)>(w: Wrapper, fn: LibFunction, owned: map<string, string>, prefix: string,
                             call: Interpretation<V>, store: map<string, V>, actuals: seq<V>)
    requires Callable(fn, owned, call, store, actuals) && NamesApart(fn, owned) && Wraps(w, fn, owned, prefix)
    ensures Runnable(w, call, store, actuals)
  {
    forall i | 0 <= i < |w.callArgs|
      ensures Scope(Bind(w.params, actuals), store).Has(w.callArgs[i])
    {
      WrapperReads(w, fn, owned, prefix, call, store, actuals, i);
    }
    MutatedIsPassed(w, fn, owned, prefix);
  }

  lemma WrapperInputs<V(!new)>(w: Wrapper, fn: LibFunction, owned: map<string, string>, prefix: string,
                               call: Interpretation<V>, store: map<string, V>, actuals: seq<V>)
    requires Callable(fn, owned, call, store, actuals) && NamesApart(fn, owned) && Wraps(w, fn, owned, prefix)
    requires Runnable(w, call, store, actuals)
    ensures Inputs(w, Scope(Bind(w.params, actuals), store)) == LibraryInputs(fn, owned, store, actuals)
  {
    var inputs, expected := Inputs(w, Scope(Bind(w.params, actuals), store)), LibraryInputs(fn, owned, store, actuals);
    forall i | 0 <= i < |inputs|
      ensures inputs[i] == expected[i]
    {
      WrapperReads(w, fn, owned, prefix, call, store, actuals, i);
    }
    SameSequence(inputs, expected);
  }

  lemma StorageAfterCall<V(!new)>(w: Wrapper, fn: LibFunction, owned: map<string, string>, prefix: string,
                                  call: Interpretation<V>, store: map<string, V>, actuals: seq<V>, post: seq<V>, i: nat)
    requires Callable(fn, owned, call, store, actuals) && NamesApart(fn, owned) && Wraps(w, fn, owned, prefix)
    requires |post| == |fn.params| && i < |fn.params| && fn.params[i].IsStorage()
    ensures var after := AfterCall(w, Scope(Bind(w.params, actuals), store), w.callArgs, post);
      w.callArgs[i] in after.store && after.store[w.callArgs[i]] == post[i]
  {
    ScopeReads(fn, owned, store, actuals, i);
    AfterCallAt(w, Scope(Bind(w.params, actuals), store), w.callArgs, post, i);
  }

  lemma OtherStateAfterCall<V(!new)>(w: Wrapper, fn: LibFunction, owned: map<string, string>, prefix: string,
                                     call: Interpretation<V>, store: map<string, V>, actuals: seq<V>, post: seq<V>, x: string)
    requires Callable(fn, owned, call, store, actuals) && NamesApart(fn, owned) && Wraps(w, fn, owned, prefix)
    requires |post| == |fn.params| && x in store
    requires forall i :: 0 <= i < |fn.params| && fn.params[i].IsStorage() ==> w.callArgs[i] != x
    ensures var after := AfterCall(w, Scope(Bind(w.params, actuals), store), w.callArgs, post);
      x in after.store && after.store[x] == store[x]
  {
    if x in w.callArgs {
      var i :| 0 <= i < |w.callArgs| && w.callArgs[i] == x;
      ScopeReads(fn, owned, store, actuals, i);
    }
    AfterCallFrame(w, Scope(Bind(w.params, actuals), store), w.callArgs, post, x);
  }

  lemma MutatedAfterCall<V(!new)>(w: Wrapper, fn: LibFunction, owned: map<string, string>, prefix: string,
                                  call: Interpretation<V>, store: map<string, V>, actuals: seq<V>, post: seq<V>) returns (i: nat)
    requires Callable(fn, owned, call, store, actuals) && NamesApart(fn, owned) && Wraps(w, fn, owned, prefix)
    requires |post| == |fn.params| && MutatedMemoryParam(fn).Some?
    ensures i < |fn.params| && fn.params[i] == MemoryOnly(fn.params)[0]
    ensures w.returnsMutatedParam == Some(w.callArgs[i])
    ensures var after := AfterCall(w, Scope(Bind(w.params, actuals), store), w.callArgs, post);
      w.callArgs[i] in after.env && after.env[w.callArgs[i]] == post[i]
  {
    i := OnlyMemoryParam(fn.params);
    var k := |Exposed(fn.params[..i])|;
    ScopeReads(fn, owned, store, actuals, i);
    ExposedPosition(fn.params, i);
    assert w.params[k].name == fn.params[i].name && w.params[k].location == "memory";
    AfterCallAt(w, Scope(Bind(w.params, actuals), store), w.callArgs, post, i);
  }

  /**
   * A wrapper run on owned state leaves in each owned variable what the library function leaves in
   * that parameter, touches no other state, and returns what the function returns, or the mutated
   * array of a void function with one memory argument. This holds whatever name the wrapper has.
   */
  lemma WrapperFaithful<V(!new)>(w: Wrapper, fn: LibFunction, owned: map<string, string>, prefix: string,
                                 call: Interpretation<V>, store: map<string, V>, actuals: seq<V>)
    requires Callable(fn, owned, call, store, actuals) && NamesApart(fn, owned) && Wraps(w, fn, owned, prefix)
    ensures Runnable(w, call, store, actuals)
    ensures HasLibraryEffect(fn, owned, LibraryCall(fn, owned, call, store, actuals), store, Run(w, call, store, actuals))
  {
    WrapperRuns(w, fn, owned, prefix, call, store, actuals);
    WrapperInputs(w, fn, owned, prefix, call, store, actuals);
    var out := LibraryCall(fn, owned, call, store, actuals);
    forall i | 0 <= i < |fn.params| && fn.params[i].IsStorage()
      ensures var after := AfterCall(w, Scope(Bind(w.params, actuals), store), w.callArgs, out.post);
        w.callArgs[i] in after.store && after.store[w.callArgs[i]] == out.post[i]
    {
      StorageAfterCall(w, fn, owned, prefix, call, store, actuals, out.post, i);
    }
    forall x | x in store && (forall i :: 0 <= i < |fn.params| && fn.params[i].IsStorage() ==> w.callArgs[i] != x)
      ensures var after := AfterCall(w, Scope(Bind(w.params, actuals), store), w.callArgs, out.post);
        x in after.store && after.store[x] == store[x]
    {
      OtherStateAfterCall(w, fn, owned, prefix, call, store, actuals, out.post, x);
    }
    if MutatedMemoryParam(fn).Some? {
      var i := MutatedAfterCall(w, fn, owned, prefix, call, store, actuals, out.post);
      assert Run(w, call, store, actuals).returned == [out.post[i]];
    }
  }

  // ----- When variables coincide -----

  /** The interpretation that leaves `a` in parameter i and `b` in all others. */
  function Marking<V>(i: nat, a: V, b: V): Interpretation<V> {
    xs => Outcome(seq(|xs|, k => if k == i then a else b), [])
  }

  /** If two storage parameters share a variable, some call has an effect that no run can have. */
  lemma SharedVariableBreaks<V(!new)>(fn: LibFunction, owned: map<string, string>, i: nat, j: nat, a: V, b: V)
    returns (call: Interpretation<V>, store: map<string, V>, actuals: seq<V>)
    requires Owns(owned, fn.params) && i < j < |fn.params| && fn.params[i].IsStorage() && fn.params[j].IsStorage()
    requires CallArgs(fn.params, owned)[i] == CallArgs(fn.params, owned)[j] && a != b
    ensures Callable(fn, owned, call, store, actuals)
    ensures forall e :: !HasLibraryEffect(fn, owned, LibraryCall(fn, owned, call, store, actuals), store, e)
  {
    call, actuals := Marking(i, a, b), seq(|Exposed(fn.params)|, _ => a);
    store := map t | t in owned :: owned[t] := a;
    forall k | 0 <= k < |fn.params| && fn.params[k].IsStorage()
      ensures owned[fn.params[k].solidityType] in store
    {
      assert fn.params[k].solidityType in owned;
    }
    var out := LibraryCall(fn, owned, call, store, actuals);
    assert out.post[i] == a && out.post[j] == b;
  }

  // ----- When the names are apart -----

  lemma OwnedPrefix(solidityType: string, libraryName: string)
    ensures "_certoraStore_" <= OwnedVarName(solidityType, libraryName)
  {
  }

  /**
   * Distinct parameter names, pairwise different storage types whose short names differ, and no
   * parameter named like an owned variable suffice.
   */
  lemma NamesAreApart(fn: LibFunction, owned: map<string, string>, libraryName: string)
    requires Owns(owned, fn.params)
    requires forall t :: t in owned ==> owned[t] == OwnedVarName(t, libraryName)
    requires ProperNames(fn) && StorageNamesDiffer(fn, libraryName)
    ensures NamesApart(fn, owned)
  {
    var args := CallArgs(fn.params, owned);
    forall i, j | 0 <= i < j < |args|
      ensures args[i] != args[j]
    {
      var p, q := fn.params[i], fn.params[j];
      if p.IsStorage() && q.IsStorage() {
        assert args[i][14..] == ShortTypeName(p.solidityType, libraryName);
        assert args[j][14..] == ShortTypeName(q.solidityType, libraryName);
      } else if p.IsStorage() {
        OwnedPrefix(p.solidityType, libraryName);
      } else if q.IsStorage() {
        OwnedPrefix(q.solidityType, libraryName);
      }
    }
  }

  predicate StorageNamesDiffer(fn: LibFunction, libraryName: string) {
    forall i, j :: 0 <= i < j < |fn.params| && fn.params[i].IsStorage() && fn.params[j].IsStorage() ==>
      ShortTypeName(fn.params[i].solidityType, libraryName) != ShortTypeName(fn.params[j].solidityType, libraryName)
  }

  /** Parameter names that a Solidity function can have next to the harness's own variables. */
  predicate ProperNames(fn: LibFunction) {
    && (forall i, j :: 0 <= i < j < |fn.params| ==> fn.params[i].name != fn.params[j].name)
    && forall i :: 0 <= i < |fn.params| && !fn.params[i].IsStorage() ==> !("_certoraStore_" <= fn.params[i].name)
  }

  /** Running the wrapper has the library's effect, or the call itself is not proper. */
  ghost predicate FaithfulFor<V(!new)>(w: Wrapper, fn: LibFunction, owned: map<string, string>,
                                       call: Interpretation<V>, store: map<string, V>, actuals: seq<V>)
  {
    Callable(fn, owned, call, store, actuals) ==>
      && Runnable(w, call, store, actuals)
      && HasLibraryEffect(fn, owned, LibraryCall(fn, owned, call, store, actuals), store, Run(w, call, store, actuals))
  }

  /**
   * With values that can differ, a wrapper is faithful for every interpretation, state and
   * arguments exactly when its storage parameters have pairwise different type names.
   */
  lemma FaithfulIffNamesDiffer<V(!new)>(w: Wrapper, fn: LibFunction, owned: map<string, string>, prefix: string,
                                        libraryName: string, a: V, b: V)
    requires Owns(owned, fn.params) && Wraps(w, fn, owned, prefix) && ProperNames(fn) && a != b
    requires forall t :: t in owned ==> owned[t] == OwnedVarName(t, libraryName)
    ensures (forall call: Interpretation<V>, store: map<string, V>, actuals: seq<V> ::
               FaithfulFor(w, fn, owned, call, store, actuals))
       <==> StorageNamesDiffer(fn, libraryName)
  {
    if StorageNamesDiffer(fn, libraryName) {
      NamesAreApart(fn, owned, libraryName);
      forall call: Interpretation<V>, store: map<string, V>, actuals: seq<V>
        ensures FaithfulFor(w, fn, owned, call, store, actuals)
      {
        ApartIsFaithful(w, fn, owned, prefix, call, store, actuals);
      }
    } else {
      var call, store, actuals := SameNameBreaks(w, fn, owned, libraryName, a, b);
    }
  }

  lemma ApartIsFaithful<V(!new)>(w: Wrapper, fn: LibFunction, owned: map<string, string>, prefix: string,
                                 call: Interpretation<V>, store: map<string, V>, actuals: seq<V>)
    requires Owns(owned, fn.params) && Wraps(w, fn, owned, prefix) && NamesApart(fn, owned)
    ensures FaithfulFor(w, fn, owned, call, store, actuals)
  {
    if Callable(fn, owned, call, store, actuals) {
      WrapperFaithful(w, fn, owned, prefix, call, store, actuals);
    }
  }

  lemma SameNameBreaks<V(!new)>(w: Wrapper, fn: LibFunction, owned: map<string, string>, libraryName: string, a: V, b: V)
    returns (call: Interpretation<V>, store: map<string, V>, actuals: seq<V>)
    requires Owns(owned, fn.params) && a != b && !StorageNamesDiffer(fn, libraryName)
    requires forall t :: t in owned ==> owned[t] == OwnedVarName(t, libraryName)
    ensures !FaithfulFor(w, fn, owned, call, store, actuals)
  {
    var i, j :| 0 <= i < j < |fn.params| && fn.params[i].IsStorage() && fn.params[j].IsStorage()
      && ShortTypeName(fn.params[i].solidityType, libraryName) == ShortTypeName(fn.params[j].solidityType, libraryName);
    SameVariable(fn, owned, libraryName, i, j);
    call, store, actuals := SharedVariableBreaks(fn, owned, i, j, a, b);
  }

  lemma SameVariable(fn: LibFunction, owned: map<string, string>, libraryName: string, i: nat, j: nat)
    requires Owns(owned, fn.params) && i < |fn.params| && j < |fn.params|
    requires fn.params[i].IsStorage() && fn.params[j].IsStorage()
    requires owned[fn.params[i].solidityType] == OwnedVarName(fn.params[i].solidityType, libraryName)
    requires owned[fn.params[j].solidityType] == OwnedVarName(fn.params[j].solidityType, libraryName)
    requires ShortTypeName(fn.params[i].solidityType, libraryName) == ShortTypeName(fn.params[j].solidityType, libraryName)
    ensures CallArgs(fn.params, owned)[i] == CallArgs(fn.params, owned)[j]
  {
  }

  /** Different storage types are not enough: these two are given one variable. */
  lemma OwnedVariablesCanCoincide()
    ensures "A.B" != "A_B" && OwnedVarName("A.B", "Lib") == OwnedVarName("A_B", "Lib")
  {
    assert Collapse("A.B", false) == Collapse("A_B", false) by {
      assert "A.B"[1..] == ".B" && "A_B"[1..] == "_B" && ".B"[1..] == "B" == "_B"[1..];
    }
    assert !("Lib." <= "A.B") && !("Lib." <= "A_B");
  }
}
