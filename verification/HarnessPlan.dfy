/** From wrappable library functions to named wrappers, and what running a wrapper does. */
module HarnessPlan {
  import opened Options
  import opened Text
  import opened HarnessModel
  import opened HarnessNames
  import Mangling
  import MangleConvergence

  function OwnedVarName(solidityType: string, libraryName: string): string {
    "_certoraStore_" + ShortTypeName(solidityType, libraryName)
  }

  // ----- Building wrappers -----

  function Expose(p: LibParam): LibParam {
    LibParam(p.name, p.solidityType, if p.IsReference() then "memory" else "")
  }

  function Exposed(ps: seq<LibParam>): seq<LibParam> {
    if ps == [] then []
    else
      var last := ps[|ps| - 1];
      Exposed(ps[..|ps| - 1]) + if last.IsStorage() then [] else [Expose(last)]
  }

  function CallArg(p: LibParam, owned: map<string, string>): string
    requires p.IsStorage() ==> p.solidityType in owned
  {
    if p.IsStorage() then owned[p.solidityType] else p.name
  }

  predicate Owns(owned: map<string, string>, ps: seq<LibParam>) {
    forall i :: 0 <= i < |ps| && ps[i].IsStorage() ==> ps[i].solidityType in owned
  }

  function MemoryOnly(ps: seq<LibParam>): seq<LibParam> {
    if ps == [] then []
    else (if ps[0].location == "memory" then [ps[0]] else []) + MemoryOnly(ps[1..])
  }

  /** A function without results and with a single memory parameter is taken to work on that parameter. */
  function MutatedMemoryParam(fn: LibFunction): Option<LibParam> {
    if fn.results != [] || |MemoryOnly(fn.params)| != 1 then None else Some(MemoryOnly(fn.params)[0])
  }

  function CallArgs(ps: seq<LibParam>, owned: map<string, string>): seq<string>
    requires Owns(owned, ps)
  {
    seq(|ps|, i requires 0 <= i < |ps| => CallArg(ps[i], owned))
  }

  function Returned(fn: LibFunction): seq<LibParam> {
    match MutatedMemoryParam(fn)
    case Some(p) => [LibParam("", p.solidityType, "memory")]
    case None => seq(|fn.results|, i requires 0 <= i < |fn.results| => Expose(fn.results[i]))
  }

  function MutatedName(fn: LibFunction): Option<string> {
    match MutatedMemoryParam(fn)
    case Some(p) => Some(p.name)
    case None => None
  }

  function Mutability(fn: LibFunction, bindsState: bool): string {
    if bindsState && fn.stateMutability == "pure" then "view" else fn.stateMutability
  }

  function WrapperOf(fn: LibFunction, owned: map<string, string>): Wrapper
    requires Owns(owned, fn.params)
  {
    Wrapper(fn.name, fn.name, Exposed(fn.params), Returned(fn), Mutability(fn, fn.StorageParams() != []),
            CallArgs(fn.params, owned), MutatedName(fn))
  }

  lemma {:induction false} NoStorageParams(ps: seq<LibParam>)
    ensures StorageOnly(ps) != [] <==> exists i :: 0 <= i < |ps| && ps[i].IsStorage()
  {
    if ps != [] {
      NoStorageParams(ps[1..]);
      if i :| 0 <= i < |ps| && ps[i].IsStorage() {
        assert i == 0 || ps[1..][i - 1].IsStorage();
      }
    }
  }

  lemma ExposedNext(ps: seq<LibParam>, i: nat)
    requires i < |ps|
    ensures Exposed(ps[..i + 1]) == Exposed(ps[..i]) + (if ps[i].IsStorage() then [] else [Expose(ps[i])])
  {
    assert ps[..i + 1][..i] == ps[..i] && ps[..i + 1][i] == ps[i];
  }

  /** Parameter, argument and state flag for one parameter. */
  method SplitParam(param: LibParam, owned: map<string, string>)
    returns (exposed: seq<LibParam>, callArg: string, bindsState: bool)
    requires param.IsStorage() ==> param.solidityType in owned
    ensures exposed == if param.IsStorage() then [] else [Expose(param)]
    ensures callArg == CallArg(param, owned) && bindsState == param.IsStorage()
  {
    if param.IsStorage() {
      return [], owned[param.solidityType], true;
    }
    return [Expose(param)], param.name, false;
  }

  predicate AnyStorage(ps: seq<LibParam>, upto: nat)
    requires upto <= |ps|
  {
    exists j :: 0 <= j < upto && ps[j].IsStorage()
  }

  lemma AnyStorageNext(ps: seq<LibParam>, i: nat)
    requires i < |ps|
    ensures AnyStorage(ps, i + 1) <==> AnyStorage(ps, i) || ps[i].IsStorage()
  {
  }

  /** What the first n parameters have given. */
  ghost predicate SplitSoFar(ps: seq<LibParam>, owned: map<string, string>, n: nat,
                             exposed: seq<LibParam>, callArgs: seq<string>, bindsState: bool)
    requires n <= |ps| && Owns(owned, ps)
  {
    && exposed == Exposed(ps[..n])
    && |callArgs| == n && (forall j :: 0 <= j < n ==> callArgs[j] == CallArg(ps[j], owned))
    && (bindsState <==> AnyStorage(ps, n))
  }

  lemma SplitNext(ps: seq<LibParam>, owned: map<string, string>, n: nat,
                  exposed: seq<LibParam>, callArgs: seq<string>, bindsState: bool)
    requires n < |ps| && Owns(owned, ps) && SplitSoFar(ps, owned, n, exposed, callArgs, bindsState)
    ensures SplitSoFar(ps, owned, n + 1, exposed + (if ps[n].IsStorage() then [] else [Expose(ps[n])]),
                       callArgs + [CallArg(ps[n], owned)], bindsState || ps[n].IsStorage())
  {
    ExposedNext(ps, n);
    AnyStorageNext(ps, n);
  }

  method SplitParams(params: seq<LibParam>, owned: map<string, string>)
    returns (exposed: seq<LibParam>, callArgs: seq<string>, bindsState: bool)
    requires Owns(owned, params)
    ensures exposed == Exposed(params) && callArgs == CallArgs(params, owned)
    ensures bindsState <==> StorageOnly(params) != []
  {
    exposed, callArgs, bindsState := [], [], false;
    for i := 0 to |params|
      invariant SplitSoFar(params, owned, i, exposed, callArgs, bindsState)
    {
      SplitNext(params, owned, i, exposed, callArgs, bindsState);
      var more, callArg, binds := SplitParam(params[i], owned);
      exposed, callArgs, bindsState := exposed + more, callArgs + [callArg], bindsState || binds;
    }
    assert params[..|params|] == params;
    NoStorageParams(params);
  }

  method BuildWrapper(fn: LibFunction, owned: map<string, string>) returns (w: Wrapper)
    requires Owns(owned, fn.params)
    ensures w == WrapperOf(fn, owned)
  {
    var exposed, callArgs, bindsState := SplitParams(fn.params, owned);
    w := Wrapper(fn.name, fn.name, exposed, Returned(fn), Mutability(fn, bindsState), callArgs, MutatedName(fn));
  }

  ghost predicate UsesType(ps: seq<LibParam>, t: string) {
    exists j :: 0 <= j < |ps| && ps[j].IsStorage() && ps[j].solidityType == t
  }

  ghost predicate UsedBySome(fns: seq<LibFunction>, t: string) {
    exists i :: 0 <= i < |fns| && UsesType(fns[i].params, t)
  }

  /** The storage types that the harness owns a variable for, with the variable's name. */
  ghost predicate OwnsExactly(owned: map<string, string>, fns: seq<LibFunction>, libraryName: string) {
    && (forall i :: 0 <= i < |fns| ==> Owns(owned, fns[i].params))
    && (forall t :: t in owned ==> owned[t] == OwnedVarName(t, libraryName))
    && (forall t :: t in owned ==> UsedBySome(fns, t))
  }

  method CollectFrom(params: seq<LibParam>, libraryName: string, before: map<string, string>)
    returns (owned: map<string, string>)
    ensures Owns(owned, params)
    ensures forall t :: t in before ==> t in owned && owned[t] == before[t]
    ensures forall t :: t in owned && t !in before ==> owned[t] == OwnedVarName(t, libraryName) && UsesType(params, t)
  {
    owned := before;
    for j := 0 to |params|
      invariant Owns(owned, params[..j])
      invariant forall t :: t in before ==> t in owned && owned[t] == before[t]
      invariant forall t :: t in owned && t !in before ==> owned[t] == OwnedVarName(t, libraryName) && UsesType(params, t)
    {
      if params[j].IsStorage() && params[j].solidityType !in owned {
        owned := owned[params[j].solidityType := OwnedVarName(params[j].solidityType, libraryName)];
      }
    }
    assert params[..|params|] == params;
  }

  lemma UsedByMore(fns: seq<LibFunction>, n: nat, t: string)
    requires n < |fns|
    ensures UsedBySome(fns[..n], t) || UsesType(fns[n].params, t) ==> UsedBySome(fns[..n + 1], t)
  {
    var front, longer := fns[..n], fns[..n + 1];
    assert longer[n] == fns[n];
    assert forall k :: 0 <= k < n ==> longer[k] == front[k];
  }

  lemma OwnsMore(fns: seq<LibFunction>, n: nat, before: map<string, string>, owned: map<string, string>, libraryName: string)
    requires n < |fns| && OwnsExactly(before, fns[..n], libraryName) && Owns(owned, fns[n].params)
    requires forall t :: t in before ==> t in owned && owned[t] == before[t]
    requires forall t :: t in owned && t !in before ==> owned[t] == OwnedVarName(t, libraryName) && UsesType(fns[n].params, t)
    ensures OwnsExactly(owned, fns[..n + 1], libraryName)
  {
    var longer := fns[..n + 1];
    forall i | 0 <= i < |longer|
      ensures Owns(owned, longer[i].params)
    {
      assert i < n ==> longer[i] == fns[..n][i];
    }
    forall t | t in owned
      ensures UsedBySome(longer, t)
    {
      UsedByMore(fns, n, t);
    }
  }

  method CollectOwned(fns: seq<LibFunction>, libraryName: string) returns (owned: map<string, string>)
    ensures OwnsExactly(owned, fns, libraryName)
  {
    owned := map[];
    for i := 0 to |fns|
      invariant OwnsExactly(owned, fns[..i], libraryName)
    {
      ghost var before := owned;
      owned := CollectFrom(fns[i].params, libraryName, owned);
      OwnsMore(fns, i, before, owned, libraryName);
    }
    assert fns[..|fns|] == fns;
  }

  /** `w` is the wrapper of `fn` under some name that starts with `prefix`. */
  ghost predicate Wraps(w: Wrapper, fn: LibFunction, owned: map<string, string>, prefix: string)
    requires Owns(owned, fn.params)
  {
    w == WrapperOf(fn, owned).(name := w.name) && prefix <= w.name
  }

  // ----- The wrapper in terms of the function alone -----

  predicate HasStorage(fn: LibFunction) {
    exists k :: 0 <= k < |fn.params| && fn.params[k].location == "storage"
  }

  /** All but the storage parameters, in order; references are passed in memory. */
  predicate PassedOn(ps: seq<LibParam>, qs: seq<LibParam>) {
    if ps == [] then qs == []
    else if ps[0].location == "storage" then PassedOn(ps[1..], qs)
    else
      && qs != [] && qs[0].name == ps[0].name && qs[0].solidityType == ps[0].solidityType
      && qs[0].location == (if ps[0].location == "memory" || ps[0].location == "calldata" then "memory" else "")
      && PassedOn(ps[1..], qs[1..])
  }

  predicate OnlyMemoryAt(ps: seq<LibParam>, k: nat) {
    && k < |ps| && ps[k].location == "memory"
    && forall m :: 0 <= m < |ps| && m != k ==> ps[m].location != "memory"
  }

  /** Results are handed on in memory; a function without any returns its one memory parameter. */
  ghost predicate Returns(fn: LibFunction, w: Wrapper) {
    && (fn.results != [] ==>
          && |w.results| == |fn.results| && w.returnsMutatedParam == None
          && forall k :: 0 <= k < |fn.results| ==>
               && w.results[k].name == fn.results[k].name && w.results[k].solidityType == fn.results[k].solidityType
               && w.results[k].location == (if IsReferenceLocation(fn.results[k].location) then "memory" else ""))
    && (fn.results == [] && (forall k: nat :: !OnlyMemoryAt(fn.params, k)) ==> w.results == [] && w.returnsMutatedParam == None)
    && (fn.results == [] ==> forall k: nat :: OnlyMemoryAt(fn.params, k) ==>
          w.results == [LibParam("", fn.params[k].solidityType, "memory")] && w.returnsMutatedParam == Some(fn.params[k].name))
  }

  predicate IsReferenceLocation(location: string) {
    location == "storage" || location == "memory" || location == "calldata"
  }

  /** Argument k is the parameter's name, or the variable of its storage type. */
  ghost predicate Passes(p: LibParam, arg: string, libraryName: string) {
    && (p.location != "storage" ==> arg == p.name)
    && (p.location == "storage" ==>
          forall t :: Alphanumeric(t) && p.solidityType == libraryName + "." + t ==> arg == "_certoraStore_" + t)
  }

  /** All that a wrapper is, other than its name. */
  ghost predicate IsWrapperOf(fn: LibFunction, w: Wrapper, libraryName: string) {
    && w.libraryFunction == fn.name && PassedOn(fn.params, w.params) && Returns(fn, w)
    && w.stateMutability == (if fn.stateMutability == "pure" && HasStorage(fn) then "view" else fn.stateMutability)
    && |w.callArgs| == |fn.params|
    && forall k :: 0 <= k < |fn.params| ==> Passes(fn.params[k], w.callArgs[k], libraryName)
  }

  lemma {:induction false} ExposedFirst(ps: seq<LibParam>)
    requires ps != []
    ensures Exposed(ps) == (if ps[0].IsStorage() then [] else [Expose(ps[0])]) + Exposed(ps[1..])
    decreases |ps|
  {
    var last := |ps| - 1;
    if last > 0 {
      ExposedFirst(ps[..last]);
      assert ps[..last][1..] == ps[1..][..last - 1];
      Associative(if ps[0].IsStorage() then [] else [Expose(ps[0])], Exposed(ps[1..][..last - 1]),
                  if ps[last].IsStorage() then [] else [Expose(ps[last])]);
    } else {
      assert ps[..0] == [] && ps[1..] == [];
      assert Exposed(ps) == [] + (if ps[0].IsStorage() then [] else [Expose(ps[0])]);
    }
  }

  lemma {:induction false} ExposedIsPassedOn(ps: seq<LibParam>)
    ensures PassedOn(ps, Exposed(ps))
    decreases |ps|
  {
    if ps != [] {
      ExposedFirst(ps);
      ExposedIsPassedOn(ps[1..]);
      assert [] + Exposed(ps[1..]) == Exposed(ps[1..]);
      assert ([Expose(ps[0])] + Exposed(ps[1..]))[1..] == Exposed(ps[1..]);
    }
  }

  lemma {:induction false} OneMemoryParam(ps: seq<LibParam>, k: nat)
    requires OnlyMemoryAt(ps, k)
    ensures MemoryOnly(ps) == [ps[k]]
  {
    if k > 0 {
      assert OnlyMemoryAt(ps[1..], k - 1);
      OneMemoryParam(ps[1..], k - 1);
    } else {
      NoMemoryParam(ps[1..]);
    }
  }

  lemma {:induction false} NoMemoryParam(ps: seq<LibParam>)
    requires forall m :: 0 <= m < |ps| ==> ps[m].location != "memory"
    ensures MemoryOnly(ps) == []
  {
    if ps != [] {
      NoMemoryParam(ps[1..]);
    }
  }

  lemma {:induction false} MemoryParamAt(ps: seq<LibParam>) returns (k: nat)
    requires |MemoryOnly(ps)| == 1
    ensures OnlyMemoryAt(ps, k)
  {
    if ps[0].location == "memory" {
      k := 0;
      NoneInMemory(ps[1..]);
    } else {
      k := MemoryParamAt(ps[1..]);
      k := k + 1;
    }
  }

  lemma {:induction false} NoneInMemory(ps: seq<LibParam>)
    requires MemoryOnly(ps) == []
    ensures forall m :: 0 <= m < |ps| ==> ps[m].location != "memory"
  {
    if ps != [] {
      NoneInMemory(ps[1..]);
    }
  }

  lemma ReturnsAsGiven(fn: LibFunction, owned: map<string, string>)
    requires Owns(owned, fn.params)
    ensures Returns(fn, WrapperOf(fn, owned))
  {
    var w := WrapperOf(fn, owned);
    if fn.results == [] && |MemoryOnly(fn.params)| == 1 {
      var k := MemoryParamAt(fn.params);
    }
    forall k: nat | OnlyMemoryAt(fn.params, k)
      ensures fn.results == [] ==>
                w.results == [LibParam("", fn.params[k].solidityType, "memory")] && w.returnsMutatedParam == Some(fn.params[k].name)
    {
      OneMemoryParam(fn.params, k);
    }
  }

  /** A wrapper is what it is to be, whatever the owned variables are named after. */
  lemma WrapperIsAsGiven(fn: LibFunction, owned: map<string, string>, libraryName: string)
    requires Owns(owned, fn.params) && forall t :: t in owned ==> owned[t] == OwnedVarName(t, libraryName)
    ensures IsWrapperOf(fn, WrapperOf(fn, owned), libraryName)
  {
    ReturnsAsGiven(fn, owned);
    ExposedIsPassedOn(fn.params);
    NoStorageParams(fn.params);
    forall k | 0 <= k < |fn.params|
      ensures Passes(fn.params[k], WrapperOf(fn, owned).callArgs[k], libraryName)
    {
      ArgumentIsPassed(fn.params[k], owned, libraryName);
    }
  }

  lemma ArgumentIsPassed(p: LibParam, owned: map<string, string>, libraryName: string)
    requires p.IsStorage() ==> p.solidityType in owned && owned[p.solidityType] == OwnedVarName(p.solidityType, libraryName)
    ensures Passes(p, CallArg(p, owned), libraryName)
  {
    forall t | Alphanumeric(t) && p.solidityType == libraryName + "." + t
      ensures OwnedVarName(p.solidityType, libraryName) == "_certoraStore_" + t
    {
      OwnTypeName(libraryName, t);
    }
  }

  // ----- The plan -----

  method BuildEscaped(fn: LibFunction, owned: map<string, string>, escape: string -> string) returns (w: Wrapper)
    requires Owns(owned, fn.params)
    ensures Wraps(w, fn, owned, escape(fn.name)) && w.name == escape(fn.name)
  {
    w := BuildWrapper(fn, owned);
    w := w.(name := escape(w.name));
  }

  method BuildWrappers(fns: seq<LibFunction>, owned: map<string, string>, escape: string -> string)
    returns (wrappers: seq<Wrapper>)
    requires forall i :: 0 <= i < |fns| ==> Owns(owned, fns[i].params)
    ensures |wrappers| == |fns|
    ensures forall i :: 0 <= i < |fns| ==>
      Wraps(wrappers[i], fns[i], owned, escape(fns[i].name)) && wrappers[i].name == escape(fns[i].name)
  {
    wrappers := [];
    for i := 0 to |fns|
      invariant |wrappers| == i
      invariant forall j :: 0 <= j < i ==>
        Wraps(wrappers[j], fns[j], owned, escape(fns[j].name)) && wrappers[j].name == escape(fns[j].name)
    {
      var w := BuildEscaped(fns[i], owned, escape);
      wrappers := wrappers + [w];
    }
  }

  /** Entry i is function i's wrapper. */
  ghost predicate AllAsGiven(fns: seq<LibFunction>, ws: seq<Wrapper>, libraryName: string) {
    |ws| == |fns| && forall i :: 0 <= i < |fns| ==> IsWrapperOf(fns[i], ws[i], libraryName)
  }

  ghost predicate AllWrap(fns: seq<LibFunction>, ws: seq<Wrapper>, owned: map<string, string>, escape: string -> string) {
    && |ws| == |fns| && (forall i :: 0 <= i < |fns| ==> Owns(owned, fns[i].params))
    && forall i :: 0 <= i < |fns| ==> Wraps(ws[i], fns[i], owned, escape(fns[i].name))
  }

  lemma WrapsMeansGiven(fns: seq<LibFunction>, ws: seq<Wrapper>, owned: map<string, string>, escape: string -> string,
                        libraryName: string)
    requires OwnsExactly(owned, fns, libraryName) && AllWrap(fns, ws, owned, escape)
    ensures AllAsGiven(fns, ws, libraryName)
  {
    forall i | 0 <= i < |fns|
      ensures IsWrapperOf(fns[i], ws[i], libraryName)
    {
      WrapperIsAsGiven(fns[i], owned, libraryName);
      assert Wraps(ws[i], fns[i], owned, escape(fns[i].name));
      RenamedIsGiven(fns[i], WrapperOf(fns[i], owned), ws[i], libraryName);
    }
  }

  lemma RenamedIsGiven(fn: LibFunction, w: Wrapper, w': Wrapper, libraryName: string)
    requires IsWrapperOf(fn, w, libraryName) && w' == w.(name := w'.name)
    ensures IsWrapperOf(fn, w', libraryName)
  {
  }

  ghost predicate NamedAs(ws: seq<Wrapper>, fns: seq<LibFunction>, escape: string -> string) {
    |ws| == |fns| && forall i :: 0 <= i < |fns| ==> ws[i].name == escape(fns[i].name)
  }

  ghost predicate DistinctKeys(ws: seq<Wrapper>) {
    forall i, j :: 0 <= i < j < |ws| ==> Mangling.AbiKey(ws[i]) != Mangling.AbiKey(ws[j])
  }

  /** Where tags tell the functions apart, they are named by their tags. */
  ghost predicate NamedIfTold(built: seq<Wrapper>, fns: seq<LibFunction>, libraryName: string, result: Option<seq<Wrapper>>) {
    forall ts :: Mangling.TagsTell(built, fns, libraryName, ts) ==> result.Some? && Mangling.NamedByTags(built, ts, result.value)
  }

  method BuildAll(fns: seq<LibFunction>, owned: map<string, string>, libraryName: string, escape: string -> string)
    returns (built: seq<Wrapper>)
    requires OwnsExactly(owned, fns, libraryName)
    ensures AllWrap(fns, built, owned, escape) && NamedAs(built, fns, escape) && AllAsGiven(fns, built, libraryName)
  {
    built := BuildWrappers(fns, owned, escape);
    WrapsMeansGiven(fns, built, owned, escape, libraryName);
  }

  method MangleAll(built: seq<Wrapper>, fns: seq<LibFunction>, owned: map<string, string>, libraryName: string,
                   escape: string -> string)
    returns (result: Option<seq<Wrapper>>)
    requires OwnsExactly(owned, fns, libraryName) && AllWrap(fns, built, owned, escape)
    ensures result.Some? ==> AllWrap(fns, result.value, owned, escape) && DistinctKeys(result.value)
    ensures NamedIfTold(built, fns, libraryName, result)
    ensures (forall i :: 0 <= i < |fns| ==> fns[i].StorageParams() == []) ==> result.Some?
  {
    result := Mangling.MangleCollisions(built, fns, libraryName);
    ghost var sx := Mangling.ReceiverSuffixes(fns, libraryName);
    if result.Some? {
      MangledStillWrap(built, fns, libraryName, owned, escape);
    } else if forall i :: 0 <= i < |sx| ==> sx[i].None? {
      MangleConvergence.NoReceiversConverges(built, sx);
    }
  }

  /**
   * The wrappers of a plan: built, escaped by `escape` (any function on names), then mangled.
   * Entry i still is function i's wrapper up to its name, and the ABI keys are distinct. Functions
   * with at most one receiver, of a library type, are named by their tags.
   */
  method PlanWrappers(fns: seq<LibFunction>, libraryName: string, escape: string -> string)
    returns (owned: map<string, string>, result: Option<seq<Wrapper>>, ghost built: seq<Wrapper>)
    ensures OwnsExactly(owned, fns, libraryName)
    ensures NamedAs(built, fns, escape) && AllAsGiven(fns, built, libraryName) && NamedIfTold(built, fns, libraryName, result)
    ensures result.Some? ==> AllAsGiven(fns, result.value, libraryName)
    ensures result.Some? ==> AllWrap(fns, result.value, owned, escape) && DistinctKeys(result.value)
    ensures (forall i :: 0 <= i < |fns| ==> fns[i].StorageParams() == []) ==> result.Some?
  {
    owned := CollectOwned(fns, libraryName);
    var wrappers := BuildAll(fns, owned, libraryName, escape);
    built := wrappers;
    result := MangleAll(wrappers, fns, owned, libraryName, escape);
    if result.Some? {
      WrapsMeansGiven(fns, result.value, owned, escape, libraryName);
    }
  }

  lemma MangledStillWrap(wrappers: seq<Wrapper>, fns: seq<LibFunction>, libraryName: string,
                         owned: map<string, string>, escape: string -> string)
    requires |wrappers| == |fns|
    requires forall i :: 0 <= i < |fns| ==> Owns(owned, fns[i].params)
    requires forall i :: 0 <= i < |fns| ==> Wraps(wrappers[i], fns[i], owned, escape(fns[i].name))
    requires Mangling.MangleWithin(wrappers, Mangling.ReceiverSuffixes(fns, libraryName), |fns| + 1).Some?
    ensures var r := Mangling.MangleWithin(wrappers, Mangling.ReceiverSuffixes(fns, libraryName), |fns| + 1).value;
      && |r| == |fns|
      && (forall i :: 0 <= i < |fns| ==> Wraps(r[i], fns[i], owned, escape(fns[i].name)))
      && (forall i, j :: 0 <= i < j < |fns| ==> Mangling.AbiKey(r[i]) != Mangling.AbiKey(r[j]))
  {
    var sx := Mangling.ReceiverSuffixes(fns, libraryName);
    var r := Mangling.MangleWithin(wrappers, sx, |fns| + 1).value;
    MangleConvergence.MangleSound(wrappers, sx, |fns| + 1);
    forall i | 0 <= i < |fns|
      ensures Wraps(r[i], fns[i], owned, escape(fns[i].name))
    {
      assert MangleConvergence.OnlyRenamed(wrappers[i], r[i]);
      assert Wraps(wrappers[i], fns[i], owned, escape(fns[i].name));
    }
  }
}
