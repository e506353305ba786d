/**
 * Collision mangling of the harness wrappers: rounds of renaming until no two wrappers share an
 * ABI key, within a fixed budget of rounds.
 */
module Mangling {
  import opened Options
  import opened Text
  import opened HarnessModel
  import opened HarnessNames

  type Key = (string, seq<string>)

  function Types(w: Wrapper): seq<string> {
    seq(|w.params|, i requires 0 <= i < |w.params| => w.params[i].solidityType)
  }

  function AbiKey(w: Wrapper): Key {
    (w.name, Types(w))
  }

  predicate EndsWithUnderscore(s: string) {
    s != "" && s[|s| - 1] == '_'
  }

  function Suffixed(name: string, suffix: string): string {
    if EndsWithUnderscore(name) then name + suffix else name + "_" + suffix
  }

  /** The suffix derived from a function's storage receivers, if it has any. */
  function ReceiverSuffix(fn: LibFunction, libraryName: string): Option<string> {
    var receivers := fn.StorageParams();
    if receivers == [] then None else Some(Join("_", ShortTypeNames(receivers, libraryName)))
  }

  function ReceiverSuffixes(fns: seq<LibFunction>, libraryName: string): seq<Option<string>> {
    seq(|fns|, i requires 0 <= i < |fns| => ReceiverSuffix(fns[i], libraryName))
  }

  // ----- One round, stated entry by entry -----

  /** The entries before `upto` with the given key, in order. */
  function IndicesOf(ws: seq<Wrapper>, key: Key, upto: nat): seq<nat>
    requires upto <= |ws|
  {
    if upto == 0 then []
    else IndicesOf(ws, key, upto - 1) + if AbiKey(ws[upto - 1]) == key then [upto - 1] else []
  }

  predicate Shares(ws: seq<Wrapper>, i: nat, j: nat) {
    i < |ws| && j < |ws| && i != j && AbiKey(ws[i]) == AbiKey(ws[j])
  }

  predicate Collides(ws: seq<Wrapper>, i: nat) {
    exists j: nat :: j < |ws| && Shares(ws, i, j)
  }

  predicate AnyCollision(ws: seq<Wrapper>) {
    exists i: nat :: i < |ws| && Collides(ws, i)
  }

  /** What distinguishes entry `i` inside its group: its receivers, else its ordinal. */
  function SuffixOf(ws: seq<Wrapper>, sx: seq<Option<string>>, i: nat): string
    requires i < |ws| == |sx|
  {
    match sx[i]
    case Some(s) => s
    case None => Decimal(|IndicesOf(ws, AbiKey(ws[i]), i)|)
  }

  function Renamed(ws: seq<Wrapper>, sx: seq<Option<string>>, i: nat): Wrapper
    requires i < |ws| == |sx|
  {
    ws[i].(name := Suffixed(ws[i].name, SuffixOf(ws, sx, i)))
  }

  function Round(ws: seq<Wrapper>, sx: seq<Option<string>>): (r: seq<Wrapper>)
    requires |ws| == |sx|
    ensures |r| == |ws|
  {
    seq(|ws|, i requires 0 <= i < |ws| => if Collides(ws, i) then Renamed(ws, sx, i) else ws[i])
  }

  function Rounds(ws: seq<Wrapper>, sx: seq<Option<string>>, k: nat): (r: seq<Wrapper>)
    requires |ws| == |sx|
    ensures |r| == |ws|
    decreases k
  {
    if k == 0 then ws else Rounds(Round(ws, sx), sx, k - 1)
  }

  /** Up to `budget` passes, each either accepting or renaming; `None` when the budget runs out. */
  function MangleWithin(ws: seq<Wrapper>, sx: seq<Option<string>>, budget: nat): Option<seq<Wrapper>>
    requires |ws| == |sx|
    decreases budget
  {
    if budget == 0 then None
    else if !AnyCollision(ws) then Some(ws)
    else MangleWithin(Round(ws, sx), sx, budget - 1)
  }

  // ----- Overloads told apart by what is behind an underscore -----

  /** The only storage parameter has the library's type `t`. */
  predicate ReceiverIs(fn: LibFunction, libraryName: string, t: string) {
    exists k :: 0 <= k < |fn.params| && OnlyStorageAt(fn.params, k) && fn.params[k].solidityType == libraryName + "." + t
  }

  predicate OnlyStorageAt(ps: seq<LibParam>, k: nat)
    requires k < |ps|
  {
    ps[k].location == "storage" && forall m :: 0 <= m < |ps| && m != k ==> ps[m].location != "storage"
  }

  predicate NoStorageIn(ps: seq<LibParam>) {
    forall m :: 0 <= m < |ps| ==> ps[m].location != "storage"
  }

  /** Equal names and parameter types. */
  predicate SameSignature(w: Wrapper, w': Wrapper) {
    && w.name == w'.name && |w.params| == |w'.params|
    && forall k :: 0 <= k < |w.params| ==> w.params[k].solidityType == w'.params[k].solidityType
  }

  predicate HasTwin(ws: seq<Wrapper>, i: nat)
    requires i < |ws|
  {
    exists j: nat :: j < |ws| && j != i && SameSignature(ws[i], ws[j])
  }

  /** How many of the first `upto` entries have the signature of entry i. */
  function TwinsBefore(ws: seq<Wrapper>, i: nat, upto: nat): nat
    requires i < |ws| && upto <= |ws|
  {
    if upto == 0 then 0
    else TwinsBefore(ws, i, upto - 1) + if SameSignature(ws[upto - 1], ws[i]) then 1 else 0
  }

  /** `t` is the type of the receiver of function i, or its number among its twins if it has none. */
  predicate TagIs(ws: seq<Wrapper>, originals: seq<LibFunction>, libraryName: string, i: nat, t: string)
    requires i < |ws| == |originals|
  {
    || (Alphanumeric(t) && !('0' <= t[0] <= '9') && ReceiverIs(originals[i], libraryName, t))
    || (NoStorageIn(originals[i].params) && t == Decimal(TwinsBefore(ws, i, i)))
  }

  /** No underscore, except at the end of a name that was escaped. */
  predicate PlainName(name: string) {
    forall i :: 0 <= i < |name| - 1 ==> name[i] != '_'
  }

  function WithoutUnderscore(name: string): string {
    if name != "" && name[|name| - 1] == '_' then name[..|name| - 1] else name
  }

  /** Each entry has its tag, and twins with receivers have different ones. */
  predicate TagsTell(ws: seq<Wrapper>, originals: seq<LibFunction>, libraryName: string, ts: seq<string>) {
    && |ws| == |originals| == |ts|
    && (forall i :: 0 <= i < |ws| ==> PlainName(ws[i].name) && TagIs(ws, originals, libraryName, i, ts[i]))
    && (forall i, j :: 0 <= i < |ws| && 0 <= j < |ws| && WithoutUnderscore(ws[i].name) == WithoutUnderscore(ws[j].name) ==>
          ws[i].name == ws[j].name)
    && (forall i, j :: 0 <= i < j < |ws| && SameSignature(ws[i], ws[j]) && !NoStorageIn(originals[i].params) ==> ts[i] != ts[j])
  }

  /** Twins have their tag behind one underscore; nothing else changes. */
  predicate NamedByTags(ws: seq<Wrapper>, ts: seq<string>, result: seq<Wrapper>)
    requires |ts| == |ws|
  {
    && |result| == |ws|
    && forall i :: 0 <= i < |ws| ==>
         result[i] == ws[i].(name := if HasTwin(ws, i) then WithoutUnderscore(ws[i].name) + "_" + ts[i] else ws[i].name)
  }

  lemma {:induction false} OneStorageParam(ps: seq<LibParam>, k: nat)
    requires k < |ps| && OnlyStorageAt(ps, k)
    ensures StorageOnly(ps) == [ps[k]]
  {
    if k > 0 {
      assert OnlyStorageAt(ps[1..], k - 1);
      OneStorageParam(ps[1..], k - 1);
    } else {
      NoStorageParam(ps[1..]);
    }
  }

  lemma {:induction false} NoStorageParam(ps: seq<LibParam>)
    requires NoStorageIn(ps)
    ensures StorageOnly(ps) == []
  {
    if ps != [] {
      NoStorageParam(ps[1..]);
    }
  }

  lemma {:induction false} StorageOnlyConcat(a: seq<LibParam>, b: seq<LibParam>)
    ensures StorageOnly(a + b) == StorageOnly(a) + StorageOnly(b)
  {
    if a == [] {
      assert a + b == b;
    } else {
      assert (a + b)[1..] == a[1..] + b;
      StorageOnlyConcat(a[1..], b);
      Associative(if a[0].IsStorage() then [a[0]] else [], StorageOnly(a[1..]), StorageOnly(b));
    }
  }

  lemma NextStorageParam(a: seq<LibParam>, p: LibParam, rest: seq<LibParam>)
    requires NoStorageIn(a) && p.location == "storage"
    ensures StorageOnly(a + ([p] + rest)) == [p] + StorageOnly(rest)
  {
    NoStorageParam(a);
    StorageOnlyConcat(a, [p] + rest);
    assert ([p] + rest)[0] == p && ([p] + rest)[1..] == rest;
    assert StorageOnly([p] + rest) == [p] + StorageOnly(rest);
    assert [] + ([p] + StorageOnly(rest)) == [p] + StorageOnly(rest);
  }

  /** Two receivers give both types, in order. */
  lemma TwoReceiversJoined(fn: LibFunction, libraryName: string, a: seq<LibParam>, p: LibParam, b: seq<LibParam>,
                           q: LibParam, c: seq<LibParam>, s: string, t: string)
    requires fn.params == a + ([p] + (b + ([q] + c))) && NoStorageIn(a) && NoStorageIn(b) && NoStorageIn(c)
    requires p.location == "storage" && p.solidityType == libraryName + "." + s && Alphanumeric(s)
    requires q.location == "storage" && q.solidityType == libraryName + "." + t && Alphanumeric(t)
    ensures ReceiverSuffix(fn, libraryName) == Some(s + "_" + t)
  {
    NextStorageParam(a, p, b + ([q] + c));
    NextStorageParam(b, q, c);
    NoStorageParam(c);
    TwoTypesJoined(fn, libraryName, p, q, s, t);
  }

  lemma TwoTypesJoined(fn: LibFunction, libraryName: string, p: LibParam, q: LibParam, s: string, t: string)
    requires fn.StorageParams() == [p] + ([q] + [])
    requires p.solidityType == libraryName + "." + s && Alphanumeric(s)
    requires q.solidityType == libraryName + "." + t && Alphanumeric(t)
    ensures ReceiverSuffix(fn, libraryName) == Some(s + "_" + t)
  {
    assert fn.StorageParams() == [p, q];
    OwnTypeName(libraryName, s);
    OwnTypeName(libraryName, t);
    assert ShortTypeNames([p, q], libraryName) == [s, t];
    assert [s, t][1..] == [t] && [p, q][1..] == [q];
    assert Join("_", [t]) == t;
  }

  lemma ReceiverIsSuffix(fn: LibFunction, libraryName: string, t: string)
    requires ReceiverIs(fn, libraryName, t) && Alphanumeric(t)
    ensures ReceiverSuffix(fn, libraryName) == Some(t)
  {
    var k: nat :| k < |fn.params| && OnlyStorageAt(fn.params, k) && fn.params[k].solidityType == libraryName + "." + t;
    OneStorageParam(fn.params, k);
    OwnTypeName(libraryName, t);
    assert ShortTypeNames([fn.params[k]], libraryName) == [t];
  }

  lemma {:induction false} TwinsAreIndices(ws: seq<Wrapper>, i: nat, upto: nat)
    requires i < |ws| && upto <= |ws|
    ensures TwinsBefore(ws, i, upto) == |IndicesOf(ws, AbiKey(ws[i]), upto)|
  {
    if upto > 0 {
      TwinsAreIndices(ws, i, upto - 1);
      SameTypes(ws[upto - 1], ws[i]);
    }
  }

  lemma {:induction false} NumeralStarts(n: nat)
    ensures Alphanumeric(Decimal(n)) && '0' <= Decimal(n)[0] <= '9'
  {
    assert AllDigits(Decimal(n));
  }

  lemma TagIsAlphanumeric(ws: seq<Wrapper>, originals: seq<LibFunction>, libraryName: string, i: nat, t: string)
    requires i < |ws| == |originals| && TagIs(ws, originals, libraryName, i, t)
    ensures Alphanumeric(t) && ('0' <= t[0] <= '9' <==> NoStorageIn(originals[i].params))
  {
    NumeralStarts(TwinsBefore(ws, i, i));
  }

  lemma TagIsSuffix(ws: seq<Wrapper>, originals: seq<LibFunction>, libraryName: string, i: nat, t: string)
    requires i < |ws| == |originals| && TagIs(ws, originals, libraryName, i, t)
    ensures SuffixOf(ws, ReceiverSuffixes(originals, libraryName), i) == t
  {
    if NoStorageIn(originals[i].params) {
      NoStorageParam(originals[i].params);
      TwinsAreIndices(ws, i, i);
    } else {
      ReceiverIsSuffix(originals[i], libraryName, t);
    }
  }

  lemma PlainIsSuffixed(name: string, t: string)
    ensures Suffixed(name, t) == WithoutUnderscore(name) + "_" + t
  {
    if EndsWithUnderscore(name) {
      assert name == WithoutUnderscore(name) + "_";
    }
  }

  lemma SameTypes(w: Wrapper, w': Wrapper)
    ensures SameSignature(w, w') <==> AbiKey(w) == AbiKey(w')
  {
    var ts, ts' := Types(w), Types(w');
    assert |ts| == |w.params| && |ts'| == |w'.params|;
    assert forall k :: 0 <= k < |ts| ==> ts[k] == w.params[k].solidityType;
    assert forall k :: 0 <= k < |ts'| ==> ts'[k] == w'.params[k].solidityType;
    if SameSignature(w, w') {
      assert ts == ts';
    } else if ts == ts' {
      assert w.name != w'.name;
    }
  }

  lemma SharesIsTwin(ws: seq<Wrapper>, i: nat, j: nat)
    requires i < |ws| && j < |ws|
    ensures Shares(ws, i, j) <==> i != j && SameSignature(ws[i], ws[j])
  {
    SameTypes(ws[i], ws[j]);
  }

  lemma CollidesIsTwin(ws: seq<Wrapper>, i: nat)
    requires i < |ws|
    ensures Collides(ws, i) <==> HasTwin(ws, i)
  {
    forall j: nat | j < |ws|
      ensures Shares(ws, i, j) <==> j != i && SameSignature(ws[i], ws[j])
    {
      SharesIsTwin(ws, i, j);
    }
  }

  /** Names without underscores are told apart from what comes behind the underscore. */
  lemma SplitAtUnderscore(name: string, t: string, name': string, t': string)
    requires '_' !in name && '_' !in name' && name + "_" + t == name' + "_" + t'
    ensures name == name' && t == t'
  {
    var s := name + "_" + t;
    assert s[|name|] == '_' && s[|name'|] == '_';
    assert forall i :: 0 <= i < |name| ==> s[i] == name[i] != '_';
    assert forall i :: 0 <= i < |name'| ==> s[i] == name'[i] != '_';
    assert |name| == |name'|;
    assert name == s[..|name|] == name' && t == s[|name| + 1..] == t';
  }

  lemma WithoutIsPlain(name: string)
    requires PlainName(name)
    ensures '_' !in WithoutUnderscore(name)
  {
  }

  lemma TaggedIsNew(name: string, t: string, name': string)
    requires PlainName(name') && Alphanumeric(t)
    ensures name + "_" + t != name'
  {
    assert (name + "_" + t)[|name|] == '_';
  }

  lemma TagsGiveNames(ws: seq<Wrapper>, originals: seq<LibFunction>, libraryName: string, ts: seq<string>)
    requires TagsTell(ws, originals, libraryName, ts)
    ensures NamedByTags(ws, ts, Round(ws, ReceiverSuffixes(originals, libraryName)))
  {
    forall i: nat | i < |ws|
      ensures Round(ws, ReceiverSuffixes(originals, libraryName))[i]
           == ws[i].(name := if HasTwin(ws, i) then WithoutUnderscore(ws[i].name) + "_" + ts[i] else ws[i].name)
    {
      TagIsSuffix(ws, originals, libraryName, i, ts[i]);
      PlainIsSuffixed(ws[i].name, ts[i]);
      CollidesIsTwin(ws, i);
    }
  }

  lemma OrdinalsTell(ws: seq<Wrapper>, i: nat, j: nat)
    requires i < j < |ws| && SameSignature(ws[i], ws[j])
    ensures Decimal(TwinsBefore(ws, i, i)) != Decimal(TwinsBefore(ws, j, j))
  {
    SameTypes(ws[i], ws[j]);
    TwinsAreIndices(ws, i, i);
    TwinsAreIndices(ws, j, j);
    IndicesComplete(ws, AbiKey(ws[j]), j, i);
    if Decimal(TwinsBefore(ws, i, i)) == Decimal(TwinsBefore(ws, j, j)) {
      DecimalInjective(TwinsBefore(ws, i, i), TwinsBefore(ws, j, j));
    }
  }

  lemma TwinTagsDiffer(ws: seq<Wrapper>, originals: seq<LibFunction>, libraryName: string, ts: seq<string>, i: nat, j: nat)
    requires TagsTell(ws, originals, libraryName, ts) && i < j < |ws| && SameSignature(ws[i], ws[j])
    ensures HasTwin(ws, i) && ts[i] != ts[j]
  {
    TagIsAlphanumeric(ws, originals, libraryName, i, ts[i]);
    TagIsAlphanumeric(ws, originals, libraryName, j, ts[j]);
    if NoStorageIn(originals[i].params) && NoStorageIn(originals[j].params) {
      OrdinalsTell(ws, i, j);
    }
  }

  lemma SameNamesBefore(ws: seq<Wrapper>, originals: seq<LibFunction>, libraryName: string, ts: seq<string>,
                        r: seq<Wrapper>, i: nat, j: nat)
    requires TagsTell(ws, originals, libraryName, ts) && NamedByTags(ws, ts, r)
    requires i < |ws| && j < |ws| && r[i].name == r[j].name
    ensures ws[i].name == ws[j].name && (HasTwin(ws, i) && HasTwin(ws, j) ==> ts[i] == ts[j])
  {
    var x, y := WithoutUnderscore(ws[i].name), WithoutUnderscore(ws[j].name);
    WithoutIsPlain(ws[i].name);
    WithoutIsPlain(ws[j].name);
    TagIsAlphanumeric(ws, originals, libraryName, i, ts[i]);
    TagIsAlphanumeric(ws, originals, libraryName, j, ts[j]);
    TaggedIsNew(x, ts[i], ws[j].name);
    TaggedIsNew(y, ts[j], ws[i].name);
    if HasTwin(ws, i) && HasTwin(ws, j) {
      SplitAtUnderscore(x, ts[i], y, ts[j]);
    }
  }

  lemma SameSignatureBefore(ws: seq<Wrapper>, originals: seq<LibFunction>, libraryName: string, ts: seq<string>,
                            r: seq<Wrapper>, i: nat, j: nat)
    requires TagsTell(ws, originals, libraryName, ts) && NamedByTags(ws, ts, r)
    requires i < j < |ws| && SameSignature(r[i], r[j])
    ensures SameSignature(ws[i], ws[j]) && ts[i] == ts[j]
  {
    SameNamesBefore(ws, originals, libraryName, ts, r, i, j);
    assert r[i].params == ws[i].params && r[j].params == ws[j].params;
    assert SameSignature(ws[i], ws[j]) && SameSignature(ws[j], ws[i]);
  }

  /** The given names collide no more. */
  lemma NamedPairsDiffer(ws: seq<Wrapper>, originals: seq<LibFunction>, libraryName: string, ts: seq<string>,
                         r: seq<Wrapper>, i: nat, j: nat)
    requires TagsTell(ws, originals, libraryName, ts) && NamedByTags(ws, ts, r) && i < j < |ws|
    ensures !SameSignature(r[i], r[j])
  {
    if SameSignature(r[i], r[j]) {
      SameSignatureBefore(ws, originals, libraryName, ts, r, i, j);
      TwinTagsDiffer(ws, originals, libraryName, ts, i, j);
    }
  }

  lemma TagsSettle(ws: seq<Wrapper>, originals: seq<LibFunction>, libraryName: string, ts: seq<string>)
    requires TagsTell(ws, originals, libraryName, ts)
    ensures !AnyCollision(Round(ws, ReceiverSuffixes(originals, libraryName)))
  {
    var r := Round(ws, ReceiverSuffixes(originals, libraryName));
    TagsGiveNames(ws, originals, libraryName, ts);
    forall i: nat, j: nat | i < j < |r|
      ensures !Shares(r, i, j) && !Shares(r, j, i)
    {
      SharesIsTwin(r, i, j);
      NamedPairsDiffer(ws, originals, libraryName, ts, r, i, j);
    }
  }

  /**
   * Functions with one receiver of a library type, or none, get the type or their number behind one
   * underscore where they have twins, and mangling succeeds.
   */
  lemma TagsAreNamed(ws: seq<Wrapper>, originals: seq<LibFunction>, libraryName: string, ts: seq<string>)
    requires TagsTell(ws, originals, libraryName, ts)
    ensures var result := MangleWithin(ws, ReceiverSuffixes(originals, libraryName), |ws| + 1);
      result.Some? && NamedByTags(ws, ts, result.value)
  {
    var sx := ReceiverSuffixes(originals, libraryName);
    TagsSettle(ws, originals, libraryName, ts);
    TagsGiveNames(ws, originals, libraryName, ts);
    if AnyCollision(ws) {
      assert MangleWithin(Round(ws, sx), sx, |ws|) == Some(Round(ws, sx));
    } else {
      NothingToRename(ws, sx);
    }
  }

  lemma NothingToRename(ws: seq<Wrapper>, sx: seq<Option<string>>)
    requires |ws| == |sx| && !AnyCollision(ws)
    ensures Round(ws, sx) == ws
  {
  }

  // ----- The algorithm -----

  lemma {:induction false} IndicesSound(ws: seq<Wrapper>, key: Key, upto: nat, p: nat)
    requires upto <= |ws| && p < |IndicesOf(ws, key, upto)|
    ensures IndicesOf(ws, key, upto)[p] < upto
    ensures AbiKey(ws[IndicesOf(ws, key, upto)[p]]) == key
  {
    if p < |IndicesOf(ws, key, upto - 1)| {
      IndicesSound(ws, key, upto - 1, p);
    }
  }

  lemma {:induction false} IndicesComplete(ws: seq<Wrapper>, key: Key, upto: nat, i: nat)
    requires i < upto <= |ws| && AbiKey(ws[i]) == key
    ensures |IndicesOf(ws, key, i)| < |IndicesOf(ws, key, upto)|
    ensures IndicesOf(ws, key, upto)[|IndicesOf(ws, key, i)|] == i
  {
    if i < upto - 1 {
      IndicesComplete(ws, key, upto - 1, i);
    }
  }

  /** A group has several members exactly when each of its members collides. */
  lemma CollidesIffGroup(ws: seq<Wrapper>, i: nat)
    requires i < |ws|
    ensures Collides(ws, i) <==> |IndicesOf(ws, AbiKey(ws[i]), |ws|)| > 1
  {
    var key := AbiKey(ws[i]);
    var g := IndicesOf(ws, key, |ws|);
    IndicesComplete(ws, key, |ws|, i);
    if Collides(ws, i) {
      var j: nat :| j < |ws| && Shares(ws, i, j);
      IndicesComplete(ws, key, |ws|, j);
    }
    if |g| > 1 {
      var p := |IndicesOf(ws, key, i)|;
      var q := if p == 0 then 1 else 0;
      IndicesDistinct(ws, key, |ws|, p, q);
      IndicesSound(ws, key, |ws|, q);
      assert Shares(ws, i, g[q]);
    }
  }

  lemma {:induction false} IndicesDistinct(ws: seq<Wrapper>, key: Key, upto: nat, p: nat, q: nat)
    requires upto <= |ws|
    requires p < |IndicesOf(ws, key, upto)| && q < |IndicesOf(ws, key, upto)| && p != q
    ensures IndicesOf(ws, key, upto)[p] != IndicesOf(ws, key, upto)[q]
  {
    var r := IndicesOf(ws, key, upto - 1);
    if p < |r| && q < |r| {
      IndicesDistinct(ws, key, upto - 1, p, q);
    } else {
      IndicesSound(ws, key, upto - 1, if p < |r| then p else q);
    }
  }

  lemma {:induction false} NoIndices(ws: seq<Wrapper>, key: Key, upto: nat)
    requires upto <= |ws| && forall i :: 0 <= i < upto ==> AbiKey(ws[i]) != key
    ensures IndicesOf(ws, key, upto) == []
  {
    if upto > 0 {
      NoIndices(ws, key, upto - 1);
    }
  }

  /** The first `upto` entries by key, each key listed once. */
  ghost predicate Grouped(ws: seq<Wrapper>, upto: nat, order: seq<Key>, grouped: map<Key, seq<nat>>)
    requires upto <= |ws|
  {
    && (forall key :: key in grouped ==> grouped[key] == IndicesOf(ws, key, upto))
    && (forall i :: 0 <= i < upto ==> AbiKey(ws[i]) in grouped)
    && SameKeys(order, grouped)
  }

  ghost predicate SameKeys<K(!new), V>(order: seq<K>, grouped: map<K, V>) {
    && (forall key :: key in grouped <==> key in order)
    && forall a, b :: 0 <= a < b < |order| ==> order[a] != order[b]
  }

  lemma KeyAdded<K(!new), V>(order: seq<K>, grouped: map<K, V>, key: K, value: V)
    requires SameKeys(order, grouped)
    ensures SameKeys(if key in grouped then order else order + [key], grouped[key := value])
  {
  }

  lemma GroupedNext(ws: seq<Wrapper>, index: nat, order: seq<Key>, grouped: map<Key, seq<nat>>)
    requires index < |ws| && Grouped(ws, index, order, grouped)
    ensures var key := AbiKey(ws[index]);
      Grouped(ws, index + 1, if key in grouped then order else order + [key],
              grouped[key := (if key in grouped then grouped[key] else []) + [index]])
  {
    var key := AbiKey(ws[index]);
    var members := (if key in grouped then grouped[key] else []) + [index];
    if key !in grouped {
      NoIndices(ws, key, index);
    }
    KeyAdded(order, grouped, key, members);
    var next := grouped[key := members];
    forall k | k in next
      ensures next[k] == IndicesOf(ws, k, index + 1)
    {
      if k != key {
        assert k in grouped && IndicesOf(ws, k, index + 1) == IndicesOf(ws, k, index) + [];
      }
    }
  }

  method AddToGroup(key: Key, index: nat, order: seq<Key>, grouped: map<Key, seq<nat>>)
    returns (order': seq<Key>, grouped': map<Key, seq<nat>>)
    ensures order' == if key in grouped then order else order + [key]
    ensures grouped' == grouped[key := (if key in grouped then grouped[key] else []) + [index]]
  {
    order', grouped' := order, grouped;
    if key !in grouped' {
      order', grouped' := order' + [key], grouped'[key := []];
    }
    grouped' := grouped'[key := grouped'[key] + [index]];
  }

  /** Groups the entries by key; the keys are listed in the order in which they first appear. */
  method GroupByKey(ws: seq<Wrapper>) returns (order: seq<Key>, grouped: map<Key, seq<nat>>)
    ensures Grouped(ws, |ws|, order, grouped)
  {
    order, grouped := [], map[];
    for index := 0 to |ws|
      invariant Grouped(ws, index, order, grouped)
    {
      GroupedNext(ws, index, order, grouped);
      order, grouped := AddToGroup(AbiKey(ws[index]), index, order, grouped);
    }
  }

  ghost predicate Processed(ws: seq<Wrapper>, keys: seq<Key>, i: nat) {
    i < |ws| && AbiKey(ws[i]) in keys
  }

  /** One pass: renames every member of every colliding group, or reports that there is none. */
  method RenameColliding(before: seq<Wrapper>, originals: seq<LibFunction>, libraryName: string)
    returns (anyColliding: bool, resolved: seq<Wrapper>)
    requires |before| == |originals|
    ensures anyColliding <==> AnyCollision(before)
    ensures resolved == Round(before, ReceiverSuffixes(originals, libraryName))
  {
    var order, grouped := GroupByKey(before);
    resolved, anyColliding := before, false;
    ghost var sx := ReceiverSuffixes(originals, libraryName);
    for g := 0 to |order|
      invariant |resolved| == |before|
      invariant forall i: nat :: i < |before| ==>
        resolved[i] == if Processed(before, order[..g], i) && Collides(before, i)
                       then Renamed(before, sx, i) else before[i]
      invariant anyColliding <==> exists i: nat :: Processed(before, order[..g], i) && Collides(before, i)
    {
      var indices := grouped[order[g]];
      PassStep(before, order, g);
      if |indices| > 1 {
        assert IndicesOf(before, order[g], |before|) == indices;
        IndicesSound(before, order[g], |before|, 0);
        assert Collides(before, indices[0]) && Processed(before, order[..g + 1], indices[0]);
        anyColliding := true;
        resolved := RenameGroup(before, resolved, indices, originals, libraryName, order[g]);
      }
    }
    assert order[..|order|] == order;
    forall i: nat | i < |before| ensures Processed(before, order, i) {}
  }

  lemma PassStep(ws: seq<Wrapper>, order: seq<Key>, g: nat)
    requires g < |order| && forall a, b :: 0 <= a < b < |order| ==> order[a] != order[b]
    ensures forall i: nat :: i < |ws| ==>
      (Processed(ws, order[..g + 1], i) <==> Processed(ws, order[..g], i) || AbiKey(ws[i]) == order[g])
    ensures forall i: nat :: i < |ws| && AbiKey(ws[i]) == order[g] ==>
      !Processed(ws, order[..g], i)
      && (Collides(ws, i) <==> |IndicesOf(ws, order[g], |ws|)| > 1)
  {
    assert order[..g + 1] == order[..g] + [order[g]];
    forall i: nat | i < |ws| && AbiKey(ws[i]) == order[g]
      ensures !Processed(ws, order[..g], i) && (Collides(ws, i) <==> |IndicesOf(ws, order[g], |ws|)| > 1)
    {
      CollidesIffGroup(ws, i);
    }
  }

  method MangleCollisions(wrappers: seq<Wrapper>, originals: seq<LibFunction>, libraryName: string)
    returns (result: Option<seq<Wrapper>>)
    requires |wrappers| == |originals|
    ensures result == MangleWithin(wrappers, ReceiverSuffixes(originals, libraryName), |wrappers| + 1)
    ensures forall ts :: TagsTell(wrappers, originals, libraryName, ts) ==>
      result.Some? && NamedByTags(wrappers, ts, result.value)
  {
    forall ts | TagsTell(wrappers, originals, libraryName, ts)
      ensures var mangled := MangleWithin(wrappers, ReceiverSuffixes(originals, libraryName), |wrappers| + 1);
        mangled.Some? && NamedByTags(wrappers, ts, mangled.value)
    {
      TagsAreNamed(wrappers, originals, libraryName, ts);
    }
    var resolved := wrappers;
    ghost var sx := ReceiverSuffixes(originals, libraryName);
    for pass := 0 to |wrappers| + 1
      invariant |resolved| == |wrappers|
      invariant MangleWithin(wrappers, sx, |wrappers| + 1) == MangleWithin(resolved, sx, |wrappers| + 1 - pass)
    {
      var anyColliding, next := RenameColliding(resolved, originals, libraryName);
      if !anyColliding {
        return Some(resolved);
      }
      resolved := next;
    }
    result := None;
  }

  /** Renames the members of one colliding group in place, leaving the other entries alone. */
  method RenameGroup(ghost before: seq<Wrapper>, wrappers: seq<Wrapper>, indices: seq<nat>,
                     originals: seq<LibFunction>, libraryName: string, ghost key: Key)
    returns (resolved: seq<Wrapper>)
    requires |wrappers| == |before| == |originals|
    requires indices == IndicesOf(before, key, |before|)
    requires forall i :: 0 <= i < |before| && AbiKey(before[i]) == key ==> wrappers[i] == before[i]
    ensures |resolved| == |wrappers|
    ensures forall i: nat :: i < |before| ==>
      resolved[i] == if AbiKey(before[i]) == key
                     then Renamed(before, ReceiverSuffixes(originals, libraryName), i) else wrappers[i]
  {
    resolved := wrappers;
    ghost var sx := ReceiverSuffixes(originals, libraryName);
    for ordinal := 0 to |indices|
      invariant |resolved| == |wrappers|
      invariant forall i: nat :: i < |before| ==>
        resolved[i] == if AbiKey(before[i]) == key && |IndicesOf(before, key, i)| < ordinal
                       then Renamed(before, sx, i) else wrappers[i]
    {
      var index := indices[ordinal];
      IndicesSound(before, key, |before|, ordinal);
      forall i: nat | i < |before| && AbiKey(before[i]) == key
        ensures |IndicesOf(before, key, i)| == ordinal <==> i == index
      {
        IndicesComplete(before, key, |before|, i);
        IndicesComplete(before, key, |before|, index);
        if |IndicesOf(before, key, index)| != ordinal {
          IndicesDistinct(before, key, |before|, |IndicesOf(before, key, index)|, ordinal);
        }
      }
      var receivers := originals[index].StorageParams();
      var suffix := if receivers != [] then Join("_", ShortTypeNames(receivers, libraryName)) else Decimal(ordinal);
      resolved := resolved[index := resolved[index].(name := Suffixed(resolved[index].name, suffix))];
    }
    forall i: nat | i < |before| && AbiKey(before[i]) == key
      ensures |IndicesOf(before, key, i)| < |indices|
    {
      IndicesComplete(before, key, |before|, i);
    }
  }
}
