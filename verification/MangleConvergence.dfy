/**
 * When collision mangling succeeds. The heart is a counting argument along name chains: of the
 * entries that can still be renamed to a given final name, every round of collisions on the way to
 * that name loses at least one for good.
 */
module MangleConvergence {
  import opened Options
  import opened Text
  import opened HarnessModel
  import opened Mangling

  // ----- Outcome of the budgeted loop in terms of the rounds -----

  lemma {:induction false} SettledRounds(ws: seq<Wrapper>, sx: seq<Option<string>>, k: nat)
    requires |ws| == |sx| && !AnyCollision(ws)
    ensures Rounds(ws, sx, k) == ws
    decreases k
  {
    if k > 0 {
      assert Round(ws, sx) == ws;
      SettledRounds(ws, sx, k - 1);
    }
  }

  lemma {:induction false} MangleSettles(ws: seq<Wrapper>, sx: seq<Option<string>>, k: nat, budget: nat)
    requires |ws| == |sx| && k < budget && !AnyCollision(Rounds(ws, sx, k))
    ensures MangleWithin(ws, sx, budget) == Some(Rounds(ws, sx, k))
    decreases k
  {
    if !AnyCollision(ws) {
      SettledRounds(ws, sx, k);
    } else {
      MangleSettles(Round(ws, sx), sx, k - 1, budget - 1);
    }
  }

  lemma {:induction false} MangleExhausts(ws: seq<Wrapper>, sx: seq<Option<string>>, budget: nat)
    requires |ws| == |sx| && forall k: nat :: k < budget ==> AnyCollision(Rounds(ws, sx, k))
    ensures MangleWithin(ws, sx, budget) == None
    decreases budget
  {
    if budget > 0 {
      assert Rounds(ws, sx, 0) == ws;
      forall k: nat | k < budget - 1
        ensures AnyCollision(Rounds(Round(ws, sx), sx, k))
      {
        assert Rounds(ws, sx, k + 1) == Rounds(Round(ws, sx), sx, k);
      }
      MangleExhausts(Round(ws, sx), sx, budget - 1);
    }
  }

  /** Renaming only ever extends names, and touches nothing else. */
  predicate OnlyRenamed(before: Wrapper, after: Wrapper) {
    after == before.(name := after.name) && before.name <= after.name
  }

  /**
   * Whatever mangling returns has pairwise distinct ABI keys, and entry i still calls function i
   * with the same parameters, arguments and results.
   */
  lemma {:induction false} MangleSound(ws: seq<Wrapper>, sx: seq<Option<string>>, budget: nat)
    requires |ws| == |sx| && MangleWithin(ws, sx, budget).Some?
    ensures var r := MangleWithin(ws, sx, budget).value;
      && |r| == |ws|
      && (forall i, j :: 0 <= i < j < |r| ==> AbiKey(r[i]) != AbiKey(r[j]))
      && (forall i :: 0 <= i < |r| ==> OnlyRenamed(ws[i], r[i]))
    decreases budget
  {
    if AnyCollision(ws) {
      MangleSound(Round(ws, sx), sx, budget - 1);
      forall i | 0 <= i < |ws|
        ensures OnlyRenamed(ws[i], Round(ws, sx)[i])
      {
      }
    } else {
      forall i: nat, j: nat | i < j < |ws|
        ensures AbiKey(ws[i]) != AbiKey(ws[j])
      {
        assert !Collides(ws, i);
        assert !Shares(ws, i, j);
      }
    }
  }

  // ----- Entries with the same receivers -----

  ghost predicate Clashing(ws: seq<Wrapper>, sx: seq<Option<string>>, i: nat, j: nat) {
    |ws| == |sx| && Shares(ws, i, j) && sx[i].Some? && sx[i] == sx[j]
  }

  ghost predicate Clash(ws: seq<Wrapper>, sx: seq<Option<string>>) {
    exists i: nat, j: nat :: Clashing(ws, sx, i, j)
  }

  lemma {:induction false} ClashPersists(ws: seq<Wrapper>, sx: seq<Option<string>>, i: nat, j: nat, k: nat)
    requires Clashing(ws, sx, i, j)
    ensures Clashing(Rounds(ws, sx, k), sx, i, j)
    decreases k
  {
    if k > 0 {
      assert Shares(ws, j, i);
      assert Collides(ws, i) && Collides(ws, j);
      var r := Round(ws, sx);
      assert r[i].params == ws[i].params && r[j].params == ws[j].params;
      assert Types(r[i]) == Types(ws[i]) && Types(r[j]) == Types(ws[j]);
      ClashPersists(r, sx, i, j, k - 1);
    }
  }

  lemma {:induction false} RoundsCompose(ws: seq<Wrapper>, sx: seq<Option<string>>, k: nat, m: nat)
    requires |ws| == |sx|
    ensures Rounds(ws, sx, k + m) == Rounds(Rounds(ws, sx, k), sx, m)
    decreases k
  {
    if k > 0 {
      RoundsCompose(Round(ws, sx), sx, k - 1, m);
    }
  }

  /** Two entries that ever collide while sharing a receiver suffix can never be told apart. */
  lemma ClashRaises(ws: seq<Wrapper>, sx: seq<Option<string>>, k: nat, budget: nat)
    requires |ws| == |sx| && k < budget && Clash(Rounds(ws, sx, k), sx)
    ensures MangleWithin(ws, sx, budget) == None
  {
    var at := Rounds(ws, sx, k);
    var i: nat, j: nat :| Clashing(at, sx, i, j);
    forall m: nat | m < budget
      ensures AnyCollision(Rounds(ws, sx, m))
    {
      if m < k {
        RoundsCompose(ws, sx, m, k - m);
        if !AnyCollision(Rounds(ws, sx, m)) {
          SettledRounds(Rounds(ws, sx, m), sx, k - m);
          assert Collides(at, i);
        }
      } else {
        RoundsCompose(ws, sx, k, m - k);
        ClashPersists(at, sx, i, j, m - k);
        assert Collides(Rounds(ws, sx, m), i);
      }
    }
    MangleExhausts(ws, sx, budget);
  }

  // ----- Name chains -----

  /** A name with the separator that the next suffix follows. */
  function Sep(x: string): string {
    if EndsWithUnderscore(x) then x else x + "_"
  }

  lemma SuffixedIsSep(x: string, s: string)
    ensures Suffixed(x, s) == Sep(x) + s
  {
    assert (x + "_") + s == x + "_" + s;
  }

  /** An entry named `x` may be renamed, in zero or more steps, to `y`. */
  predicate MayBecome(x: string, y: string) {
    x == y || Sep(x) <= y
  }

  /** An ordinal, or an ordinal with more behind a separator. */
  predicate StartsWithOrdinal(s: string) {
    s == "" || s[0] == '_' || (IsDigit(s[0]) && StartsWithOrdinal(s[1..]))
  }

  /** A receiver suffix that no ordinal can be mistaken for and that the next separator ends. */
  predicate IsNamed(s: string) {
    s != "" && s[|s| - 1] != '_' && !StartsWithOrdinal(s)
  }

  /** One suffix, and further parts behind a separator. */
  predicate Extends(s: string, t: string) {
    s + "_" <= t
  }

  /** Of the receiver suffixes on one parameter list none extends another, whatever separators are in them. */
  predicate Separable(ws: seq<Wrapper>, sx: seq<Option<string>>)
    requires |ws| == |sx|
  {
    && (forall i :: 0 <= i < |sx| && sx[i].Some? ==> IsNamed(sx[i].value))
    && forall i, j :: 0 <= i < |sx| && 0 <= j < |sx| && sx[i].Some? && sx[j].Some? && Types(ws[i]) == Types(ws[j])
         ==> !Extends(sx[i].value, sx[j].value)
  }

  lemma {:induction false} StrippedLeft(s: string)
    ensures StripLeft(s) != "" ==> StripLeft(s)[0] != '_'
  {
    if s != "" {
      StrippedLeft(s[1..]);
    }
  }

  lemma {:induction false} StrippedRight(s: string)
    ensures StripRight(s) <= s
    ensures StripRight(s) != "" ==> StripRight(s)[|StripRight(s)| - 1] != '_'
  {
    if s != "" {
      StrippedRight(s[..|s| - 1]);
    }
  }

  lemma ShortNameIsTrimmed(solidityType: string, libraryName: string)
    ensures var s := ShortTypeName(solidityType, libraryName);
      s != "" ==> s[0] != '_' && s[|s| - 1] != '_'
  {
    var prefix := libraryName + ".";
    var c := Collapse(if prefix <= solidityType then solidityType[|prefix|..] else solidityType, false);
    StrippedLeft(c);
    StrippedRight(StripLeft(c));
  }

  lemma {:induction false} JoinEnds(parts: seq<string>)
    requires parts != [] && forall i :: 0 <= i < |parts| ==> parts[i] != ""
    ensures var s := Join("_", parts);
      s != "" && s[0] == parts[0][0] && s[|s| - 1] == parts[|parts| - 1][|parts[|parts| - 1]| - 1]
  {
    if |parts| > 1 {
      JoinEnds(parts[1..]);
    }
  }

  /** Receivers whose type names are not empty and start with no digit have proper suffixes. */
  lemma ReceiverSuffixIsNamed(fn: LibFunction, libraryName: string)
    requires forall p :: p in fn.StorageParams() ==>
               var s := ShortTypeName(p.solidityType, libraryName); s != "" && !IsDigit(s[0])
    ensures var s := ReceiverSuffix(fn, libraryName); s.Some? ==> IsNamed(s.value)
  {
    var ps := fn.StorageParams();
    if ps != [] {
      var names := ShortTypeNames(ps, libraryName);
      forall i | 0 <= i < |names|
        ensures names[i] != "" && !IsDigit(names[i][0]) && names[i][0] != '_' && names[i][|names[i]| - 1] != '_'
      {
        assert ps[i] in ps;
        ShortNameIsTrimmed(ps[i].solidityType, libraryName);
      }
      JoinEnds(names);
    }
  }

  lemma TypesStay(ws: seq<Wrapper>, sx: seq<Option<string>>, i: nat)
    requires i < |ws| == |sx|
    ensures Types(Round(ws, sx)[i]) == Types(ws[i])
  {
    assert Round(ws, sx)[i].params == ws[i].params;
  }

  lemma SeparableStays(ws: seq<Wrapper>, sx: seq<Option<string>>)
    requires |ws| == |sx| && Separable(ws, sx)
    ensures Separable(Round(ws, sx), sx)
  {
    forall i: nat | i < |ws|
      ensures Types(Round(ws, sx)[i]) == Types(ws[i])
    {
      TypesStay(ws, sx, i);
    }
  }

  lemma MayBecomeBack(x: string, s: string, y: string)
    requires MayBecome(Suffixed(x, s), y)
    ensures MayBecome(x, y)
  {
    SuffixedIsSep(x, s);
    assert Sep(x) <= Sep(x) + s <= Sep(Sep(x) + s);
  }

  lemma ContinuationPrefix(x: string, s: string, y: string)
    requires s != "" && s[|s| - 1] != '_' && MayBecome(Suffixed(x, s), y)
    ensures |Sep(x)| <= |y|
    ensures var rest := y[|Sep(x)|..]; s <= rest && (|s| < |rest| ==> rest[|s|] == '_')
  {
    SuffixedIsSep(x, s);
    var b, xs := Sep(x), Sep(x) + s;
    assert xs[|xs| - 1] == s[|s| - 1];
    assert xs <= y;
    assert y[|b|..][..|s|] == xs[|b|..] == s;
    if |s| < |y[|b|..]| {
      assert y[|b|..][|s|] == y[|xs|];
    }
  }

  /** Of two continuations of one name with suffixes that do not extend each other, at most one leads to `y`. */
  lemma OneContinuation(x: string, s: string, t: string, y: string)
    requires s != "" && t != "" && s[|s| - 1] != '_' && t[|t| - 1] != '_'
    requires !Extends(s, t) && !Extends(t, s)
    requires MayBecome(Suffixed(x, s), y) && MayBecome(Suffixed(x, t), y)
    ensures s == t
  {
    ContinuationPrefix(x, s, y);
    ContinuationPrefix(x, t, y);
    var rest := y[|Sep(x)|..];
    ShorterExtends(s, t, rest);
    ShorterExtends(t, s, rest);
  }

  lemma ShorterExtends(s: string, t: string, rest: string)
    requires s <= rest && t <= rest && (|s| < |rest| ==> rest[|s|] == '_')
    ensures |s| < |t| ==> Extends(s, t)
    ensures |s| == |t| ==> s == t
  {
    assert s == rest[..|s|] && t == rest[..|t|];
    assert |s| < |t| ==> t[..|s| + 1] == s + [rest[|s|]];
  }

  lemma {:induction false} OrdinalExtended(s: string, t: string)
    requires AllDigits(s) && (s == t || Extends(s, t))
    ensures StartsWithOrdinal(t)
  {
    if s != "" {
      assert t[0] == s[0];
      assert s != t ==> t[1..][..|s|] == s[1..] + "_" by {
        assert s != t ==> t[..|s| + 1] == s + "_";
      }
      OrdinalExtended(s[1..], t[1..]);
    } else if s != t {
      assert t[0] == "_"[0];
    }
  }

  lemma ExtendedHasSeparator(s: string, t: string)
    requires Extends(s, t)
    ensures '_' in t
  {
    assert t[|s|] == (s + "_")[|s|];
  }

  lemma OrdinalsDoNotExtend(s: string, t: string)
    requires AllDigits(t)
    ensures !Extends(s, t)
  {
    if Extends(s, t) {
      ExtendedHasSeparator(s, t);
    }
  }

  /** Two entries of one group get suffixes that lead to different names for good. */
  lemma SuffixesPart(ws: seq<Wrapper>, sx: seq<Option<string>>, i: nat, j: nat)
    requires |ws| == |sx| && Separable(ws, sx) && !Clash(ws, sx) && Shares(ws, i, j)
    ensures SuffixOf(ws, sx, i) != SuffixOf(ws, sx, j)
    ensures !Extends(SuffixOf(ws, sx, i), SuffixOf(ws, sx, j))
  {
    var key, s, t := AbiKey(ws[i]), SuffixOf(ws, sx, i), SuffixOf(ws, sx, j);
    if sx[i].Some? && sx[j].Some? {
      assert !Clashing(ws, sx, i, j);
    } else if sx[j].None? {
      OrdinalsDoNotExtend(s, t);
      if sx[i].None? {
        OrdinalsDiffer(ws, i, j);
      } else if s == t {
        OrdinalExtended(t, s);
      }
    } else if s == t || Extends(s, t) {
      OrdinalExtended(s, t);
    }
  }

  lemma OrdinalsDiffer(ws: seq<Wrapper>, i: nat, j: nat)
    requires Shares(ws, i, j)
    ensures var key := AbiKey(ws[i]); Decimal(|IndicesOf(ws, key, i)|) != Decimal(|IndicesOf(ws, key, j)|)
  {
    var key := AbiKey(ws[i]);
    IndicesComplete(ws, key, |ws|, i);
    IndicesComplete(ws, key, |ws|, j);
    if Decimal(|IndicesOf(ws, key, i)|) == Decimal(|IndicesOf(ws, key, j)|) {
      DecimalInjective(|IndicesOf(ws, key, i)|, |IndicesOf(ws, key, j)|);
    }
  }

  lemma SuffixEndsPlainly(ws: seq<Wrapper>, sx: seq<Option<string>>, i: nat)
    requires i < |ws| == |sx| && Separable(ws, sx)
    ensures var s := SuffixOf(ws, sx, i); s != "" && s[|s| - 1] != '_'
  {
  }

  /** The entries of one parameter list that can still be renamed to `y`. */
  function Live(ws: seq<Wrapper>, types: seq<string>, y: string): set<nat> {
    set i: nat | i < |ws| && Types(ws[i]) == types && MayBecome(ws[i].name, y)
  }

  ghost predicate LiveCollision(ws: seq<Wrapper>, types: seq<string>, y: string) {
    exists i :: i in Live(ws, types, y) && Collides(ws, i)
  }

  lemma LiveOnlyShrinks(ws: seq<Wrapper>, sx: seq<Option<string>>, types: seq<string>, y: string)
    requires |ws| == |sx|
    ensures Live(Round(ws, sx), types, y) <= Live(ws, types, y)
  {
    var r := Round(ws, sx);
    forall i | i in Live(r, types, y)
      ensures i in Live(ws, types, y)
    {
      assert r[i].params == ws[i].params;
      assert Types(r[i]) == Types(ws[i]);
      if Collides(ws, i) {
        MayBecomeBack(ws[i].name, SuffixOf(ws, sx, i), y);
      }
    }
  }

  /** A collision after the round comes from a collision before it, on the same chain. */
  lemma CollisionBefore(ws: seq<Wrapper>, sx: seq<Option<string>>, types: seq<string>, y: string)
    returns (a: nat)
    requires |ws| == |sx| && LiveCollision(Round(ws, sx), types, y)
    ensures a in Live(Round(ws, sx), types, y) && Collides(ws, a)
  {
    var r := Round(ws, sx);
    var i :| i in Live(r, types, y) && Collides(r, i);
    var j: nat :| j < |r| && Shares(r, i, j);
    assert r[i] == ws[i] && r[j] == ws[j] ==> Shares(ws, i, j);
    a := if Collides(ws, i) then i else j;
  }

  /** Of two entries that share a key, only one goes on toward `y`. */
  lemma OneGoesOn(ws: seq<Wrapper>, sx: seq<Option<string>>, a: nat, b: nat, y: string)
    requires |ws| == |sx| && Separable(ws, sx) && !Clash(ws, sx) && Shares(ws, a, b)
    requires MayBecome(Suffixed(ws[a].name, SuffixOf(ws, sx, a)), y)
    ensures !MayBecome(Suffixed(ws[b].name, SuffixOf(ws, sx, b)), y)
  {
    assert Shares(ws, b, a);
    SuffixesPart(ws, sx, a, b);
    SuffixesPart(ws, sx, b, a);
    SuffixEndsPlainly(ws, sx, a);
    SuffixEndsPlainly(ws, sx, b);
    if MayBecome(Suffixed(ws[b].name, SuffixOf(ws, sx, b)), y) {
      OneContinuation(ws[a].name, SuffixOf(ws, sx, a), SuffixOf(ws, sx, b), y);
    }
  }

  lemma RenamedName(ws: seq<Wrapper>, sx: seq<Option<string>>, i: nat)
    requires i < |ws| == |sx| && Collides(ws, i)
    ensures Round(ws, sx)[i].name == Suffixed(ws[i].name, SuffixOf(ws, sx, i))
  {
  }

  lemma LiveLosesOne(ws: seq<Wrapper>, sx: seq<Option<string>>, types: seq<string>, y: string)
    requires |ws| == |sx| && Separable(ws, sx) && !Clash(ws, sx)
    requires LiveCollision(Round(ws, sx), types, y)
    ensures LiveCollision(ws, types, y)
    ensures Live(Round(ws, sx), types, y) < Live(ws, types, y)
  {
    LiveOnlyShrinks(ws, sx, types, y);
    var a := CollisionBefore(ws, sx, types, y);
    var b: nat :| b < |ws| && Shares(ws, a, b);
    assert Shares(ws, b, a);
    assert a in Live(ws, types, y) && b in Live(ws, types, y);
    RenamedName(ws, sx, a);
    RenamedName(ws, sx, b);
    OneGoesOn(ws, sx, a, b, y);
    assert b !in Live(Round(ws, sx), types, y);
  }

  lemma StrictSubsetSmaller<T>(a: set<T>, b: set<T>)
    requires a < b
    ensures |a| < |b|
  {
    assert |b - a| > 0 && |b| == |a| + |b - a| by {
      assert b == a + (b - a);
      var x :| x in b - a;
    }
  }

  lemma LiveAtMostAll(ws: seq<Wrapper>, types: seq<string>, y: string)
    ensures |Live(ws, types, y)| <= |ws|
  {
    BoundedSet(Live(ws, types, y), |ws|);
  }

  lemma {:induction false} BoundedSet(s: set<nat>, n: nat)
    requires forall i :: i in s ==> i < n
    ensures |s| <= n
  {
    if n == 0 {
      assert s == {};
    } else {
      BoundedSet(s - {n - 1}, n - 1);
    }
  }

  /** A collision that survives k rounds started with at least k + 2 entries on its chain. */
  lemma {:induction false} ChainIsLong(ws: seq<Wrapper>, sx: seq<Option<string>>, k: nat,
                                       types: seq<string>, y: string)
    requires |ws| == |sx| && Separable(ws, sx)
    requires forall m: nat :: m < k ==> !Clash(Rounds(ws, sx, m), sx)
    requires LiveCollision(Rounds(ws, sx, k), types, y)
    ensures LiveCollision(ws, types, y)
    ensures |Live(ws, types, y)| >= k + 2
    decreases k
  {
    if k == 0 {
      var i :| i in Live(ws, types, y) && Collides(ws, i);
      var j: nat :| j < |ws| && Shares(ws, i, j);
      assert j in Live(ws, types, y);
      assert {i} < Live(ws, types, y);
      StrictSubsetSmaller({i}, Live(ws, types, y));
    } else {
      var r := Round(ws, sx);
      assert Rounds(ws, sx, 0) == ws;
      forall m: nat | m < k - 1
        ensures !Clash(Rounds(r, sx, m), sx)
      {
        assert Rounds(ws, sx, m + 1) == Rounds(r, sx, m);
      }
      SeparableStays(ws, sx);
      ChainIsLong(r, sx, k - 1, types, y);
      LiveLosesOne(ws, sx, types, y);
      StrictSubsetSmaller(Live(r, types, y), Live(ws, types, y));
    }
  }

  lemma CollisionFreeAfter(ws: seq<Wrapper>, sx: seq<Option<string>>, k: nat)
    requires |ws| == |sx| && Separable(ws, sx)
    requires forall m: nat :: m < k ==> !Clash(Rounds(ws, sx, m), sx)
    requires k + 2 > |ws|
    ensures !AnyCollision(Rounds(ws, sx, k))
  {
    var last := Rounds(ws, sx, k);
    if AnyCollision(last) {
      var i: nat :| i < |last| && Collides(last, i);
      assert i in Live(last, Types(last[i]), last[i].name);
      ChainIsLong(ws, sx, k, Types(last[i]), last[i].name);
      LiveAtMostAll(ws, Types(last[i]), last[i].name);
    }
  }

  /**
   * Without storage receivers mangling never raises: from round n - 1 on nothing collides, whatever
   * the n names are, so the budget of n + 1 passes is enough.
   */
  lemma NoReceiversConverges(ws: seq<Wrapper>, sx: seq<Option<string>>)
    requires |ws| == |sx| && forall i :: 0 <= i < |sx| ==> sx[i].None?
    ensures forall k: nat :: k >= |ws| - 1 ==> !AnyCollision(Rounds(ws, sx, k))
    ensures MangleWithin(ws, sx, |ws| + 1) == Some(Rounds(ws, sx, if ws == [] then 0 else |ws| - 1))
  {
    forall k: nat | k >= |ws| - 1
      ensures !AnyCollision(Rounds(ws, sx, k))
    {
      CollisionFreeAfter(ws, sx, k);
    }
    MangleSettles(ws, sx, if ws == [] then 0 else |ws| - 1, |ws| + 1);
  }

  ghost predicate ClashFree(ws: seq<Wrapper>, sx: seq<Option<string>>, passes: nat)
    requires |ws| == |sx|
  {
    forall k: nat :: k <= passes ==> !Clash(Rounds(ws, sx, k), sx)
  }

  /**
   * With receivers of which none extends another, mangling raises exactly when two entries with the
   * same receivers meet on one key in some pass.
   */
  lemma SeparableReceiversConvergeIff(ws: seq<Wrapper>, sx: seq<Option<string>>)
    requires |ws| == |sx| && Separable(ws, sx)
    ensures MangleWithin(ws, sx, |ws| + 1).Some? <==> ClashFree(ws, sx, |ws|)
  {
    if ClashFree(ws, sx, |ws|) {
      ClashFreeConverges(ws, sx);
    } else {
      ClashFailsBudget(ws, sx, |ws|);
    }
  }

  lemma ClashFreeConverges(ws: seq<Wrapper>, sx: seq<Option<string>>)
    requires |ws| == |sx| && Separable(ws, sx) && ClashFree(ws, sx, |ws|)
    ensures MangleWithin(ws, sx, |ws| + 1).Some?
  {
    var k := if ws == [] then 0 else |ws| - 1;
    CollisionFreeAfter(ws, sx, k);
    MangleSettles(ws, sx, k, |ws| + 1);
  }

  lemma ClashFailsBudget(ws: seq<Wrapper>, sx: seq<Option<string>>, passes: nat)
    requires |ws| == |sx| && !ClashFree(ws, sx, passes)
    ensures MangleWithin(ws, sx, passes + 1) == None
  {
    var k: nat :| k <= passes && Clash(Rounds(ws, sx, k), sx);
    ClashRaises(ws, sx, k, passes + 1);
  }

  // ----- A condition on the input alone -----

  function Iterated<T>(next: T -> T, x: T, times: nat): T {
    if times == 0 then x else next(Iterated(next, x, times - 1))
  }

  function Appending(s: string): string -> string {
    x => Suffixed(x, s)
  }

  /** A name after `times` renamings with one suffix. */
  function Repeated(x: string, s: string, times: nat): string {
    Iterated(Appending(s), x, times)
  }

  /** Appending copies of the suffix to `x` leads to `y`, up to a separator at the end. */
  predicate GrowsInto(x: string, s: string, y: string)
    decreases if |x| <= |y| then |y| - |x| + 1 else 0
  {
    Sep(x) == Sep(y) || (|x| <= |y| && s != "" && GrowsInto(Suffixed(x, s), s, y))
  }

  /**
   * Of entries with the same receivers and parameters, no name is another one followed by copies of
   * their common suffix.
   */
  predicate UnrelatedOverloads(ws: seq<Wrapper>, sx: seq<Option<string>>)
    requires |ws| == |sx|
  {
    forall i, j :: 0 <= i < |ws| && 0 <= j < |ws| && i != j && sx[i].Some? && sx[i] == sx[j] && Types(ws[i]) == Types(ws[j])
      ==> !GrowsInto(ws[i].name, sx[i].value, ws[j].name)
  }

  lemma {:induction false} IteratedFront<T>(next: T -> T, x: T, times: nat)
    requires times > 0
    ensures Iterated(next, x, times) == Iterated(next, next(x), times - 1)
  {
    if times > 1 {
      IteratedFront(next, x, times - 1);
    }
  }

  /** Steps lose nothing that `view` shows. */
  ghost predicate KeepsView<T(!new), U>(next: T -> T, view: T -> U) {
    forall u, v {:trigger view(next(u)), view(next(v))} :: view(next(u)) == view(next(v)) ==> view(u) == view(v)
  }

  /** Going back step by step. */
  lemma {:induction false} IteratedBack<T(!new), U>(next: T -> T, view: T -> U, x: T, x': T, a: nat, b: nat)
    requires KeepsView(next, view)
    requires a >= b && view(Iterated(next, x, a)) == view(Iterated(next, x', b))
    ensures view(Iterated(next, x, a - b)) == view(x')
    decreases b
  {
    if b > 0 {
      var u, v := Iterated(next, x, a - 1), Iterated(next, x', b - 1);
      assert view(next(u)) == view(next(v));
      IteratedBack(next, view, x, x', a - 1, b - 1);
    }
  }

  lemma RepeatedFront(x: string, s: string, times: nat)
    requires times > 0
    ensures Repeated(x, s, times) == Repeated(Suffixed(x, s), s, times - 1)
  {
    IteratedFront(Appending(s), x, times);
  }

  lemma {:induction false} RepeatedIsLonger(x: string, s: string, times: nat)
    requires s != "" && times > 0
    ensures |Repeated(x, s, times)| > |x|
    decreases times
  {
    assert Repeated(x, s, times) == Suffixed(Repeated(x, s, times - 1), s);
    if times > 1 {
      RepeatedIsLonger(x, s, times - 1);
    }
  }

  lemma GrowsStep(x: string, s: string, y: string)
    requires s != "" && |x| <= |y| && GrowsInto(Suffixed(x, s), s, y)
    ensures GrowsInto(x, s, y)
  {
  }

  lemma SameLength(x: string, y: string)
    requires Sep(x) == Sep(y)
    ensures |x| <= |y| + 1
  {
  }

  lemma {:induction false} RepeatedGrows(x: string, s: string, times: nat, y: string)
    requires s != "" && Sep(Repeated(x, s, times)) == Sep(y)
    ensures GrowsInto(x, s, y)
    decreases times
  {
    if times > 0 {
      RepeatedIsLonger(x, s, times);
      SameLength(Repeated(x, s, times), y);
      RepeatedFront(x, s, times);
      RepeatedGrows(Suffixed(x, s), s, times - 1, y);
      GrowsStep(x, s, y);
    }
  }

  function SepView(): string -> string {
    x => Sep(x)
  }

  lemma AppendingKeepsView(s: string)
    requires s != "" && s[|s| - 1] != '_'
    ensures KeepsView(Appending(s), SepView())
  {
    forall u, v | SepView()(Appending(s)(u)) == SepView()(Appending(s)(v))
      ensures SepView()(u) == SepView()(v)
    {
      SameBeforeSuffix(u, v, s);
    }
  }

  lemma RepeatedBack(x: string, x': string, s: string, a: nat, b: nat)
    requires s != "" && s[|s| - 1] != '_' && a >= b && Repeated(x, s, a) == Repeated(x', s, b)
    ensures Sep(Repeated(x, s, a - b)) == Sep(x')
  {
    AppendingKeepsView(s);
    IteratedBack(Appending(s), SepView(), x, x', a, b);
  }

  /** Where the repetitions of two names meet, one name is the other with copies of the suffix. */
  lemma MeetingIsGrowing(x: string, x': string, s: string, a: nat, b: nat)
    requires s != "" && s[|s| - 1] != '_' && a >= b && Repeated(x, s, a) == Repeated(x', s, b)
    ensures GrowsInto(x, s, x')
  {
    RepeatedBack(x, x', s, a, b);
    RepeatedGrows(x, s, a - b, x');
  }

  lemma SameBeforeSuffix(x: string, x': string, s: string)
    requires s != "" && s[|s| - 1] != '_' && Sep(Suffixed(x, s)) == Sep(Suffixed(x', s))
    ensures Sep(x) == Sep(x')
  {
    SuffixedIsSep(x, s);
    SuffixedIsSep(x', s);
    SepOfPlain(Sep(x), s);
    SepOfPlain(Sep(x'), s);
    assert Sep(x) == (Sep(x) + (s + "_"))[..|Sep(x)|];
  }

  lemma SepOfPlain(b: string, s: string)
    requires s != "" && s[|s| - 1] != '_'
    ensures Sep(b + s) == b + (s + "_")
  {
    assert (b + s)[|b + s| - 1] == s[|s| - 1];
  }

  /** An entry with receivers only ever gets copies of its own suffix. */
  lemma {:induction false} NamesRepeat(ws: seq<Wrapper>, sx: seq<Option<string>>, k: nat, i: nat) returns (times: nat)
    requires i < |ws| == |sx| && sx[i].Some?
    ensures Rounds(ws, sx, k)[i].name == Repeated(ws[i].name, sx[i].value, times)
    ensures Types(Rounds(ws, sx, k)[i]) == Types(ws[i])
    decreases k
  {
    if k == 0 {
      times := 0;
    } else {
      times := NamesRepeat(Round(ws, sx), sx, k - 1, i);
      TypesStay(ws, sx, i);
      if Collides(ws, i) {
        times := times + 1;
        RepeatedFront(ws[i].name, sx[i].value, times);
      }
    }
  }

  lemma UnrelatedNeverClash(ws: seq<Wrapper>, sx: seq<Option<string>>, k: nat, i: nat, j: nat)
    requires |ws| == |sx| && Separable(ws, sx) && Clashing(Rounds(ws, sx, k), sx, i, j)
    ensures !UnrelatedOverloads(ws, sx)
  {
    var a := NamesRepeat(ws, sx, k, i);
    var b := NamesRepeat(ws, sx, k, j);
    if a >= b {
      MeetingIsGrowing(ws[i].name, ws[j].name, sx[i].value, a, b);
    } else {
      MeetingIsGrowing(ws[j].name, ws[i].name, sx[i].value, b, a);
    }
  }

  lemma UnrelatedOverloadsConverge(ws: seq<Wrapper>, sx: seq<Option<string>>)
    requires |ws| == |sx| && Separable(ws, sx) && UnrelatedOverloads(ws, sx)
    ensures MangleWithin(ws, sx, |ws| + 1).Some?
  {
    forall k: nat | k <= |ws|
      ensures !Clash(Rounds(ws, sx, k), sx)
    {
      if i: nat, j: nat :| Clashing(Rounds(ws, sx, k), sx, i, j) {
        UnrelatedNeverClash(ws, sx, k, i, j);
      }
    }
    ClashFreeConverges(ws, sx);
  }

  // ----- Composite receivers defeat the budget -----

  /** A function `name` of a library with `count` storage receivers of type `X`. */
  function ReceiverFunction(name: string, count: nat): LibFunction {
    LibFunction(name, "", seq(count, _ => LibParam("s", "X", "storage")), [])
  }

  function Bare(name: string): Wrapper {
    Wrapper(name, name, [], [], "", [], None)
  }

  /** Names f, f, f_X with one, two and three receivers of type X after k rounds. */
  function Orbit(k: nat): seq<Wrapper>
    requires k <= 4
  {
    var names :=
      if k == 0 then ["f", "f", "f_X"]
      else if k == 1 then ["f_X", "f_X_X", "f_X"]
      else if k == 2 then ["f_X_X", "f_X_X", "f_X_X_X_X"]
      else if k == 3 then ["f_X_X_X", "f_X_X_X_X", "f_X_X_X_X"]
      else ["f_X_X_X", "f_X_X_X_X_X_X", "f_X_X_X_X_X_X_X"];
    [Bare("f").(name := names[0]), Bare("f").(name := names[1]), Bare("f_X").(name := names[2])]
  }

  const TowerSuffixes: seq<Option<string>> := [Some("X"), Some("X_X"), Some("X_X_X")]

  /** The part of the suffix that `count` receivers give. */
  function Xs(count: nat): seq<string> {
    seq(count, _ => "X")
  }

  lemma ShortNameOfX()
    ensures ShortTypeName("X", "Lib") == "X"
  {
    assert "X"[1..] == "";
    assert Collapse("X", false) == "X";
  }

  lemma {:induction false} AllStorage(ps: seq<LibParam>)
    requires forall i :: 0 <= i < |ps| ==> ps[i].IsStorage()
    ensures StorageOnly(ps) == ps
  {
    if ps != [] {
      AllStorage(ps[1..]);
      assert ps == [ps[0]] + ps[1..];
    }
  }

  lemma ReceiversOfX(name: string, count: nat)
    requires count > 0
    ensures ReceiverSuffix(ReceiverFunction(name, count), "Lib") == Some(Join("_", Xs(count)))
  {
    var ps := ReceiverFunction(name, count).params;
    ShortNameOfX();
    AllStorage(ps);
    assert ShortTypeNames(ps, "Lib") == Xs(count);
  }

  lemma JoinedXs()
    ensures Join("_", Xs(1)) == "X" && Join("_", Xs(2)) == "X_X" && Join("_", Xs(3)) == "X_X_X"
  {
    assert Xs(3)[1..] == Xs(2) && Xs(2)[1..] == Xs(1);
    assert Join("_", Xs(1)) == "X";
    assert Join("_", Xs(2)) == "X" + "_" + Join("_", Xs(1));
    assert Join("_", Xs(3)) == "X" + "_" + Join("_", Xs(2));
  }

  lemma TowerSuffixesAreReceivers()
    ensures ReceiverSuffixes([ReceiverFunction("f", 1), ReceiverFunction("f", 2), ReceiverFunction("f_X", 3)], "Lib") == TowerSuffixes
  {
    JoinedXs();
    ReceiversOfX("f", 1);
    ReceiversOfX("f", 2);
    ReceiversOfX("f_X", 3);
  }

  /** Entries a and b share their name, entry c is alone: a and b are renamed, c stays. */
  lemma PairStep(ws: seq<Wrapper>, sx: seq<Option<string>>, a: nat, b: nat, c: nat, next: seq<Wrapper>)
    requires |ws| == |sx| == |next| == 3 && a < b < 3 && c == 3 - a - b && sx[a].Some? && sx[b].Some?
    requires AbiKey(ws[a]) == AbiKey(ws[b]) && ws[c].name != ws[a].name
    requires next[a] == ws[a].(name := Suffixed(ws[a].name, sx[a].value))
    requires next[b] == ws[b].(name := Suffixed(ws[b].name, sx[b].value)) && next[c] == ws[c]
    ensures Round(ws, sx) == next && AnyCollision(ws)
  {
    assert Shares(ws, a, b) && Shares(ws, b, a);
    assert Collides(ws, a) && Collides(ws, b);
    assert !Collides(ws, c);
    var r := Round(ws, sx);
    assert r[a] == next[a] && r[b] == next[b] && r[c] == next[c];
    forall i | 0 <= i < 3
      ensures r[i] == next[i]
    {
      assert i == a || i == b || i == c;
    }
  }

  lemma OrbitStep(k: nat)
    requires k < 4
    ensures Round(Orbit(k), TowerSuffixes) == Orbit(k + 1) && AnyCollision(Orbit(k))
  {
    var a, b := if k == 3 then 1 else 0, if k == 0 || k == 2 then 1 else 2;
    var c := 3 - a - b;
    NextInOrbit(k, a, b, c);
    PairStep(Orbit(k), TowerSuffixes, a, b, c, Orbit(k + 1));
  }

  lemma NextInOrbit(k: nat, a: nat, b: nat, c: nat)
    requires k < 4 && a == (if k == 3 then 1 else 0) && b == (if k == 0 || k == 2 then 1 else 2) && a + b + c == 3
    ensures var ws, next := Orbit(k), Orbit(k + 1);
      && AbiKey(ws[a]) == AbiKey(ws[b]) && ws[c].name != ws[a].name && next[c] == ws[c]
      && next[a] == ws[a].(name := Suffixed(ws[a].name, TowerSuffixes[a].value))
      && next[b] == ws[b].(name := Suffixed(ws[b].name, TowerSuffixes[b].value))
  {
    var ws, next := Orbit(k), Orbit(k + 1);
    assert Types(ws[a]) == [] && Types(ws[b]) == [];
  }

  lemma {:induction false} OrbitRounds(k: nat, m: nat)
    requires k + m <= 4
    ensures Rounds(Orbit(k), TowerSuffixes, m) == Orbit(k + m)
    decreases m
  {
    if m > 0 {
      OrbitStep(k);
      OrbitRounds(k + 1, m - 1);
    }
  }

  lemma TowerNeverClashes(ws: seq<Wrapper>)
    ensures !Clash(ws, TowerSuffixes)
  {
    var lengths := seq(3, i requires 0 <= i < 3 => |TowerSuffixes[i].value|);
    assert lengths == [1, 3, 5];
    forall i: nat, j: nat
      ensures !Clashing(ws, TowerSuffixes, i, j)
    {
      if i < 3 && j < 3 && i != j {
        assert |TowerSuffixes[i].value| == lengths[i] && |TowerSuffixes[j].value| == lengths[j];
      }
    }
  }

  lemma OrbitEndSettled()
    ensures !AnyCollision(Orbit(4))
  {
    var last := Orbit(4);
    assert |last[0].name| == 7 && |last[1].name| == 13 && |last[2].name| == 15;
    forall i: nat, j: nat
      ensures !Shares(last, i, j)
    {
    }
  }

  /**
   * Three functions with different receivers, no two of which ever clash, whose mangling needs four
   * rounds: one more than the budget can observe, so it raises although the names have separated.
   * The suffixes extend each other.
   */
  lemma CompositeReceiversExhaustBudget()
    ensures ReceiverSuffixes([ReceiverFunction("f", 1), ReceiverFunction("f", 2), ReceiverFunction("f_X", 3)], "Lib") == TowerSuffixes
    ensures Orbit(0) == [Bare("f"), Bare("f"), Bare("f_X")] && !Separable(Orbit(0), TowerSuffixes)
    ensures MangleWithin(Orbit(0), TowerSuffixes, 4) == None && ClashFree(Orbit(0), TowerSuffixes, 4)
    ensures !AnyCollision(Rounds(Orbit(0), TowerSuffixes, 4))
  {
    TowerSuffixesAreReceivers();
    OrbitIsNotSeparable();
    OrbitExhaustsBudget();
    OrbitIsClashFree();
    OrbitRounds(0, 4);
    OrbitEndSettled();
  }

  lemma OrbitIsClashFree()
    ensures ClashFree(Orbit(0), TowerSuffixes, 4)
  {
    forall k: nat
      ensures !Clash(Rounds(Orbit(0), TowerSuffixes, k), TowerSuffixes)
    {
      TowerNeverClashes(Rounds(Orbit(0), TowerSuffixes, k));
    }
  }

  lemma OrbitIsNotSeparable()
    ensures !Separable(Orbit(0), TowerSuffixes)
  {
    var ws := Orbit(0);
    assert Types(ws[0]) == Types(ws[1]) && Extends(TowerSuffixes[0].value, TowerSuffixes[1].value);
  }

  lemma OrbitExhaustsBudget()
    ensures MangleWithin(Orbit(0), TowerSuffixes, 4) == None
  {
    forall k: nat | k < 4
      ensures AnyCollision(Rounds(Orbit(0), TowerSuffixes, k))
    {
      OrbitRounds(0, k);
      OrbitStep(k);
    }
    MangleExhausts(Orbit(0), TowerSuffixes, 4);
  }
}
