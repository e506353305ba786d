/** Texts by how many braces are open in them. */
module Braces {

  function Depth(s: string): int {
    if s == "" then 0
    else (if s[0] == '{' then 1 else if s[0] == '}' then -1 else 0) + Depth(s[1..])
  }

  /** The open braces less the closing ones. */
  lemma {:induction false} DepthCounts(s: string)
    ensures Depth(s) + multiset(s)['}'] == multiset(s)['{']
  {
    if s != "" {
      DepthCounts(s[1..]);
      assert s == [s[0]] + s[1..];
    }
  }

  lemma {:induction false} DepthConcat(a: string, b: string)
    ensures Depth(a + b) == Depth(a) + Depth(b)
  {
    if a == "" {
      assert a + b == b;
    } else {
      assert (a + b)[1..] == a[1..] + b;
      DepthConcat(a[1..], b);
    }
  }

  predicate BraceFree(s: string) {
    '{' !in s && '}' !in s
  }

  lemma {:induction false} BraceFreeDepth(s: string)
    requires BraceFree(s)
    ensures Depth(s) == 0
  {
    if s != "" {
      BraceFreeDepth(s[1..]);
    }
  }

  /** Braces that close for the first time at the end. */
  ghost predicate IsBlock(s: string) {
    && |s| >= 2 && s[|s| - 1] == '}' && Depth(s) == 0
    && forall n :: 0 < n < |s| ==> Depth(s[..n]) > 0
  }

  lemma OpensAtOnce(s: string)
    requires IsBlock(s)
    ensures s[0] == '{'
  {
    assert s[..1][1..] == "";
    assert Depth(s[..1]) > 0;
  }
}
