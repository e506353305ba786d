/** Finding the end of the first braced block after a position. */
module BraceMatching {
  import opened Braces

  ghost predicate FirstOpenAt(content: string, from: nat, b: nat) {
    from <= b < |content| && content[b] == '{' && forall k :: from <= k < b ==> content[k] != '{'
  }

  /** The block that starts at b ends at e. */
  ghost predicate BlockAt(content: string, b: nat, e: int) {
    b <= e < |content| && IsBlock(content[b..e + 1])
  }

  lemma OneMoreChar(content: string, b: nat, i: nat)
    requires b <= i < |content|
    ensures Depth(content[b..i + 1]) == Depth(content[b..i]) + (if content[i] == '{' then 1 else if content[i] == '}' then -1 else 0)
  {
    assert content[b..i + 1] == content[b..i] + [content[i]];
    DepthConcat(content[b..i], [content[i]]);
    assert Depth([content[i]]) == (if content[i] == '{' then 1 else if content[i] == '}' then -1 else 0) + Depth("");
  }

  lemma BlockFrom(content: string, b: nat, e: nat)
    requires b < e < |content| && content[e] == '}' && Depth(content[b..e + 1]) == 0
    requires forall n :: b < n <= e ==> Depth(content[b..n]) > 0
    ensures BlockAt(content, b, e)
  {
    var s := content[b..e + 1];
    forall n | 0 < n < |s|
      ensures Depth(s[..n]) > 0
    {
      assert s[..n] == content[b..b + n];
    }
  }

  /** While all depths are positive, no block has ended. */
  lemma NotClosedYet(content: string, b: nat, upto: nat, e: nat)
    requires b <= e < upto <= |content| && forall n :: b < n <= upto ==> Depth(content[b..n]) > 0
    ensures !BlockAt(content, b, e)
  {
    assert Depth(content[b..e + 1]) > 0;
  }

  /** The position of the brace that closes the first block from `startAfter` on, or -1 if there is none. */
  method FindEndBraceAfter(content: string, startAfter: nat) returns (end: int)
    ensures end >= 0 ==> exists b :: FirstOpenAt(content, startAfter, b) && BlockAt(content, b, end)
    ensures end < 0 ==> end == -1 && forall b, e :: FirstOpenAt(content, startAfter, b) ==> !BlockAt(content, b, e)
  {
    var b := startAfter;
    while b < |content| && content[b] != '{'
      invariant startAfter <= b && forall k :: startAfter <= k < b && k < |content| ==> content[k] != '{'
    {
      b := b + 1;
    }
    if b >= |content| {
      return -1;
    }
    assert FirstOpenAt(content, startAfter, b);
    var count := 0;
    for i := b to |content|
      invariant count == Depth(content[b..i])
      invariant forall n :: b < n <= i ==> Depth(content[b..n]) > 0
    {
      OneMoreChar(content, b, i);
      if content[i] == '{' {
        count := count + 1;
      } else if content[i] == '}' {
        count := count - 1;
        if count == 0 {
          BlockFrom(content, b, i);
          return i;
        }
      }
    }
    forall b', e | FirstOpenAt(content, startAfter, b')
      ensures !BlockAt(content, b', e)
    {
      assert b' == b;
      if b <= e < |content| {
        NotClosedYet(content, b, |content|, e);
      }
    }
    return -1;
  }

  lemma InsideIsOpen(content: string, b: nat, e: int, e': int)
    requires b <= e < e' && BlockAt(content, b, e')
    ensures Depth(content[b..e + 1]) > 0
  {
    assert content[b..e' + 1][..e + 1 - b] == content[b..e + 1];
  }

  /** The end of a block is determined by its start. */
  lemma BlockEndsOnce(content: string, b: nat, e: int, e': int)
    requires BlockAt(content, b, e) && BlockAt(content, b, e')
    ensures e == e'
  {
    if e < e' {
      InsideIsOpen(content, b, e, e');
    } else if e' < e {
      InsideIsOpen(content, b, e', e);
    }
  }
}
