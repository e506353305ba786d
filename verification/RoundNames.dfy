/** The names of round copies: appending a round suffix, and stripping it again. */
module RoundNames {
  import opened Text
  import opened SpecFiles
  import opened RecursiveUpdate

  predicate IsHex(c: char) {
    IsDigit(c) || 'a' <= c <= 'f'
  }

  predicate AllHex(s: string) {
    forall i :: 0 <= i < |s| ==> IsHex(s[i])
  }

  function RoundSuffix(round: nat, random: string): string {
    "-ROUND" + Decimal(round) + "-" + random
  }

  function RoundName(base: string, round: nat, random: string): string {
    base + RoundSuffix(round, random)
  }

  /** The regex `-ROUND\d+-[a-f0-9]+` matches all of `s`, with `d` digits. */
  predicate IsRoundSuffixWith(s: string, d: nat) {
    && d >= 1
    && 6 + d + 1 < |s|
    && s[..6] == "-ROUND"
    && AllDigits(s[6..6 + d])
    && s[6 + d] == '-'
    && AllHex(s[7 + d..])
  }

  predicate IsRoundSuffix(s: string) {
    exists d :: 0 <= d < |s| && IsRoundSuffixWith(s, d)
  }

  predicate HexDigits(s: string) {
    forall i :: 0 <= i < |s| ==> '0' <= s[i] <= '9' || s[i] in "abcdef"
  }

  /** A round suffix: the word, a number, and a string of hexadecimal digits, with dashes between them. */
  predicate IsMark(s: string, digits: string, random: string) {
    && s == "-ROUND" + (digits + ("-" + random)) && digits != "" && random != ""
    && (forall i :: 0 <= i < |digits| ==> '0' <= digits[i] <= '9') && HexDigits(random)
  }

  lemma HexIsHex(s: string)
    ensures AllHex(s) <==> HexDigits(s)
  {
    assert "abcdef"[0] == 'a' && "abcdef"[1] == 'b' && "abcdef"[2] == 'c' && "abcdef"[3] == 'd' && "abcdef"[4] == 'e' && "abcdef"[5] == 'f';
  }

  /** A suffix is one if and only if it has this form. */
  lemma SuffixIff(s: string)
    ensures IsRoundSuffix(s) <==> exists digits, random :: IsMark(s, digits, random)
  {
    if d :| 0 <= d < |s| && IsRoundSuffixWith(s, d) {
      var digits, random := s[6..6 + d], s[7 + d..];
      HexIsHex(random);
      assert s == s[..6] + (digits + ([s[6 + d]] + random));
      assert IsMark(s, digits, random);
    }
    if digits, random :| IsMark(s, digits, random) {
      HexIsHex(random);
      assert s[..6] == "-ROUND" && s[6..6 + |digits|] == digits && s[7 + |digits|..] == random;
      assert IsRoundSuffixWith(s, |digits|);
    }
  }

  /** The shortest non-empty prefix that is followed by a round suffix, else the whole name. */
  function StripFrom(name: string, k: nat): string
    requires 1 <= k
    decreases |name| - k
  {
    if k >= |name| then name
    else if IsRoundSuffix(name[k..]) then name[..k]
    else StripFrom(name, k + 1)
  }

  function StripRound(name: string): string {
    StripFrom(name, 1)
  }

  lemma SuffixMatches(round: nat, random: string)
    requires random != "" && AllHex(random)
    ensures IsRoundSuffix(RoundSuffix(round, random))
  {
    var s, d := RoundSuffix(round, random), |Decimal(round)|;
    assert s[6..6 + d] == Decimal(round) && s[7 + d..] == random;
    assert IsRoundSuffixWith(s, d);
  }

  /** Inside a round suffix the only dash is the one between the round and the random string. */
  lemma OnlyDash(t: string, e: nat, i: nat)
    requires IsRoundSuffixWith(t, e) && 0 < i < |t| && i != 6 + e
    ensures t[i] != '-'
  {
    if i < 6 {
      assert t[..6][i] == t[i];
    } else if i < 6 + e {
      assert t[6..6 + e][i - 6] == t[i];
    } else {
      assert t[7 + e..][i - 7 - e] == t[i];
    }
  }

  lemma LongerIsNoSuffix(t: string, shift: nat)
    requires 0 < shift < |t| && IsRoundSuffix(t[shift..])
    ensures !IsRoundSuffix(t)
  {
    var s := t[shift..];
    var d :| 0 <= d < |s| && IsRoundSuffixWith(s, d);
    assert s[..6][0] == s[0] == t[shift] && s[6 + d] == t[shift + 6 + d];
    forall e | 0 <= e < |t|
      ensures !IsRoundSuffixWith(t, e)
    {
      if IsRoundSuffixWith(t, e) {
        OnlyDash(t, e, if shift == 6 + e then shift + 6 + d else shift);
      }
    }
  }

  lemma {:induction false} StripStops(name: string, k: nat, at: nat)
    requires 1 <= k <= at < |name| && IsRoundSuffix(name[at..])
    ensures StripFrom(name, k) == name[..at]
    decreases at - k
  {
    if k < at {
      assert name[at..] == name[k..][at - k..];
      LongerIsNoSuffix(name[k..], at - k);
      StripStops(name, k + 1, at);
    }
  }

  /** Stripping undoes one round of renaming, whatever the base name looks like. */
  lemma StripUndoesRename(base: string, round: nat, random: string)
    requires base != "" && random != "" && AllHex(random)
    ensures StripRound(RoundName(base, round, random)) == base
  {
    var name := RoundName(base, round, random);
    assert name[|base|..] == RoundSuffix(round, random);
    SuffixMatches(round, random);
    StripStops(name, 1, |base|);
    assert name[..|base|] == base;
  }

  lemma NewNameShape(rename: string -> string, b: string, round: nat, random: string)
    requires rename(b) == RoundName(b, round, random)
    ensures EndsWith(NewName(rename, b), RoundSuffix(round, random) + ".spec")
    ensures |NewName(rename, b)| >= |RoundSuffix(round, random)| + 5
    ensures NewName(rename, b)[..|NewName(rename, b)| - |RoundSuffix(round, random)| - 5] == b
  {
    assert NewName(rename, b) == b + (RoundSuffix(round, random) + ".spec");
  }

  /** Round names are fresh and differ when no file and no import carries this round's suffix. */
  lemma RoundNamesAreFresh(disk: Disk, rename: string -> string, reverseRename: string -> string, round: nat, random: string)
    requires forall b :: rename(b) == RoundName(b, round, random)
    requires forall p :: p in disk ==> !EndsWith(p.name, RoundSuffix(round, random) + ".spec")
    requires forall p, i :: p in disk && 0 <= i < |disk[p]| && disk[p][i].Import? ==>
      !EndsWith(disk[p][i].file, RoundSuffix(round, random) + ".spec")
    ensures FreshNames(disk, RoundNaming(rename, reverseRename))
    ensures forall b, c :: NewName(rename, b) == NewName(rename, c) ==> b == c
  {
    var names := RoundNaming(rename, reverseRename);
    forall p: Path
      ensures EndsWith(names(p), RoundSuffix(round, random) + ".spec")
    {
      NewNameShape(rename, BaseIn(reverseRename, p), round, random);
    }
    forall b: string, c: string | NewName(rename, b) == NewName(rename, c)
      ensures b == c
    {
      NewNameShape(rename, b, round, random);
      NewNameShape(rename, c, round, random);
    }
  }
}
