/** Ordinal, case-insensitive string comparison (`StringComparison.OrdinalIgnoreCase`)
    over ASCII letters, and `string.Join`. */
module Text {

  /** Upper-cases an ASCII letter and leaves every other character alone: the folding
      under which two characters compare equal ignoring case. */
  function FoldChar(c: char): char
  {
    if 'a' <= c <= 'z' then (c as int - 32) as char else c
  }

  /** Lower-cases an ASCII letter and leaves every other character alone. */
  function LowerChar(c: char): char
  {
    if 'A' <= c <= 'Z' then (c as int + 32) as char else c
  }

  function Fold(s: string): (r: string)
    ensures |r| == |s|
    ensures forall i :: 0 <= i < |s| ==> r[i] == FoldChar(s[i])
  {
    seq(|s|, i requires 0 <= i < |s| => FoldChar(s[i]))
  }

  function Lower(s: string): (r: string)
    ensures |r| == |s|
    ensures forall i :: 0 <= i < |s| ==> r[i] == LowerChar(s[i])
  {
    seq(|s|, i requires 0 <= i < |s| => LowerChar(s[i]))
  }

  /** Reference definition: every character of `prefix` equals, ignoring case, the
      character at the same position of `s`. */
  ghost predicate IsPrefixIgnoringCase(prefix: string, s: string)
  {
    |prefix| <= |s| && forall i :: 0 <= i < |prefix| ==> FoldChar(prefix[i]) == FoldChar(s[i])
  }

  /** `s.StartsWith(prefix, StringComparison.OrdinalIgnoreCase)`, compared one
      character at a time. */
  function StartsWithIgnoreCase(s: string, prefix: string): (r: bool)
    ensures r <==> IsPrefixIgnoringCase(prefix, s)
  {
    if prefix == [] then true
    else if s == [] then false
    else FoldChar(s[0]) == FoldChar(prefix[0]) && StartsWithIgnoreCase(s[1..], prefix[1..])
  }

  /** The case-insensitive test is plain prefix testing on the folded strings. */
  lemma StartsWithIsFoldedPrefix(s: string, prefix: string)
    ensures StartsWithIgnoreCase(s, prefix) <==> Fold(prefix) <= Fold(s)
  {
    if StartsWithIgnoreCase(s, prefix) {
      assert Fold(prefix) == Fold(s)[..|prefix|];
    }
  }

  /** Changing the case of ASCII letters never changes how a character folds. */
  lemma FoldIgnoresCase(c: char)
    ensures FoldChar(LowerChar(c)) == FoldChar(c)
    ensures FoldChar(FoldChar(c)) == FoldChar(c)
  {
  }

  /** The outcome depends on both strings only through their case folding: upper- or
      lower-casing either argument changes nothing. */
  lemma StartsWithCaseInvariant(s: string, prefix: string)
    ensures StartsWithIgnoreCase(Lower(s), prefix) == StartsWithIgnoreCase(s, prefix)
    ensures StartsWithIgnoreCase(Fold(s), prefix) == StartsWithIgnoreCase(s, prefix)
    ensures StartsWithIgnoreCase(s, Lower(prefix)) == StartsWithIgnoreCase(s, prefix)
    ensures StartsWithIgnoreCase(s, Fold(prefix)) == StartsWithIgnoreCase(s, prefix)
  {
    forall c: char
      ensures FoldChar(LowerChar(c)) == FoldChar(c) && FoldChar(FoldChar(c)) == FoldChar(c)
    {
      FoldIgnoresCase(c);
    }
  }

  /** The combined length of `parts`. */
  function TotalLength(parts: seq<string>): nat
  {
    if parts == [] then 0 else |parts[0]| + TotalLength(parts[1..])
  }

  /** `string.Join(separator, parts)`: the parts with `separator` between neighbours. */
  function Join(separator: string, parts: seq<string>): (r: string)
    ensures |parts| == 0 ==> r == ""
    ensures |parts| == 1 ==> r == parts[0]
    ensures |parts| > 0 ==> parts[0] <= r
  {
    if |parts| == 0 then ""
    else if |parts| == 1 then parts[0]
    else parts[0] + separator + Join(separator, parts[1..])
  }

  /** The last part ends the joined string, whose length is the parts' total plus one
      separator between each neighbouring pair. */
  lemma {:induction false} JoinShape(separator: string, parts: seq<string>)
    requires |parts| > 0
    ensures var r := Join(separator, parts);
      |parts[|parts| - 1]| <= |r| && r[|r| - |parts[|parts| - 1]|..] == parts[|parts| - 1]
    ensures |Join(separator, parts)| == TotalLength(parts) + (|parts| - 1) * |separator|
  {
    if |parts| > 1 {
      JoinShape(separator, parts[1..]);
      var rest := Join(separator, parts[1..]);
      var r := Join(separator, parts);
      assert r == parts[0] + separator + rest;
      assert parts[1..][|parts[1..]| - 1] == parts[|parts| - 1];
      assert r[|r| - |parts[|parts| - 1]|..] == rest[|rest| - |parts[|parts| - 1]|..];
    }
  }

  /** Joining the concatenation of two non-empty lists is joining each list and putting
      the separator between the results. With the one-part case of `Join` this fixes
      every part of the joined string, the middle ones included. */
  lemma {:induction false} JoinAppend(separator: string, a: seq<string>, b: seq<string>)
    requires |a| > 0 && |b| > 0
    ensures Join(separator, a + b) == Join(separator, a) + separator + Join(separator, b)
  {
    if |a| > 1 {
      assert (a + b)[1..] == a[1..] + b;
      JoinAppend(separator, a[1..], b);
    } else {
      assert a + b == [a[0]] + b;
      assert (a + b)[1..] == b;
    }
  }

  /** Joining two parts puts the separator between them. */
  lemma JoinTwo(separator: string, a: string, b: string)
    ensures Join(separator, [a, b]) == a + separator + b
  {
    assert [a, b][1..] == [b];
  }
}
