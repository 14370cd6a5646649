/** The two platform string operations the browser relies on:
    case-insensitive comparison (used to order the sidebar) and literal
    replacement of every occurrence of a substring (used to build resource
    names). Case folding is restricted to ASCII letters. */
module JavaText {

  /** Folds an ASCII upper-case letter to lower case; every other character
      is left alone. */
  function FoldChar(c: char): (r: char)
    ensures !('A' <= r <= 'Z')
    ensures !('A' <= c <= 'Z') ==> r == c
    ensures ('a' <= c <= 'z' || 'A' <= c <= 'Z') <==> 'a' <= r <= 'z'
  {
    if 'A' <= c <= 'Z' then (c as int - 'A' as int + 'a' as int) as char else c
  }

  /** The folded form of a whole string. */
  function Folded(s: string): (r: string)
    ensures |r| == |s|
    ensures forall i :: 0 <= i < |s| ==> r[i] == FoldChar(s[i])
  {
    seq(|s|, i requires 0 <= i < |s| => FoldChar(s[i]))
  }

  /** Case-insensitive comparison: the difference of the first pair of
      folded characters that differ, or else the difference of the lengths. */
  function CompareIgnoreCase(a: string, b: string): (r: int)
    ensures a == b ==> r == 0
    ensures r == 0 ==> |a| == |b|
    ensures Folded(a) == Folded(b) ==> r == 0
    decreases |a|
  {
    if |a| == 0 || |b| == 0 then |a| - |b|
    else if FoldChar(a[0]) != FoldChar(b[0]) then FoldChar(a[0]) as int - FoldChar(b[0]) as int
    else CompareIgnoreCase(a[1..], b[1..])
  }

  /** Swapping the arguments negates the result, so the comparison is a
      consistent total order. */
  lemma {:induction false} CompareAntisymmetric(a: string, b: string)
    ensures CompareIgnoreCase(a, b) == -CompareIgnoreCase(b, a)
    decreases |a|
  {
    if |a| != 0 && |b| != 0 && FoldChar(a[0]) == FoldChar(b[0]) {
      CompareAntisymmetric(a[1..], b[1..]);
    }
  }

  /** Two strings compare equal exactly when they agree up to case. */
  lemma {:induction false} CompareZeroIffSameFolded(a: string, b: string)
    ensures CompareIgnoreCase(a, b) == 0 <==> Folded(a) == Folded(b)
    decreases |a|
  {
    if |a| != 0 && |b| != 0 {
      CompareZeroIffSameFolded(a[1..], b[1..]);
      if FoldChar(a[0]) == FoldChar(b[0]) {
        assert Folded(a) == [FoldChar(a[0])] + Folded(a[1..]);
        assert Folded(b) == [FoldChar(b[0])] + Folded(b[1..]);
      } else {
        assert Folded(a)[0] != Folded(b)[0];
      }
    }
  }

  /** "Not greater than" is transitive. */
  lemma {:induction false} CompareTransitive(a: string, b: string, c: string)
    requires CompareIgnoreCase(a, b) <= 0 && CompareIgnoreCase(b, c) <= 0
    ensures CompareIgnoreCase(a, c) <= 0
    decreases |a|
  {
    if |a| != 0 && |b| != 0 && |c| != 0 {
      if FoldChar(a[0]) == FoldChar(b[0]) && FoldChar(b[0]) == FoldChar(c[0]) {
        CompareTransitive(a[1..], b[1..], c[1..]);
      }
    }
  }

  /** Every non-overlapping occurrence of `target`, scanning from the left,
      replaced by `replacement`. */
  function ReplaceAll(s: string, target: string, replacement: string): (r: string)
    requires |target| > 0
    ensures forall c :: c in r ==> c in s || c in replacement
    ensures |s| < |target| ==> r == s
    decreases |s|
  {
    if |s| < |target| then s
    else if s[..|target|] == target then replacement + ReplaceAll(s[|target|..], target, replacement)
    else [s[0]] + ReplaceAll(s[1..], target, replacement)
  }

  /** A replacement no longer than its target never lengthens the string. */
  lemma {:induction false} ReplaceAllShrinks(s: string, target: string, replacement: string)
    requires |target| > 0 && |replacement| <= |target|
    ensures |ReplaceAll(s, target, replacement)| <= |s|
    decreases |s|
  {
    if |s| >= |target| {
      if s[..|target|] == target {
        ReplaceAllShrinks(s[|target|..], target, replacement);
      } else {
        ReplaceAllShrinks(s[1..], target, replacement);
      }
    }
  }

  /** Replacing a one-character target by text without that character
      removes the character altogether. */
  lemma {:induction false} ReplaceAllRemoves(s: string, c: char, replacement: string)
    requires c !in replacement
    ensures c !in ReplaceAll(s, [c], replacement)
    decreases |s|
  {
    if |s| >= 1 {
      if s[..1] == [c] {
        ReplaceAllRemoves(s[1..], c, replacement);
      } else {
        assert s[0] != c by { assert s[..1] == [s[0]]; }
        ReplaceAllRemoves(s[1..], c, replacement);
      }
    }
  }

  /** A character found in neither the input nor the replacement is not in
      the result. */
  lemma {:induction false} ReplaceAllKeepsOut(s: string, target: string, replacement: string, c: char)
    requires |target| > 0 && c !in s && c !in replacement
    ensures c !in ReplaceAll(s, target, replacement)
    decreases |s|
  {
    if |s| >= |target| {
      if s[..|target|] == target {
        ReplaceAllKeepsOut(s[|target|..], target, replacement, c);
      } else {
        ReplaceAllKeepsOut(s[1..], target, replacement, c);
      }
    }
  }

  /** When the first character of the target never occurs, nothing is
      replaced. */
  lemma {:induction false} ReplaceAllNoMatch(s: string, target: string, replacement: string)
    requires |target| > 0 && target[0] !in s
    ensures ReplaceAll(s, target, replacement) == s
    decreases |s|
  {
    if |s| >= |target| {
      assert s[..|target|][0] == s[0];
      ReplaceAllNoMatch(s[1..], target, replacement);
    }
  }
}
