/**
  The case-insensitive string comparer used for form-field names.

  The service compares names with .NET's InvariantCultureIgnoreCase comparer.
  This module approximates it: two names are the same when their ASCII
  lower-case folds are equal, and names are ordered by comparing their folds
  character by character (ordinal order on code points). The lemmas show that
  this comparer is a strict total order on the classes of names that are the
  same ignoring case, which is what a sorted dictionary needs of its comparer.
*/
module CaseInsensitive {

  /** ASCII upper-case letters map to lower case; every other character is unchanged. */
  function FoldChar(c: char): char {
    if 'A' <= c <= 'Z' then (c as int + 32) as char else c
  }

  /** The case fold of a name: every character folded. */
  function Fold(s: string): (r: string)
    ensures |r| == |s|
    ensures forall i :: 0 <= i < |s| ==> r[i] == FoldChar(s[i])
  {
    if |s| == 0 then "" else [FoldChar(s[0])] + Fold(s[1..])
  }

  /** Equality ignoring case. */
  predicate Same(a: string, b: string) {
    Fold(a) == Fold(b)
  }

  /** Two names are the same ignoring case exactly when they have equal length and fold to the same character at every position. */
  lemma SameCharwise(a: string, b: string)
    ensures Same(a, b) <==> |a| == |b| && forall i :: 0 <= i < |a| ==> FoldChar(a[i]) == FoldChar(b[i])
  {
    if |a| == |b| && forall i :: 0 <= i < |a| ==> FoldChar(a[i]) == FoldChar(b[i]) {
      assert forall i :: 0 <= i < |a| ==> Fold(a)[i] == Fold(b)[i];
    }
  }

  /** Ordinal lexicographic order on strings: a proper prefix comes first. */
  function LexLess(a: string, b: string): bool
    decreases |a|
  {
    if |a| == 0 then |b| > 0
    else if |b| == 0 then false
    else if a[0] != b[0] then a[0] < b[0]
    else LexLess(a[1..], b[1..])
  }

  /** The comparer's order: `a` sorts strictly before `b` ignoring case, so the two differ ignoring case. */
  predicate Less(a: string, b: string)
    ensures Less(a, b) ==> !Same(a, b)
  {
    LexLessIrreflexive(Fold(a));
    LexLess(Fold(a), Fold(b))
  }

  lemma {:induction false} LexLessIrreflexive(a: string)
    ensures !LexLess(a, a)
  {
    if |a| > 0 {
      LexLessIrreflexive(a[1..]);
    }
  }

  lemma {:induction false} LexLessTransitive(a: string, b: string, c: string)
    requires LexLess(a, b) && LexLess(b, c)
    ensures LexLess(a, c)
  {
    if |a| > 0 && a[0] == b[0] && b[0] == c[0] {
      LexLessTransitive(a[1..], b[1..], c[1..]);
    }
  }

  lemma {:induction false} LexLessTotal(a: string, b: string)
    requires a != b
    ensures LexLess(a, b) || LexLess(b, a)
  {
    if |a| > 0 && |b| > 0 && a[0] == b[0] {
      assert a == [a[0]] + a[1..] && b == [b[0]] + b[1..];
      LexLessTotal(a[1..], b[1..]);
    }
  }

  lemma LessTransitive(a: string, b: string, c: string)
    requires Less(a, b) && Less(b, c)
    ensures Less(a, c)
  {
    LexLessTransitive(Fold(a), Fold(b), Fold(c));
  }

  /** Two names that differ ignoring case are ordered one way or the other, and only one way. */
  lemma LessTotal(a: string, b: string)
    requires !Same(a, b)
    ensures Less(a, b) != Less(b, a)
  {
    LexLessTotal(Fold(a), Fold(b));
    if Less(a, b) && Less(b, a) {
      LexLessTransitive(Fold(a), Fold(b), Fold(a));
      LexLessIrreflexive(Fold(a));
    }
  }
}
