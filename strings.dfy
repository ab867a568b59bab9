/** Strings as sequences of characters: the case mapping and the ordering that
    the employee model relies on. */
module Strings {

  /** Case mapping of one character. Only the ASCII letters are mapped. */
  function Lower(c: char): char {
    if 'A' <= c <= 'Z' then (c as int + 32) as char else c
  }

  /** `String.lowercased()`, character by character. */
  function Lowercased(s: string): string {
    seq(|s|, i requires 0 <= i < |s| => Lower(s[i]))
  }

  /** `String.<`: lexicographic order on characters; a proper prefix comes first. */
  predicate StrLess(a: string, b: string) {
    if |a| == 0 then |b| > 0
    else if |b| == 0 then false
    else if a[0] != b[0] then a[0] < b[0]
    else StrLess(a[1..], b[1..])
  }

  /** The textbook definition of lexicographic order: `a` is a proper prefix of
      `b`, or the two first differ at some position where `a` has the smaller
      character. */
  ghost predicate LexLess(a: string, b: string) {
    (|a| < |b| && a == b[..|a|]) ||
    (exists k :: 0 <= k < |a| && k < |b| && a[..k] == b[..k] && a[k] < b[k])
  }

  /** Dropping an equal first character keeps lexicographic order ... */
  lemma LexLessTail(a: string, b: string)
    requires |a| > 0 && |b| > 0 && a[0] == b[0] && LexLess(a, b)
    ensures LexLess(a[1..], b[1..])
  {
    var a', b' := a[1..], b[1..];
    if |a| < |b| && a == b[..|a|] {
      assert a' == b'[..|a'|];
    } else {
      var k :| 0 <= k < |a| && k < |b| && a[..k] == b[..k] && a[k] < b[k];
      assert k != 0;
      assert a'[..k - 1] == a[1..k] == b[1..k] == b'[..k - 1];
      assert a'[k - 1] < b'[k - 1];
    }
  }

  /** ... and so does adding one. */
  lemma LexLessCons(a: string, b: string)
    requires |a| > 0 && |b| > 0 && a[0] == b[0] && LexLess(a[1..], b[1..])
    ensures LexLess(a, b)
  {
    var a', b' := a[1..], b[1..];
    if |a'| < |b'| && a' == b'[..|a'|] {
      assert a == [a[0]] + a' && b[..|a|] == [b[0]] + b'[..|a'|];
    } else {
      var k :| 0 <= k < |a'| && k < |b'| && a'[..k] == b'[..k] && a'[k] < b'[k];
      assert a[..k + 1] == [a[0]] + a'[..k] && b[..k + 1] == [b[0]] + b'[..k];
      assert a[k + 1] < b[k + 1];
    }
  }

  lemma {:induction false} StrLessIsLexLess(a: string, b: string)
    ensures StrLess(a, b) <==> LexLess(a, b)
  {
    if |a| == 0 || |b| == 0 {
    } else if a[0] != b[0] {
      if a[0] < b[0] {
        assert a[..0] == b[..0];
      }
    } else {
      StrLessIsLexLess(a[1..], b[1..]);
      if LexLess(a, b) {
        LexLessTail(a, b);
      }
      if LexLess(a[1..], b[1..]) {
        LexLessCons(a, b);
      }
    }
  }

  lemma {:induction false} StrLessIrreflexive(a: string)
    ensures !StrLess(a, a)
  {
    if |a| > 0 {
      StrLessIrreflexive(a[1..]);
    }
  }

  lemma {:induction false} StrLessAsymmetric(a: string, b: string)
    requires StrLess(a, b)
    ensures !StrLess(b, a)
  {
    if |a| > 0 && |b| > 0 && a[0] == b[0] {
      StrLessAsymmetric(a[1..], b[1..]);
    }
  }

  lemma {:induction false} StrLessTransitive(a: string, b: string, c: string)
    requires StrLess(a, b) && StrLess(b, c)
    ensures StrLess(a, c)
  {
    if |a| > 0 && a[0] == b[0] && b[0] == c[0] {
      StrLessTransitive(a[1..], b[1..], c[1..]);
    }
  }

  /** Two different strings are always ordered one way or the other. */
  lemma {:induction false} StrLessTotal(a: string, b: string)
    requires a != b
    ensures StrLess(a, b) || StrLess(b, a)
  {
    if |a| > 0 && |b| > 0 && a[0] == b[0] {
      assert a == [a[0]] + a[1..] && b == [b[0]] + b[1..];
      StrLessTotal(a[1..], b[1..]);
    }
  }
}
