/**
 * The string operations the commands rely on, as Go's strings package and
 * string comparison define them: prefix and suffix trimming, substring
 * search, left-to-right non-overlapping replacement, and the byte-wise
 * ordering `<` of strings. Characters stand for Unicode scalar values;
 * ordering them by code point is the same as ordering their UTF-8 bytes.
 */
module Strings {
  predicate HasPrefix(s: string, p: string)
  {
    |p| <= |s| && s[..|p|] == p
  }

  predicate HasSuffix(s: string, p: string)
  {
    |p| <= |s| && s[|s| - |p|..] == p
  }

  /** s without the leading p, or s itself when it does not start with p. */
  function TrimPrefix(s: string, p: string): (r: string)
    ensures HasPrefix(s, p) ==> p + r == s
    ensures !HasPrefix(s, p) ==> r == s
  {
    if HasPrefix(s, p) then s[|p|..] else s
  }

  /** s without the trailing p, or s itself when it does not end with p. */
  function TrimSuffix(s: string, p: string): (r: string)
    ensures HasSuffix(s, p) ==> r + p == s
    ensures !HasSuffix(s, p) ==> r == s
  {
    if HasSuffix(s, p) then s[..|s| - |p|] else s
  }

  /** t occurs in s as a contiguous substring. */
  predicate Contains(s: string, t: string)
    decreases |s|
  {
    HasPrefix(s, t) || (|s| > 0 && Contains(s[1..], t))
  }

  /**
   * Every occurrence of tok in s replaced by rep, scanning left to right and
   * resuming after each replaced occurrence.
   */
  function ReplaceAll(s: string, tok: string, rep: string): string
    requires |tok| > 0
    decreases |s|
  {
    if |s| < |tok| then s
    else if s[..|tok|] == tok then rep + ReplaceAll(s[|tok|..], tok, rep)
    else [s[0]] + ReplaceAll(s[1..], tok, rep)
  }

  /** Text in which tok does not occur comes back unchanged. */
  lemma {:induction false} ReplaceAllAbsent(s: string, tok: string, rep: string)
    requires |tok| > 0 && !Contains(s, tok)
    ensures ReplaceAll(s, tok, rep) == s
    decreases |s|
  {
    if |s| >= |tok| {
      assert s[..|tok|] != tok;
      ReplaceAllAbsent(s[1..], tok, rep);
      assert [s[0]] + s[1..] == s;
    }
  }

  /** Text that starts with the token: the token is replaced and the scan resumes after it. */
  lemma ReplaceAllTokenFirst(tok: string, s: string, rep: string)
    requires |tok| > 0
    ensures ReplaceAll(tok + s, tok, rep) == rep + ReplaceAll(s, tok, rep)
  {
    assert (tok + s)[..|tok|] == tok;
    assert (tok + s)[|tok|..] == s;
  }

  /** Text in which the token's first character does not occur is copied as it is. */
  lemma {:induction false} ReplaceAllPlainFirst(a: string, s: string, tok: string, rep: string)
    requires |tok| > 0 && tok[0] !in a
    ensures ReplaceAll(a + s, tok, rep) == a + ReplaceAll(s, tok, rep)
    decreases |a|
  {
    if a != [] {
      var t := a + s;
      if |t| >= |tok| {
        assert t[..|tok|][0] == a[0];
        assert t[..|tok|] != tok;
        assert ReplaceAll(t, tok, rep) == [t[0]] + ReplaceAll(t[1..], tok, rep);
        assert t[1..] == a[1..] + s;
        ReplaceAllPlainFirst(a[1..], s, tok, rep);
        assert [a[0]] + (a[1..] + ReplaceAll(s, tok, rep)) == a + ReplaceAll(s, tok, rep);
      } else {
        assert ReplaceAll(t, tok, rep) == t;
        assert ReplaceAll(s, tok, rep) == s;
      }
    } else {
      assert a + s == s;
    }
  }

  /**
   * Another token of the same family (same opening character, used nowhere
   * else in it, different second character) is copied as it is.
   */
  lemma ReplaceAllOtherTokenFirst(t: string, s: string, tok: string, rep: string)
    requires |tok| >= 2 && |t| >= 2 && t[0] == tok[0] && t[1] != tok[1] && tok[0] !in t[1..]
    ensures ReplaceAll(t + s, tok, rep) == t + ReplaceAll(s, tok, rep)
  {
    var u := t + s;
    if |u| >= |tok| {
      assert u[..|tok|][1] == t[1];
      assert u[..|tok|] != tok;
      assert ReplaceAll(u, tok, rep) == [u[0]] + ReplaceAll(u[1..], tok, rep);
      assert u[1..] == t[1..] + s;
      ReplaceAllPlainFirst(t[1..], s, tok, rep);
      assert [t[0]] + t[1..] == t;
    } else {
      assert |s| < |tok|;
    }
  }

  /** A character that is not part of tok survives the replacement. */
  lemma {:induction false} ReplaceAllKeeps(s: string, tok: string, rep: string, c: char)
    requires |tok| > 0 && c in s && c !in tok
    ensures c in ReplaceAll(s, tok, rep)
    decreases |s|
  {
    var r := ReplaceAll(s, tok, rep);
    if |s| < |tok| {
    } else if s[..|tok|] == tok {
      var i :| 0 <= i < |s| && s[i] == c;
      assert i >= |tok|;
      assert s[|tok|..][i - |tok|] == c;
      ReplaceAllKeeps(s[|tok|..], tok, rep, c);
      assert r == rep + ReplaceAll(s[|tok|..], tok, rep);
    } else if s[0] == c {
      assert r[0] == c;
    } else {
      var i :| 0 <= i < |s| && s[i] == c;
      assert s[1..][i - 1] == c;
      ReplaceAllKeeps(s[1..], tok, rep, c);
      assert r == [s[0]] + ReplaceAll(s[1..], tok, rep);
    }
  }

  /**
   * A token whose first character occurs nowhere else in it cannot start
   * inside non-empty text that does not contain it and run on into a copy
   * of the token appended to that text.
   */
  lemma TokenNotAtFront(a: string, tok: string)
    requires |tok| > 0 && tok[0] !in tok[1..]
    requires a != [] && !HasPrefix(a, tok)
    ensures (a + tok)[..|tok|] != tok
  {
    var s := a + tok;
    if |a| >= |tok| {
      assert s[..|tok|] == a[..|tok|];
    } else {
      assert s[..|tok|][|a|] == tok[0];
      assert tok[1..][|a| - 1] == tok[|a|];
      assert tok[|a|] != tok[0];
    }
  }

  /**
   * Text that does not contain such a token, followed by the token, turns
   * into that text followed by the replacement.
   */
  lemma {:induction false} ReplaceAllTrailingToken(a: string, tok: string, rep: string)
    requires |tok| > 0 && tok[0] !in tok[1..]
    requires !Contains(a, tok)
    ensures ReplaceAll(a + tok, tok, rep) == a + rep
    decreases |a|
  {
    var s := a + tok;
    if a == [] {
      assert s == tok && s[..|tok|] == tok && s[|tok|..] == [];
    } else {
      TokenNotAtFront(a, tok);
      assert s[1..] == a[1..] + tok;
      ReplaceAllTrailingToken(a[1..], tok, rep);
      assert ReplaceAll(s, tok, rep) == [a[0]] + (a[1..] + rep);
      assert [a[0]] + a[1..] == a;
    }
  }

  /** Go's `a < b` on strings: lexicographic by character. */
  predicate StrLess(a: string, b: string)
    ensures |a| < |b| && a == b[..|a|] ==> StrLess(a, b)
    decreases |a|
  {
    if |b| == 0 then false
    else if |a| == 0 then true
    else if a[0] != b[0] then a[0] < b[0]
    else
      assert |a| < |b| && a == b[..|a|] ==> a[1..] == b[1..][..|a| - 1];
      StrLess(a[1..], b[1..])
  }

  lemma {:induction false} StrLessIrreflexive(a: string)
    ensures !StrLess(a, a)
    decreases |a|
  {
    if |a| > 0 {
      StrLessIrreflexive(a[1..]);
    }
  }

  lemma {:induction false} StrLessAsymmetric(a: string, b: string)
    requires StrLess(a, b)
    ensures !StrLess(b, a)
    decreases |a|
  {
    if |a| > 0 && a[0] == b[0] {
      StrLessAsymmetric(a[1..], b[1..]);
    }
  }

  /** Two different strings are ordered one way or the other. */
  lemma {:induction false} StrLessTotal(a: string, b: string)
    requires a != b
    ensures StrLess(a, b) || StrLess(b, a)
    decreases |a|
  {
    if |a| > 0 && |b| > 0 && a[0] == b[0] {
      assert a == [a[0]] + a[1..] && b == [b[0]] + b[1..];
      StrLessTotal(a[1..], b[1..]);
    }
  }

  /** "Not greater than" is transitive, so sorting by name is well defined. */
  lemma {:induction false} StrLeqTransitive(a: string, b: string, c: string)
    requires !StrLess(b, a) && !StrLess(c, b)
    ensures !StrLess(c, a)
    decreases |a|
  {
    if |a| > 0 && a[0] == c[0] {
      StrLeqTransitive(a[1..], b[1..], c[1..]);
    }
  }
}
