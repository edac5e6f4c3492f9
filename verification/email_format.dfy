/**
 The e-mail format check of the registration handler, the anchored pattern
 `^[^\s@]+@[^\s@]+\.[^\s@]+$`, given three ways:

 - `RegexTest`: the pattern read segment by segment (three non-empty runs of
   the class `[^\s@]`, separated by `@` and `.`);
 - `WellShaped`: the plain-words reading (no whitespace, exactly one `@`, a
   non-empty local part, a dot inside the domain that is neither its first
   nor its last character);
 - `TestEmail`: a single left-to-right scan.

 `RegexIffWellShaped` and the contract of `TestEmail` show that all three agree.
 */
module EmailFormat {
  import opened Text

  /** The character class `[^\s@]`. */
  predicate InClass(c: char) {
    !IsSpace(c) && c != '@'
  }

  /** `s` matches `[^\s@]+`. */
  predicate Run(s: string) {
    |s| > 0 && forall k | 0 <= k < |s| :: InClass(s[k])
  }

  /** The pattern matches `s` with the `@` at index `i` and the literal `.` at index `j`. */
  predicate MatchesAt(s: string, i: int, j: int) {
    && 0 < i && i + 1 < j && j + 1 < |s|
    && s[i] == '@' && s[j] == '.'
    && Run(s[..i]) && Run(s[i + 1..j]) && Run(s[j + 1..])
  }

  /** `emailRegex.test(s)`: some placement of the `@` and the `.` matches the whole string. */
  function RegexTest(s: string): (b: bool)
    ensures b ==> 5 <= |s| && InClass(s[0]) && InClass(s[|s| - 1])
  {
    MatchBounds(s);
    exists i, j | 0 <= i < |s| && 0 <= j < |s| :: MatchesAt(s, i, j)
  }

  /** Every placement that matches needs at least five characters, and the
      first and last of them are in `[^\s@]`. */
  lemma MatchBounds(s: string)
    ensures forall i, j | 0 <= i < |s| && 0 <= j < |s| && MatchesAt(s, i, j) ::
      5 <= |s| && InClass(s[0]) && InClass(s[|s| - 1])
  {
    forall i, j | 0 <= i < |s| && 0 <= j < |s| && MatchesAt(s, i, j)
      ensures 5 <= |s| && InClass(s[0]) && InClass(s[|s| - 1])
    {
      assert s[..i][0] == s[0];
      assert s[j + 1..][|s| - j - 2] == s[|s| - 1];
    }
  }

  /** Number of occurrences of `c` in `s`. */
  function Count(c: char, s: string): nat {
    if |s| == 0 then 0
    else Count(c, s[..|s| - 1]) + (if s[|s| - 1] == c then 1 else 0)
  }

  /** Index `k` of the domain `d` holds a `.` that is neither its first nor its last character. */
  predicate InnerDotAt(d: string, k: int) {
    0 < k < |d| - 1 && d[k] == '.'
  }

  predicate HasInnerDot(d: string) {
    exists k | 0 <= k < |d| :: InnerDotAt(d, k)
  }

  /** Index `i` holds an `@` with a non-empty local part before it and an
      inner dot in the domain after it. */
  predicate SplitAt(s: string, i: int) {
    0 < i < |s| && s[i] == '@' && HasInnerDot(s[i + 1..])
  }

  /** The plain-words characterisation of a well-formed address. */
  predicate WellShaped(s: string) {
    && NoSpace(s)
    && Count('@', s) == 1
    && exists i | 0 <= i < |s| :: SplitAt(s, i)
  }

  lemma {:induction false} CountAppend(c: char, a: string, b: string)
    ensures Count(c, a + b) == Count(c, a) + Count(c, b)
    decreases |b|
  {
    if |b| > 0 {
      assert (a + b)[..|a + b| - 1] == a + b[..|b| - 1];
      CountAppend(c, a, b[..|b| - 1]);
    } else {
      assert a + b == a;
    }
  }

  lemma {:induction false} CountAbsent(c: char, s: string)
    requires forall k | 0 <= k < |s| :: s[k] != c
    ensures Count(c, s) == 0
  {
    if |s| > 0 {
      CountAbsent(c, s[..|s| - 1]);
    }
  }

  lemma {:induction false} CountPresent(c: char, s: string, i: int)
    requires 0 <= i < |s| && s[i] == c
    ensures Count(c, s) >= 1
  {
    if i < |s| - 1 {
      CountPresent(c, s[..|s| - 1], i);
    }
  }

  /** Two distinct occurrences of `c` make the count at least two. */
  lemma {:induction false} CountTwo(c: char, s: string, i: int, m: int)
    requires 0 <= i < m < |s| && s[i] == c && s[m] == c
    ensures Count(c, s) >= 2
  {
    if m < |s| - 1 {
      CountTwo(c, s[..|s| - 1], i, m);
    } else {
      CountPresent(c, s[..|s| - 1], i);
    }
  }

  /** When `c` occurs exactly once, every occurrence is the same index. */
  lemma CountOneUnique(c: char, s: string, i: int, m: int)
    requires Count(c, s) == 1
    requires 0 <= i < |s| && s[i] == c && 0 <= m < |s| && s[m] == c
    ensures i == m
  {
    if i < m {
      CountTwo(c, s, i, m);
    } else if m < i {
      CountTwo(c, s, m, i);
    }
  }

  lemma RegexImpliesWellShaped(s: string, i: int, j: int)
    requires MatchesAt(s, i, j)
    ensures WellShaped(s)
  {
    forall k | 0 <= k < |s|
      ensures !IsSpace(s[k])
    {
      if k < i {
        assert s[..i][k] == s[k];
      } else if i < k < j {
        assert s[i + 1..j][k - i - 1] == s[k];
      } else if j < k {
        assert s[j + 1..][k - j - 1] == s[k];
      }
    }
    var left, right := s[..i], s[i + 1..];
    assert s == left + [s[i]] + right;
    CountAppend('@', left + [s[i]], right);
    CountAppend('@', left, [s[i]]);
    assert Count('@', [s[i]]) == 1 by {
      assert [s[i]][..0] == [];
    }
    forall k | 0 <= k < |left| ensures left[k] != '@' {
      assert left[k] == s[..i][k];
    }
    CountAbsent('@', left);
    forall k | 0 <= k < |right| ensures right[k] != '@' {
      if k + i + 1 < j {
        assert right[k] == s[i + 1..j][k];
      } else if k + i + 1 > j {
        assert right[k] == s[j + 1..][k + i + 1 - j - 1];
      }
    }
    CountAbsent('@', right);
    assert InnerDotAt(right, j - i - 1);
    assert SplitAt(s, i);
  }

  lemma WellShapedImpliesRegex(s: string)
    requires WellShaped(s)
    ensures RegexTest(s)
  {
    var i :| 0 <= i < |s| && SplitAt(s, i);
    var d := s[i + 1..];
    var k :| 0 <= k < |d| && InnerDotAt(d, k);
    var j := i + 1 + k;
    assert s[j] == '.';
    forall m | 0 <= m < |s| && m != i
      ensures InClass(s[m])
    {
      if s[m] == '@' {
        CountOneUnique('@', s, i, m);
      }
    }
    assert Run(s[..i]);
    assert Run(s[i + 1..j]);
    assert Run(s[j + 1..]);
    assert MatchesAt(s, i, j);
  }

  /** The pattern as written and its plain-words reading accept the same strings. */
  lemma RegexIffWellShaped(s: string)
    ensures RegexTest(s) <==> WellShaped(s)
  {
    if RegexTest(s) {
      var i, j :| 0 <= i < |s| && 0 <= j < |s| && MatchesAt(s, i, j);
      RegexImpliesWellShaped(s, i, j);
    }
    if WellShaped(s) {
      WellShapedImpliesRegex(s);
    }
  }

  /** A matching address has no whitespace, so `trim` leaves it alone and it
      can be lower-cased before or after trimming with the same result. */
  lemma MatchHasNoSpace(s: string)
    requires RegexTest(s)
    ensures NoSpace(s)
    ensures Trim(s) == s
    ensures Trim(Lower(s)) == Lower(s)
  {
    RegexIffWellShaped(s);
    TrimIdentity(s);
    LowerKeepsSpace(s);
  }

  /** Lower-casing keeps a run of `[^\s@]` inside the class. */
  lemma LowerKeepsRun(s: string)
    requires Run(s)
    ensures Run(Lower(s))
  {
    LowerKeepsSpace(s);
  }

  /** Lower-casing an address keeps it inside the pattern. */
  lemma LowerKeepsMatch(s: string)
    requires RegexTest(s)
    ensures RegexTest(Lower(s))
  {
    var i, j :| 0 <= i < |s| && 0 <= j < |s| && MatchesAt(s, i, j);
    var t := Lower(s);
    assert t[i] == '@' && t[j] == '.';
    assert Run(t[..i]) by {
      assert t[..i] == Lower(s[..i]);
      LowerKeepsRun(s[..i]);
    }
    assert Run(t[i + 1..j]) by {
      assert t[i + 1..j] == Lower(s[i + 1..j]);
      LowerKeepsRun(s[i + 1..j]);
    }
    assert Run(t[j + 1..]) by {
      assert t[j + 1..] == Lower(s[j + 1..]);
      LowerKeepsRun(s[j + 1..]);
    }
    assert MatchesAt(t, i, j);
  }

  /** Lower-casing never moves a character into `[^\s@]`. */
  lemma LowerCharReflectsClass(c: char)
    ensures InClass(LowerChar(c)) ==> InClass(c)
    ensures LowerChar(c) == '@' <==> c == '@'
    ensures LowerChar(c) == '.' <==> c == '.'
  {
  }

  /** A run of `[^\s@]` after lower-casing was one before. */
  lemma LowerReflectsRun(s: string)
    requires Run(Lower(s))
    ensures Run(s)
  {
    forall k | 0 <= k < |s| ensures InClass(s[k]) {
      assert InClass(Lower(s)[k]);
      LowerCharReflectsClass(s[k]);
    }
  }

  /** The pattern accepts an address exactly when it accepts its lower-cased form. */
  lemma LowerMatchIff(s: string)
    ensures RegexTest(Lower(s)) <==> RegexTest(s)
  {
    if RegexTest(s) {
      LowerKeepsMatch(s);
    }
    if RegexTest(Lower(s)) {
      var t := Lower(s);
      var i, j :| 0 <= i < |t| && 0 <= j < |t| && MatchesAt(t, i, j);
      LowerCharReflectsClass(s[i]);
      LowerCharReflectsClass(s[j]);
      assert t[..i] == Lower(s[..i]);
      LowerReflectsRun(s[..i]);
      assert t[i + 1..j] == Lower(s[i + 1..j]);
      LowerReflectsRun(s[i + 1..j]);
      assert t[j + 1..] == Lower(s[j + 1..]);
      LowerReflectsRun(s[j + 1..]);
      assert MatchesAt(s, i, j);
    }
  }

  /** Single-pass evaluation of the pattern. */
  method TestEmail(s: string) returns (ok: bool)
    ensures ok <==> RegexTest(s)
    ensures ok <==> WellShaped(s)
  {
    var noSpace := true;
    var ats := 0;
    var at := -1;
    var dot := false;
    var n := 0;
    while n < |s|
      invariant 0 <= n <= |s|
      invariant noSpace <==> NoSpace(s[..n])
      invariant ats == Count('@', s[..n])
      invariant -1 <= at < n
      invariant at == -1 <==> ats == 0
      invariant at >= 0 ==> s[at] == '@' && forall q | at < q < n :: s[q] != '@'
      invariant dot <==> exists p | at + 1 < p < n :: p < |s| - 1 && s[p] == '.'
    {
      assert s[..n + 1][..n] == s[..n];
      if IsSpace(s[n]) {
        noSpace := false;
      }
      if s[n] == '@' {
        ats := ats + 1;
        at := n;
        dot := false;
      } else if s[n] == '.' && n < |s| - 1 && at + 1 < n {
        dot := true;
      }
      n := n + 1;
    }
    assert s[..n] == s;
    ok := noSpace && ats == 1 && at > 0 && dot;
    if ok {
      var p :| at + 1 < p < |s| && p < |s| - 1 && s[p] == '.';
      assert InnerDotAt(s[at + 1..], p - at - 1);
      assert SplitAt(s, at);
      assert WellShaped(s);
    }
    if WellShaped(s) {
      var i :| 0 <= i < |s| && SplitAt(s, i);
      CountOneUnique('@', s, i, at);
      var k :| 0 <= k < |s[i + 1..]| && InnerDotAt(s[i + 1..], k);
      assert s[i + 1 + k] == '.';
    }
    RegexIffWellShaped(s);
  }
}
