/**
 The string primitives the registration handler relies on: the ECMAScript
 whitespace class (shared by the regular-expression escape `\s` and by
 `String.prototype.trim`), lower-casing and trimming.

 Lower-casing is modelled on ASCII letters only; every other character is
 left as it is.
 */
module Text {

  /** ECMAScript WhiteSpace and LineTerminator code points: the set matched by
      `\s` in a regular expression and removed by `trim`. */
  predicate IsSpace(c: char) {
    || c == '\t' || c == '\n' || c == '\U{000B}' || c == '\U{000C}' || c == '\r' || c == ' '
    || c == '\U{00A0}' || c == '\U{1680}'
    || ('\U{2000}' <= c <= '\U{200A}')
    || c == '\U{2028}' || c == '\U{2029}' || c == '\U{202F}' || c == '\U{205F}'
    || c == '\U{3000}' || c == '\U{FEFF}'
  }

  /** No character of `s` is whitespace. */
  predicate NoSpace(s: string) {
    forall k | 0 <= k < |s| :: !IsSpace(s[k])
  }

  /** `s` neither starts nor ends with whitespace. */
  predicate Trimmed(s: string) {
    s == [] || (!IsSpace(s[0]) && !IsSpace(s[|s| - 1]))
  }

  predicate IsUpper(c: char) {
    'A' <= c <= 'Z'
  }

  /** Lower-case one character (ASCII letters only). */
  function LowerChar(c: char): (d: char)
    ensures !IsUpper(d)
    ensures IsUpper(c) ==> 'a' <= d <= 'z' && d as int - c as int == 'a' as int - 'A' as int
    ensures !IsUpper(c) ==> d == c
  {
    if IsUpper(c) then (c as int + ('a' as int - 'A' as int)) as char else c
  }

  /** `s.toLowerCase()`, restricted to ASCII letters. */
  function Lower(s: string): (r: string)
    ensures |r| == |s|
    ensures forall k | 0 <= k < |s| :: r[k] == LowerChar(s[k])
  {
    seq(|s|, k requires 0 <= k < |s| => LowerChar(s[k]))
  }

  /** Drops the leading whitespace: the result is the longest suffix of `s`
      that does not start with whitespace, and everything dropped is whitespace. */
  function TrimStart(s: string): (r: string)
    ensures |r| <= |s| && r == s[|s| - |r|..]
    ensures forall k | 0 <= k < |s| - |r| :: IsSpace(s[k])
    ensures r == [] || !IsSpace(r[0])
    decreases |s|
  {
    if |s| > 0 && IsSpace(s[0]) then TrimStart(s[1..]) else s
  }

  /** Drops the trailing whitespace: the result is the longest prefix of `s`
      that does not end with whitespace, and everything dropped is whitespace. */
  function TrimEnd(s: string): (r: string)
    ensures |r| <= |s| && r == s[..|r|]
    ensures forall k | |r| <= k < |s| :: IsSpace(s[k])
    ensures r == [] || !IsSpace(r[|r| - 1])
    decreases |s|
  {
    if |s| > 0 && IsSpace(s[|s| - 1]) then TrimEnd(s[..|s| - 1]) else s
  }

  /** `s.trim()`: a contiguous slice of `s`, with whitespace only outside it,
      and with no whitespace at either end. */
  function Trim(s: string): (r: string)
    ensures Trimmed(r)
    ensures exists a :: SliceBetweenSpace(s, r, a)
  {
    TrimIsSlice(s);
    TrimEnd(TrimStart(s))
  }

  /** Trimming the end after the start leaves a slice of `s` with only whitespace outside it. */
  lemma TrimIsSlice(s: string)
    ensures SliceBetweenSpace(s, TrimEnd(TrimStart(s)), |s| - |TrimStart(s)|)
  {
    var t := TrimStart(s);
    var r := TrimEnd(t);
    var a := |s| - |t|;
    PrefixOfSuffix(s, t, r, a);
    assert forall k | a + |r| <= k < |s| :: IsSpace(s[k]) by {
      forall k | a + |r| <= k < |s| ensures IsSpace(s[k]) {
        assert s[k] == t[k - a];
      }
    }
    assert SliceBetweenSpace(s, r, a);
  }

  /** A prefix `r` of the suffix `t` of `s` starting at `a` is the slice of `s` at `a`. */
  lemma PrefixOfSuffix(s: string, t: string, r: string, a: int)
    requires 0 <= a <= |s| && t == s[a..] && |r| <= |t| && r == t[..|r|]
    ensures r == s[a..a + |r|]
    ensures forall k | a <= k < |s| :: s[k] == t[k - a]
  {
  }

  /** `r` is the slice of `s` starting at `a`, and only whitespace lies
      outside that slice. */
  predicate SliceBetweenSpace(s: string, r: string, a: int) {
    && 0 <= a <= |s| - |r|
    && r == s[a..a + |r|]
    && (forall k | 0 <= k < a :: IsSpace(s[k]))
    && (forall k | a + |r| <= k < |s| :: IsSpace(s[k]))
  }

  /** Trimming changes nothing exactly when there is no whitespace at either end. */
  lemma TrimIdentity(s: string)
    ensures Trim(s) == s <==> Trimmed(s)
  {
    if Trimmed(s) && s != [] {
      assert TrimStart(s) == s;
      assert TrimEnd(s) == s;
    }
  }

  /** Every character of `s` is whitespace. */
  predicate AllSpace(s: string) {
    forall k | 0 <= k < |s| :: IsSpace(s[k])
  }

  /** Leading whitespace makes no difference to `TrimStart`. */
  lemma {:induction false} TrimStartDropsPadding(pad: string, t: string)
    requires AllSpace(pad)
    ensures TrimStart(pad + t) == TrimStart(t)
  {
    if |pad| > 0 {
      assert (pad + t)[1..] == pad[1..] + t;
      TrimStartDropsPadding(pad[1..], t);
    } else {
      assert pad + t == t;
    }
  }

  /** Trailing whitespace makes no difference to `TrimEnd`. */
  lemma {:induction false} TrimEndDropsPadding(t: string, pad: string)
    requires AllSpace(pad)
    ensures TrimEnd(t + pad) == TrimEnd(t)
  {
    if |pad| > 0 {
      assert (t + pad)[..|t + pad| - 1] == t + pad[..|pad| - 1];
      TrimEndDropsPadding(t, pad[..|pad| - 1]);
    } else {
      assert t + pad == t;
    }
  }

  /** Trimming text that has no whitespace at its ends, padded with whitespace
      on both sides, gives back the text. */
  lemma TrimDropsPadding(pre: string, w: string, post: string)
    requires AllSpace(pre) && AllSpace(post) && Trimmed(w)
    ensures Trim(pre + w + post) == w
  {
    assert pre + w + post == pre + (w + post);
    TrimStartDropsPadding(pre, w + post);
    if w == [] {
      assert w + post == post + [];
      TrimStartDropsPadding(post, []);
    } else {
      TrimEndOfPadded(w, post);
    }
  }

  /** Text that starts and ends with non-whitespace, followed by whitespace,
      loses exactly the whitespace when trimmed. */
  lemma TrimEndOfPadded(w: string, post: string)
    requires AllSpace(post) && Trimmed(w) && w != []
    ensures TrimEnd(TrimStart(w + post)) == w
  {
    assert TrimStart(w + post) == w + post by {
      assert (w + post)[0] == w[0];
    }
    TrimEndDropsPadding(w, post);
    assert TrimEnd(w) == w;
  }

  /** Trimming is idempotent. */
  lemma TrimIdempotent(s: string)
    ensures Trim(Trim(s)) == Trim(s)
  {
    TrimIdentity(Trim(s));
  }

  /** Lower-casing is idempotent. */
  lemma LowerIdempotent(s: string)
    ensures Lower(Lower(s)) == Lower(s)
  {
  }

  /** A trimmed lower-cased string has no upper-case letter: trimming only
      takes a slice. */
  lemma LowerTrimHasNoUpper(s: string)
    ensures forall k | 0 <= k < |Trim(Lower(s))| :: !IsUpper(Trim(Lower(s))[k])
  {
    var t := Lower(s);
    var r := Trim(t);
    var a :| SliceBetweenSpace(t, r, a);
    forall k | 0 <= k < |r| ensures !IsUpper(r[k]) {
      assert r[k] == t[a + k];
    }
  }

  /** Lower-casing a character keeps it whitespace or non-whitespace. */
  lemma LowerCharKeepsSpace(c: char)
    ensures IsSpace(LowerChar(c)) <==> IsSpace(c)
  {
  }

  /** Lower-casing never creates or removes whitespace, so a string without
      whitespace stays without it and `trim` after lower-casing is a no-op. */
  lemma LowerKeepsSpace(s: string)
    ensures forall k | 0 <= k < |s| :: IsSpace(Lower(s)[k]) <==> IsSpace(s[k])
    ensures NoSpace(s) <==> NoSpace(Lower(s))
    ensures NoSpace(s) ==> Trim(Lower(s)) == Lower(s)
  {
    var t := Lower(s);
    forall k | 0 <= k < |s|
      ensures IsSpace(t[k]) <==> IsSpace(s[k])
    {
      LowerCharKeepsSpace(s[k]);
    }
    if NoSpace(s) {
      TrimIdentity(t);
    }
  }
}
