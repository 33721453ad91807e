/**
 * The JavaScript string built-ins the query builders rely on:
 * `String.prototype.indexOf`, `String.prototype.replace` with a string
 * pattern and a string replacement, and `Array.prototype.join`.
 * Strings are sequences of Unicode scalar values: a text holding a lone
 * UTF-16 surrogate cannot be represented. The builders only ever search for
 * ASCII tokens, so for every representable text the two views agree.
 */
module JsText {

  /** `pat` occurs in `s` starting at index `i`. */
  predicate Occurs(s: string, pat: string, i: int) {
    0 <= i && i + |pat| <= |s| && s[i..i + |pat|] == pat
  }

  /** `pat` occurs nowhere in `s`. */
  ghost predicate NoOcc(s: string, pat: string) {
    forall i :: !Occurs(s, pat, i)
  }

  ghost predicate StartsWith(s: string, prefix: string) {
    |prefix| <= |s| && s[..|prefix|] == prefix
  }

  ghost predicate EndsWith(s: string, suffix: string) {
    |suffix| <= |s| && s[|s| - |suffix|..] == suffix
  }

  /** The first index at or after `from` where `pat` occurs, or -1. */
  function IndexFrom(s: string, pat: string, from: nat): (r: int)
    decreases |s| - from
    ensures r == -1 || (from <= r && Occurs(s, pat, r))
    ensures forall i :: from <= i && (r == -1 || i < r) ==> !Occurs(s, pat, i)
  {
    if from + |pat| > |s| then -1
    else if s[from..from + |pat|] == pat then from
    else IndexFrom(s, pat, from + 1)
  }

  /** `s.indexOf(pat)`: the first index where `pat` occurs, or -1 when it does not occur. */
  function IndexOf(s: string, pat: string): (r: int)
    ensures r == -1 <==> NoOcc(s, pat)
    ensures r != -1 ==> Occurs(s, pat, r) && forall i :: 0 <= i < r ==> !Occurs(s, pat, i)
  {
    IndexFrom(s, pat, 0)
  }

  /**
   * The characters that, after a `$`, make a replacement pattern special
   * when the search pattern is a string (there are no capture groups):
   * `$$` inserts `$`, `$&` the matched text, `` $` `` the text before the
   * match and `$'` the text after it.
   */
  const Specials: string := "$&`'"

  /**
   * GetSubstitution of ECMAScript for a string pattern: expands the four
   * special `$` patterns of `rep`. Every other `$` (including `$1`..`$99`
   * and `$<`, which need capture groups) is copied as it stands.
   */
  function Substitute(rep: string, matched: string, before: string, after: string): string
    decreases |rep|
  {
    if |rep| == 0 then ""
    else if rep[0] == '$' && |rep| >= 2 && rep[1] == '$' then "$" + Substitute(rep[2..], matched, before, after)
    else if rep[0] == '$' && |rep| >= 2 && rep[1] == '&' then matched + Substitute(rep[2..], matched, before, after)
    else if rep[0] == '$' && |rep| >= 2 && rep[1] == '`' then before + Substitute(rep[2..], matched, before, after)
    else if rep[0] == '$' && |rep| >= 2 && rep[1] == '\'' then after + Substitute(rep[2..], matched, before, after)
    else [rep[0]] + Substitute(rep[1..], matched, before, after)
  }

  /** A special `$` pattern starts at index `i` of `rep`. */
  predicate DollarPatternAt(rep: string, i: int) {
    0 <= i < |rep| - 1 && rep[i] == '$' && rep[i + 1] in Specials
  }

  /** `rep` holds no special `$` pattern, so `replace` inserts it as it stands. */
  ghost predicate Verbatim(rep: string) {
    forall i :: !DollarPatternAt(rep, i)
  }

  /** `s.replace(pat, rep)` with a string `pat`: only the first occurrence is replaced. */
  function ReplaceFirst(s: string, pat: string, rep: string): string {
    var p := IndexOf(s, pat);
    if p == -1 then s
    else s[..p] + Substitute(rep, pat, s[..p], s[p + |pat|..]) + s[p + |pat|..]
  }

  /** `parts.join(sep)`; also `String(parts)` when `sep` is ",". */
  function Join(parts: seq<string>, sep: string): string {
    if |parts| == 0 then ""
    else if |parts| == 1 then parts[0]
    else Join(parts[..|parts| - 1], sep) + sep + parts[|parts| - 1]
  }

  // ---------------------------------------------------------------------
  // Where a pattern cannot occur

  /** A pattern with a character that `s` lacks does not occur in `s`. */
  lemma AbsentCharNoOcc(s: string, pat: string, c: char)
    requires c in pat && c !in s
    ensures NoOcc(s, pat)
  {
    var k :| 0 <= k < |pat| && pat[k] == c;
    forall i ensures !Occurs(s, pat, i) {
      if 0 <= i && i + |pat| <= |s| {
        assert s[i..i + |pat|][k] == s[i + k];
        assert s[i + k] in s;
      }
    }
  }

  /**
   * Gluing two texts in which `pat` does not occur cannot create an
   * occurrence when the character on one side of the seam is not in `pat`.
   */
  lemma {:induction false} NoOccGlue(a: string, b: string, pat: string)
    requires NoOcc(a, pat) && NoOcc(b, pat)
    requires a == [] || b == [] || a[|a| - 1] !in pat || b[0] !in pat
    ensures NoOcc(a + b, pat)
  {
    var s := a + b;
    forall i ensures !Occurs(s, pat, i) {
      if 0 <= i && i + |pat| <= |s| {
        var w := s[i..i + |pat|];
        if i + |pat| <= |a| {
          assert w == a[i..i + |pat|];
          assert !Occurs(a, pat, i);
        } else if |a| <= i {
          assert w == b[i - |a|..i - |a| + |pat|];
          assert !Occurs(b, pat, i - |a|);
        } else {
          assert w[|a| - 1 - i] == a[|a| - 1];
          assert w[|a| - i] == b[0];
        }
      }
    }
  }

  /**
   * When `pat` does not occur in `a` and the last character of `a` is not
   * in `pat`, no occurrence of `pat` in `a + b` starts inside `a`.
   */
  lemma NoOccurrenceBefore(a: string, b: string, pat: string)
    requires |pat| > 0 && NoOcc(a, pat)
    requires a == [] || a[|a| - 1] !in pat
    ensures forall i :: i < |a| ==> !Occurs(a + b, pat, i)
  {
    var s := a + b;
    forall i | i < |a| ensures !Occurs(s, pat, i) {
      if 0 <= i && i + |pat| <= |s| {
        var w := s[i..i + |pat|];
        if i + |pat| <= |a| {
          assert w == a[i..i + |pat|];
          assert !Occurs(a, pat, i);
        } else {
          assert w[|a| - 1 - i] == a[|a| - 1];
        }
      }
    }
  }

  /** In `a + pat + b`, the first occurrence of `pat` is the one right after `a`. */
  lemma FirstOccurrence(a: string, pat: string, b: string)
    requires |pat| > 0 && NoOcc(a, pat)
    requires a == [] || a[|a| - 1] !in pat
    ensures IndexOf(a + pat + b, pat) == |a|
  {
    var s := a + pat + b;
    assert s == a + (pat + b);
    NoOccurrenceBefore(a, pat + b, pat);
    assert s[|a|..|a| + |pat|] == pat;
    assert Occurs(s, pat, |a|);
  }

  /** Replacing in `a + pat + b` splices the substituted replacement between `a` and `b`. */
  lemma ReplaceFirstAt(a: string, pat: string, b: string, rep: string)
    requires |pat| > 0 && NoOcc(a, pat)
    requires a == [] || a[|a| - 1] !in pat
    ensures ReplaceFirst(a + pat + b, pat, rep) == a + Substitute(rep, pat, a, b) + b
  {
    var s := a + pat + b;
    FirstOccurrence(a, pat, b);
    assert s[..|a|] == a;
    assert s[|a| + |pat|..] == b;
  }

  /** Whatever follows a known occurrence of `pat` survives the replacement. */
  lemma ReplaceFirstKeepsSuffix(s: string, pat: string, rep: string, k: int)
    requires Occurs(s, pat, k)
    ensures EndsWith(ReplaceFirst(s, pat, rep), s[k + |pat|..])
  {
    var p := IndexOf(s, pat);
    assert p != -1 && p <= k by {
      OccursRefutesNoOcc(s, pat, k);
    }
    var tail := s[p + |pat|..];
    var m := s[..p] + Substitute(rep, pat, s[..p], tail);
    assert s[k + |pat|..] == tail[k - p..];
    EndsWithTailOf(m, tail, k - p);
  }

  /** A text ending in `tail` ends in every suffix of `tail`. */
  lemma EndsWithTailOf(m: string, tail: string, d: int)
    requires 0 <= d <= |tail|
    ensures EndsWith(m + tail, tail[d..])
  {
    assert (m + tail)[|m| + d..] == tail[d..];
  }

  /** A prefix in which `pat` cannot start survives the replacement. */
  lemma ReplaceFirstKeepsPrefix(a: string, b: string, pat: string, rep: string)
    requires |pat| > 0 && NoOcc(a, pat)
    requires a == [] || a[|a| - 1] !in pat
    ensures StartsWith(ReplaceFirst(a + b, pat, rep), a)
  {
    var s := a + b;
    NoOccurrenceBefore(a, b, pat);
    var p := IndexOf(s, pat);
    if p != -1 {
      assert |a| <= p;
      assert s[..p][..|a|] == a;
    }
  }

  lemma EndsWithSuffix(s: string, a: string, b: string)
    requires EndsWith(s, a + b)
    ensures EndsWith(s, b)
  {
    assert (a + b)[|a|..] == b;
    assert s[|s| - |b|..] == s[|s| - |a + b|..][|a|..];
  }

  /** A text that starts with `pat` makes `pat` occur right where it is appended. */
  lemma OccursWhereAppended(a: string, b: string, pat: string)
    requires StartsWith(b, pat)
    ensures Occurs(a + b, pat, |a|)
  {
    assert (a + b)[|a|..|a| + |pat|] == b[..|pat|];
  }

  /** An occurrence at `k` rules out that the pattern is absent. */
  lemma OccursRefutesNoOcc(s: string, pat: string, k: int)
    requires Occurs(s, pat, k)
    ensures !NoOcc(s, pat)
  {
  }

  /**
   * Splicing two tokens one after the other into `h + p + m + q + t` keeps
   * `h` in front and `t` at the end, whatever the replacements, as long as
   * neither token can start inside `h`.
   */
  lemma ReplaceTwiceFrame(h: string, p: string, m: string, q: string, t: string, x: string, y: string)
    requires |p| > 0 && |q| > 0 && NoOcc(h, p) && NoOcc(h, q)
    requires h == [] || (h[|h| - 1] !in p && h[|h| - 1] !in q)
    ensures StartsWith(ReplaceFirst(ReplaceFirst(h + p + m + q + t, p, x), q, y), h)
    ensures EndsWith(ReplaceFirst(ReplaceFirst(h + p + m + q + t, p, x), q, y), t)
  {
    var rest := m + q + t;
    assert h + p + m + q + t == h + p + rest;
    ReplaceFirstAt(h, p, rest, x);
    var w := Substitute(x, p, h, rest);
    SecondTokenFrame(h, w, m, q, t, y);
  }

  lemma SecondTokenFrame(h: string, w: string, m: string, q: string, t: string, y: string)
    requires |q| > 0 && NoOcc(h, q) && (h == [] || h[|h| - 1] !in q)
    ensures StartsWith(ReplaceFirst(h + w + (m + q + t), q, y), h)
    ensures EndsWith(ReplaceFirst(h + w + (m + q + t), q, y), t)
  {
    assert h + w + (m + q + t) == h + (w + (m + q + t));
    ReplaceFirstKeepsPrefix(h, w + (m + q + t), q, y);
    SecondTokenKeepsTail(h + w, m, q, t, y);
  }

  /** Replacing a token that occurs in front of `t` keeps `t` at the end. */
  lemma SecondTokenKeepsTail(hw: string, m: string, q: string, t: string, y: string)
    ensures EndsWith(ReplaceFirst(hw + (m + q + t), q, y), t)
  {
    var a := hw + m;
    var s := hw + (m + q + t);
    assert s == a + (q + t);
    assert (q + t)[..|q|] == q;
    OccursWhereAppended(a, q + t, q);
    assert s[|a| + |q|..] == t;
    ReplaceFirstKeepsSuffix(s, q, y, |a|);
  }

  /**
   * When the first replacement starts with a text `lead` free of `$`, and the
   * second token cannot start inside `h + lead`, two chained replaces into
   * `h + p + rest` keep `h + lead` in front, whatever follows `lead`.
   */
  lemma ReplaceTwiceKeepsLead(h: string, p: string, rest: string, lead: string, x: string, q: string, y: string)
    requires |p| > 0 && NoOcc(h, p) && (h == [] || h[|h| - 1] !in p)
    requires '$' !in lead
    requires |q| > 0 && NoOcc(h + lead, q) && (h + lead == [] || (h + lead)[|h + lead| - 1] !in q)
    ensures StartsWith(ReplaceFirst(ReplaceFirst(h + p + rest, p, lead + x), q, y), h + lead)
  {
    var w := Substitute(x, p, h, rest);
    SubstitutePlainPrefix(lead, x, p, h, rest);
    assert h + (lead + w) + rest == (h + lead) + (w + rest);
    ReplaceFirstAt(h, p, rest, lead + x);
    ReplaceFirstKeepsPrefix(h + lead, w + rest, q, y);
  }

  /** A pattern at the start of `w` occurs at `|a|` in every text that starts with `a + w`. */
  lemma OccursInPrefix(s: string, a: string, w: string, pat: string)
    requires StartsWith(s, a + w) && StartsWith(w, pat)
    ensures Occurs(s, pat, |a|)
  {
    var aw := a + w;
    assert aw[|a|..] == w;
    assert aw[|a|..|a| + |pat|] == aw[|a|..][..|pat|];
    assert s[|a|..|a| + |pat|] == s[..|aw|][|a|..|a| + |pat|];
  }

  // ---------------------------------------------------------------------
  // When a replacement is inserted as it stands

  /** Text without `$` in front of a replacement is copied ahead of whatever the rest becomes. */
  lemma {:induction false} SubstitutePlainPrefix(pre: string, x: string, matched: string, before: string, after: string)
    requires '$' !in pre
    ensures Substitute(pre + x, matched, before, after) == pre + Substitute(x, matched, before, after)
    decreases |pre|
  {
    if pre == [] {
      assert pre + x == x;
    } else {
      var r := pre + x;
      assert pre[0] in pre;
      assert r[0] == pre[0] != '$';
      assert Substitute(r, matched, before, after) == [r[0]] + Substitute(r[1..], matched, before, after);
      assert r[1..] == pre[1..] + x;
      SubstitutePlainPrefix(pre[1..], x, matched, before, after);
      assert pre == [pre[0]] + pre[1..];
    }
  }

  /** A replacement without special `$` patterns is inserted unchanged. */
  lemma {:induction false} SubstituteVerbatim(rep: string, matched: string, before: string, after: string)
    requires Verbatim(rep)
    ensures Substitute(rep, matched, before, after) == rep
  {
    if |rep| > 0 {
      assert !DollarPatternAt(rep, 0);
      assert Verbatim(rep[1..]) by {
        forall i ensures !DollarPatternAt(rep[1..], i) {
          assert !DollarPatternAt(rep, i + 1);
        }
      }
      SubstituteVerbatim(rep[1..], matched, before, after);
    }
  }

  lemma NoDollarVerbatim(s: string)
    requires '$' !in s
    ensures Verbatim(s)
  {
    forall i ensures !DollarPatternAt(s, i) {
      if 0 <= i < |s| {
        assert s[i] in s;
      }
    }
  }

  /** Gluing two verbatim texts stays verbatim unless the seam forms a special pattern. */
  lemma VerbatimGlue(a: string, b: string)
    requires Verbatim(a) && Verbatim(b)
    requires a == [] || b == [] || a[|a| - 1] != '$' || b[0] !in Specials
    ensures Verbatim(a + b)
  {
    var s := a + b;
    forall i ensures !DollarPatternAt(s, i) {
      if 0 <= i < |s| - 1 {
        if i + 1 < |a| {
          assert !DollarPatternAt(a, i);
          assert s[i] == a[i] && s[i + 1] == a[i + 1];
        } else if |a| <= i {
          assert !DollarPatternAt(b, i - |a|);
          assert s[i] == b[i - |a|] && s[i + 1] == b[i - |a| + 1];
        } else {
          assert s[i] == a[|a| - 1] && s[i + 1] == b[0];
        }
      }
    }
  }

  // ---------------------------------------------------------------------
  // Joined lists

  /** No part and no separator contains `pat`, and the separator's ends are not in `pat`. */
  lemma {:induction false} JoinNoOcc(parts: seq<string>, sep: string, pat: string)
    requires forall k :: 0 <= k < |parts| ==> NoOcc(parts[k], pat)
    requires NoOcc(sep, pat) && |sep| > 0 && sep[0] !in pat && sep[|sep| - 1] !in pat
    ensures NoOcc(Join(parts, sep), pat)
  {
    if |parts| == 0 {
      assert !Occurs(sep, pat, 0);
    } else if |parts| == 1 {
      assert NoOcc(parts[0], pat);
    } else {
      var init := parts[..|parts| - 1];
      JoinNoOcc(init, sep, pat);
      NoOccGlue(Join(init, sep), sep, pat);
      NoOccGlue(Join(init, sep) + sep, parts[|parts| - 1], pat);
    }
  }

  /** Every part and the separator are verbatim, and the separator cannot complete or start a `$` pattern. */
  lemma {:induction false} JoinVerbatim(parts: seq<string>, sep: string)
    requires forall k :: 0 <= k < |parts| ==> Verbatim(parts[k])
    requires Verbatim(sep) && |sep| > 0 && sep[0] !in Specials && sep[|sep| - 1] != '$'
    ensures Verbatim(Join(parts, sep))
  {
    if |parts| >= 2 {
      var init := parts[..|parts| - 1];
      JoinVerbatim(init, sep);
      VerbatimGlue(Join(init, sep), sep);
      VerbatimGlue(Join(init, sep) + sep, parts[|parts| - 1]);
    }
  }

  /**
   * With verbatim replacements, and the second token first occurring where
   * the template has it, splicing two tokens one after the other into
   * `h + p + m + q + t` gives `h + x + m + y + t`.
   */
  lemma ReplaceTwiceAt(h: string, p: string, m: string, q: string, t: string, x: string, y: string)
    requires |p| > 0 && NoOcc(h, p) && (h == [] || h[|h| - 1] !in p)
    requires |q| > 0 && NoOcc(h + x + m, q) && (h + x + m == [] || (h + x + m)[|h + x + m| - 1] !in q)
    requires Verbatim(x) && Verbatim(y)
    ensures ReplaceFirst(ReplaceFirst(h + p + m + q + t, p, x), q, y) == h + x + m + y + t
  {
    var rest := m + q + t;
    assert h + p + m + q + t == h + p + rest;
    assert h + x + rest == (h + x + m) + q + t;
    assert (h + x + m) + y + t == h + x + m + y + t;
    ReplaceVerbatimAt(h, p, rest, x);
    ReplaceVerbatimAt(h + x + m, q, t, y);
  }

  /** A verbatim replacement for the first occurrence of `pat`, right after `a`, goes in as it stands. */
  lemma ReplaceVerbatimAt(a: string, pat: string, b: string, rep: string)
    requires |pat| > 0 && NoOcc(a, pat) && (a == [] || a[|a| - 1] !in pat)
    requires Verbatim(rep)
    ensures ReplaceFirst(a + pat + b, pat, rep) == a + rep + b
  {
    ReplaceFirstAt(a, pat, b, rep);
    SubstituteVerbatim(rep, pat, a, b);
  }
}
