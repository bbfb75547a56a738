/** String operations the tools rely on: substring test (Python's `in`),
    replace-all (Python's `str.replace`), ASCII lower-casing, and a small
    theory of brace-delimited markers explaining when a replace-all can and
    cannot leave a marker behind. */
module Text {

  /** `pre` is a prefix of `s`. */
  predicate IsPrefix(pre: string, s: string) {
    |pre| <= |s| && s[..|pre|] == pre
  }

  /** `pat` occurs in `s` starting at index `i`. */
  predicate OccursAt(s: string, pat: string, i: int) {
    0 <= i && i + |pat| <= |s| && s[i..i + |pat|] == pat
  }

  /** Python's `pat in s` for strings: `pat` occurs as a contiguous run. */
  predicate Contains(s: string, pat: string)
    decreases |s|
  {
    IsPrefix(pat, s) || (|s| > 0 && Contains(s[1..], pat))
  }

  /** The recursive scan agrees with "there is a position where `pat` occurs". */
  lemma {:induction false} ContainsIff(s: string, pat: string)
    ensures Contains(s, pat) <==> exists i :: OccursAt(s, pat, i)
    decreases |s|
  {
    if IsPrefix(pat, s) {
      assert OccursAt(s, pat, 0);
    } else if |s| == 0 {
      assert |pat| > 0;
    } else {
      ContainsIff(s[1..], pat);
      if Contains(s[1..], pat) {
        var i :| OccursAt(s[1..], pat, i);
        assert s[1..][i..i + |pat|] == s[i + 1..i + 1 + |pat|];
        assert OccursAt(s, pat, i + 1);
      }
      forall i | OccursAt(s, pat, i)
        ensures Contains(s[1..], pat)
      {
        assert s[0..|pat|] == s[..|pat|];
        assert i != 0;
        assert s[1..][i - 1..i - 1 + |pat|] == s[i..i + |pat|];
        assert OccursAt(s[1..], pat, i - 1);
      }
    }
  }

  /** An occurrence in `t` is still an occurrence once text is put in front. */
  lemma {:induction false} ContainsPrepend(a: string, t: string, pat: string)
    ensures Contains(t, pat) ==> Contains(a + t, pat)
    decreases |a|
  {
    if |a| > 0 {
      ContainsPrepend(a[1..], t, pat);
      assert (a + t)[1..] == a[1..] + t;
    } else {
      assert a + t == t;
    }
  }

  /** Python's `s.replace(pat, rep)`: scanning left to right, every
      non-overlapping occurrence of `pat` is replaced by `rep`. The empty
      pattern is not covered (every caller passes a non-empty marker). */
  function ReplaceAll(s: string, pat: string, rep: string): (r: string)
    requires |pat| > 0
    ensures !Contains(s, pat) ==> r == s
    decreases |s|
  {
    if IsPrefix(pat, s) then rep + ReplaceAll(s[|pat|..], pat, rep)
    else if |s| == 0 then s
    else [s[0]] + ReplaceAll(s[1..], pat, rep)
  }

  /** The first occurrence of `pat` is always replaced, so `rep` shows up in the result. */
  lemma {:induction false} ReplaceAllInsertsValue(s: string, pat: string, rep: string)
    requires |pat| > 0
    requires Contains(s, pat)
    ensures Contains(ReplaceAll(s, pat, rep), rep)
    decreases |s|
  {
    if IsPrefix(pat, s) {
      var t := ReplaceAll(s[|pat|..], pat, rep);
      assert IsPrefix(rep, rep + t) by { assert (rep + t)[..|rep|] == rep; }
    } else {
      ReplaceAllInsertsValue(s[1..], pat, rep);
      ContainsPrepend([s[0]], ReplaceAll(s[1..], pat, rep), rep);
    }
  }

  function LowerChar(c: char): char {
    if 'A' <= c <= 'Z' then (c as int + 32) as char else c
  }

  /** ASCII lower-casing, character by character. */
  function LowerAscii(s: string): (r: string)
    ensures |r| == |s|
    ensures forall k :: 0 <= k < |s| ==> r[k] == LowerChar(s[k])
  {
    seq(|s|, k requires 0 <= k < |s| => LowerChar(s[k]))
  }

  // ---------------------------------------------------------------------
  // Brace-delimited markers.
  // ---------------------------------------------------------------------

  predicate BraceFree(s: string) {
    '{' !in s && '}' !in s
  }

  /** A marker is `{name}` where the name itself holds no brace, such as `{month}`. */
  predicate IsMarker(q: string) {
    |q| >= 2 && q[0] == '{' && q[|q| - 1] == '}' && BraceFree(q[1..|q| - 1])
  }

  /** Reading `s` from the left, a `}` is met before any `{` (or neither occurs). */
  predicate ClosesBeforeOpening(s: string)
    decreases |s|
  {
    |s| == 0 || s[0] == '}' || (s[0] != '{' && ClosesBeforeOpening(s[1..]))
  }

  /** Braces in `s` never nest: after a `{` the next brace is never another `{`. */
  predicate FlatBraces(s: string)
    decreases |s|
  {
    |s| == 0 || (FlatBraces(s[1..]) && (s[0] == '{' ==> ClosesBeforeOpening(s[1..])))
  }

  lemma {:induction false} FlatBracesSuffix(s: string, k: nat)
    requires FlatBraces(s)
    requires k <= |s|
    ensures FlatBraces(s[k..])
    decreases k
  {
    if k > 0 {
      FlatBracesSuffix(s[1..], k - 1);
      assert s[1..][k - 1..] == s[k..];
    }
  }

  /** Brace-free text in front keeps both brace shapes. */
  lemma {:induction false} BraceFreePrefix(a: string, t: string)
    requires BraceFree(a)
    ensures FlatBraces(t) ==> FlatBraces(a + t)
    ensures ClosesBeforeOpening(t) ==> ClosesBeforeOpening(a + t)
    decreases |a|
  {
    if |a| == 0 {
      assert a + t == t;
    } else {
      assert a[0] in a;
      assert (a + t)[0] == a[0];
      assert (a + t)[1..] == a[1..] + t;
      BraceFreePrefix(a[1..], t);
    }
  }

  /** A marker cannot start inside text without an opening brace. */
  lemma {:induction false} MarkerNotInOpenFree(a: string, t: string, q: string)
    requires '{' !in a
    requires |q| > 0 && q[0] == '{'
    requires !Contains(t, q)
    ensures !Contains(a + t, q)
    decreases |a|
  {
    if |a| == 0 {
      assert a + t == t;
    } else {
      assert a[0] in a;
      assert (a + t)[1..] == a[1..] + t;
      MarkerNotInOpenFree(a[1..], t, q);
    }
  }

  /** Replacing a marker leaves text without an opening brace untouched. */
  lemma {:induction false} ReplaceSkipsOpenFree(a: string, t: string, pat: string, rep: string)
    requires '{' !in a
    requires |pat| > 0 && pat[0] == '{'
    ensures ReplaceAll(a + t, pat, rep) == a + ReplaceAll(t, pat, rep)
    decreases |a|
  {
    if |a| == 0 {
      assert a + t == t;
    } else {
      var s := a + t;
      assert s[0] == a[0] && a[0] in a;
      assert !IsPrefix(pat, s) by {
        if |pat| <= |s| {
          assert s[..|pat|][0] == s[0];
        }
      }
      assert ReplaceAll(s, pat, rep) == [s[0]] + ReplaceAll(s[1..], pat, rep);
      assert s[1..] == a[1..] + t;
      ReplaceSkipsOpenFree(a[1..], t, pat, rep);
      assert a == [a[0]] + a[1..];
    }
  }

  /** An occurrence at the front is replaced and the scan resumes after it. */
  lemma ReplaceAtFront(pat: string, t: string, rep: string)
    requires |pat| > 0
    ensures ReplaceAll(pat + t, pat, rep) == rep + ReplaceAll(t, pat, rep)
  {
    assert IsPrefix(pat, pat + t) by { assert (pat + t)[..|pat|] == pat; }
    assert (pat + t)[|pat|..] == t;
  }

  /** A text that starts with `pat` contains it. */
  lemma ContainsAtFront(pat: string, t: string)
    ensures Contains(pat + t, pat)
  {
    assert (pat + t)[..|pat|] == pat;
  }

  /** Skipping text without an opening brace loses no marker occurrence. */
  lemma {:induction false} MarkerSkipsOpenFree(u: string, v: string, q: string)
    requires '{' !in u
    requires |q| > 0 && q[0] == '{'
    requires Contains(u + v, q)
    ensures Contains(v, q)
    decreases |u|
  {
    if |u| == 0 {
      assert u + v == v;
    } else {
      assert u[0] in u;
      assert (u + v)[0] == u[0];
      assert (u + v)[1..] == u[1..] + v;
      MarkerSkipsOpenFree(u[1..], v, q);
    }
  }

  /** A marker at the front of `s` ends at the first `}` of `s`. */
  lemma MarkerEndsAtFirstClose(q: string, s: string)
    requires IsMarker(q) && IsPrefix(q, s)
    ensures s[|q| - 1] == '}'
    ensures forall k :: 0 <= k < |q| - 1 ==> s[k] != '}'
  {
    assert s[..|q|] == q;
    forall k | 0 <= k < |q| - 1
      ensures s[k] != '}'
    {
      assert s[k] == q[k];
      if k > 0 {
        assert q[k] == q[1..|q| - 1][k - 1];
      }
    }
  }

  /** Two markers that are both prefixes of one string are the same marker. */
  lemma MarkerPrefixUnique(a: string, b: string, s: string)
    requires IsMarker(a) && IsMarker(b)
    ensures IsPrefix(a, s) && IsPrefix(b, s) ==> a == b
  {
    if IsPrefix(a, s) && IsPrefix(b, s) {
      MarkerEndsAtFirstClose(a, s);
      MarkerEndsAtFirstClose(b, s);
      assert |a| == |b|;
      assert a == s[..|a|] == b;
    }
  }

  /** A marker occurs inside another marker only as the whole of it. */
  lemma MarkerInsideMarker(q: string, m: string, i: int)
    requires IsMarker(q) && IsMarker(m)
    ensures OccursAt(q, m, i) ==> i == 0 && m == q
  {
    if i == 0 {
      assert IsPrefix(q, q);
      assert OccursAt(q, m, 0) ==> IsPrefix(m, q);
      MarkerPrefixUnique(m, q, q);
    } else if 0 < i < |q| - 1 {
      assert q[i] == q[1..|q| - 1][i - 1];
    }
  }

  /** Two different markers: neither contains the other. */
  lemma DistinctMarkerAbsent(q: string, m: string)
    requires IsMarker(q) && IsMarker(m) && q != m
    ensures !Contains(q, m)
  {
    ContainsIff(q, m);
    forall i
      ensures !OccursAt(q, m, i)
    {
      MarkerInsideMarker(q, m, i);
    }
  }

  /** Replacing a marker keeps "a `}` comes first", since the text then cannot start with the marker. */
  lemma {:induction false} ReplaceKeepsClosing(x: string, pat: string, rep: string)
    requires IsMarker(pat)
    requires ClosesBeforeOpening(x)
    ensures ClosesBeforeOpening(ReplaceAll(x, pat, rep))
    decreases |x|
  {
    if |x| > 0 {
      assert !IsPrefix(pat, x) by {
      if |pat| <= |x| { assert x[..|pat|][0] == x[0]; }
    }
      var t := ReplaceAll(x[1..], pat, rep);
      assert ([x[0]] + t)[1..] == t;
      if x[0] != '}' {
        ReplaceKeepsClosing(x[1..], pat, rep);
      }
    }
  }

  /** Replacing a marker by brace-free text keeps braces flat. */
  lemma {:induction false} ReplaceKeepsFlat(s: string, pat: string, rep: string)
    requires IsMarker(pat) && BraceFree(rep)
    requires FlatBraces(s)
    ensures FlatBraces(ReplaceAll(s, pat, rep))
    decreases |s|
  {
    if IsPrefix(pat, s) {
      FlatBracesSuffix(s, |pat|);
      ReplaceKeepsFlat(s[|pat|..], pat, rep);
      BraceFreePrefix(rep, ReplaceAll(s[|pat|..], pat, rep));
    } else if |s| > 0 {
      var t := ReplaceAll(s[1..], pat, rep);
      ReplaceKeepsFlat(s[1..], pat, rep);
      if s[0] == '{' {
        ReplaceKeepsClosing(s[1..], pat, rep);
      }
      assert ([s[0]] + t)[1..] == t;
    }
  }

  /** When a `}` comes first in `x`, a replace-all result starting with
      `y}` (with `y` brace-free) means `x` itself starts with `y}`. */
  lemma {:induction false} ClosingPrefixComesFromSource(x: string, pat: string, rep: string, y: string)
    requires IsMarker(pat) && BraceFree(y)
    ensures ClosesBeforeOpening(x) && IsPrefix(y + "}", ReplaceAll(x, pat, rep)) ==> IsPrefix(y + "}", x)
    decreases |y|
  {
    var r := ReplaceAll(x, pat, rep);
    if ClosesBeforeOpening(x) && IsPrefix(y + "}", r) {
      assert |x| == 0 ==> r == x;
      assert !IsPrefix(pat, x) by {
        if |pat| <= |x| { assert x[..|pat|][0] == x[0]; }
      }
      var t := ReplaceAll(x[1..], pat, rep);
      assert r == [x[0]] + t;
      assert r[0] == (y + "}")[0];
      if |y| == 0 {
        assert x[..1] == "}";
      } else {
        assert y[0] in y;
        assert (y + "}")[1..] == y[1..] + "}";
        assert t[..|y[1..] + "}"|] == r[1..|y + "}"|];
        ClosingPrefixComesFromSource(x[1..], pat, rep, y[1..]);
        assert x[..|y + "}"|] == [x[0]] + x[1..][..|y[1..] + "}"|];
      }
    }
  }

  /** Replacing `pat` by brace-free text in a text whose braces do not nest
      creates no marker: `pat` is gone afterwards, and any marker `q` that
      was absent stays absent. */
  lemma {:induction false} ReplaceCreatesNoMarker(s: string, pat: string, rep: string, q: string)
    requires IsMarker(pat) && IsMarker(q) && BraceFree(rep)
    requires FlatBraces(s)
    requires q == pat || !Contains(s, q)
    ensures !Contains(ReplaceAll(s, pat, rep), q)
    decreases |s|
  {
    var r := ReplaceAll(s, pat, rep);
    if IsPrefix(pat, s) {
      var s' := s[|pat|..];
      FlatBracesSuffix(s, |pat|);
      ContainsPrepend(s[..|pat|], s', q);
      assert s[..|pat|] + s' == s;
      ReplaceCreatesNoMarker(s', pat, rep, q);
      MarkerNotInOpenFree(rep, ReplaceAll(s', pat, rep), q);
    } else if |s| == 0 {
      assert !IsPrefix(q, s);
    } else {
      var t := ReplaceAll(s[1..], pat, rep);
      assert r == [s[0]] + t;
      assert r[1..] == t;
      assert Contains(s[1..], q) ==> Contains(s, q);
      ReplaceCreatesNoMarker(s[1..], pat, rep, q);
      // A fresh `q` at the front would need `s` to open with `{` and the
      // rest of the result to start with the name of `q` and `}`.
      var w := q[1..|q| - 1];
      MarkerTail(q);
      PrefixOfCons(s[0], t, q);
      assert s == [s[0]] + s[1..];
      PrefixOfCons(s[0], s[1..], q);
      assert s[0] == '{' ==> ClosesBeforeOpening(s[1..]);
      ClosingPrefixComesFromSource(s[1..], pat, rep, w);
    }
  }

  /** `q` starts `[c] + t` exactly when it starts with `c` and its rest starts `t`. */
  lemma PrefixOfCons(c: char, t: string, q: string)
    requires |q| >= 1
    ensures IsPrefix(q, [c] + t) <==> q[0] == c && IsPrefix(q[1..], t)
  {
    var s := [c] + t;
    if |q| <= |s| {
      assert s[..|q|] == [c] + t[..|q| - 1];
      assert q == [q[0]] + q[1..];
    }
  }

  /** A brace-free-named prefix `y}` of `x` survives a replace-all of a marker. */
  lemma {:induction false} ClosingPrefixSurvives(x: string, pat: string, rep: string, y: string)
    requires IsMarker(pat) && BraceFree(y)
    requires IsPrefix(y + "}", x)
    ensures IsPrefix(y + "}", ReplaceAll(x, pat, rep))
    decreases |y|
  {
    assert x[0] == (y + "}")[0];
    assert x[0] != '{' by {
      if |y| > 0 { assert y[0] in y; }
    }
    assert !IsPrefix(pat, x) by {
      if |pat| <= |x| { assert x[..|pat|][0] == x[0]; }
    }
    var t := ReplaceAll(x[1..], pat, rep);
    var r := ReplaceAll(x, pat, rep);
    assert r == [x[0]] + t;
    if |y| == 0 {
      assert r[..1] == [x[0]] == "}";
    } else {
      assert (y + "}")[1..] == y[1..] + "}";
      assert x[1..][..|y[1..] + "}"|] == x[1..|y + "}"|];
      ClosingPrefixSurvives(x[1..], pat, rep, y[1..]);
      assert r[..|y + "}"|] == [x[0]] + t[..|y[1..] + "}"|];
    }
  }

  /** A marker without its opening brace is its name followed by the closing brace. */
  lemma MarkerTail(q: string)
    requires IsMarker(q)
    ensures q[1..] == q[1..|q| - 1] + "}"
  {
    assert q[1..] == q[1..|q| - 1] + [q[|q| - 1]];
  }

  /** Dropping the first character of `s` leaves the rest of its prefix `pre`
      followed by what comes after `pre`. */
  lemma DropFirstOfPrefix(s: string, pre: string)
    requires |pre| >= 1 && IsPrefix(pre, s)
    ensures s[1..] == pre[1..] + s[|pre|..]
  {
    assert s == s[..|pre|] + s[|pre|..];
  }

  /** Replacing one marker never destroys an occurrence of a different marker. */
  lemma {:induction false} ReplaceKeepsOtherMarker(s: string, pat: string, rep: string, q: string)
    requires IsMarker(pat) && IsMarker(q) && q != pat
    requires Contains(s, q)
    ensures Contains(ReplaceAll(s, pat, rep), q)
    decreases |s|
  {
    var r := ReplaceAll(s, pat, rep);
    if IsPrefix(pat, s) {
      var s' := s[|pat|..];
      var w := pat[1..|pat| - 1];
      MarkerPrefixUnique(pat, q, s);
      MarkerTail(pat);
      DropFirstOfPrefix(s, pat);
      assert '{' !in w + "}";
      MarkerSkipsOpenFree(w + "}", s', q);
      ReplaceKeepsOtherMarker(s', pat, rep, q);
      ContainsPrepend(rep, ReplaceAll(s', pat, rep), q);
    } else if |s| > 0 {
      var t := ReplaceAll(s[1..], pat, rep);
      assert r == [s[0]] + t;
      if IsPrefix(q, s) {
        var w := q[1..|q| - 1];
        MarkerTail(q);
        DropFirstOfPrefix(s, q);
        assert IsPrefix(w + "}", s[1..]);
        ClosingPrefixSurvives(s[1..], pat, rep, w);
        assert r[..|q|] == [s[0]] + t[..|w + "}"|];
        assert IsPrefix(q, r);
      } else {
        ReplaceKeepsOtherMarker(s[1..], pat, rep, q);
        assert r[1..] == t;
      }
    }
  }

  /** Nested braces defeat the marker theory: replacing `{month}` by the
      brace-free `mon` in `{{month}th}` produces a fresh `{month}`. */
  lemma NestedBracesRecreateMarker()
    ensures !FlatBraces("{{month}th}")
    ensures ReplaceAll("{{month}th}", "{month}", "mon") == "{month}"
  {
    var s := "{{month}th}";
    assert !ClosesBeforeOpening(s[1..]) by { assert s[1] == '{'; }
    assert !IsPrefix("{month}", s) by { assert s[1] == '{'; }
    assert s[1..] == "{month}th}";
    assert IsPrefix("{month}", s[1..]) by { assert s[1..][..7] == "{month}"; }
    assert s[1..][7..] == "th}";
    var tail := "th}";
    assert ReplaceAll(tail, "{month}", "mon") == tail;
    assert ReplaceAll(s[1..], "{month}", "mon") == "mon" + tail;
  }
}
