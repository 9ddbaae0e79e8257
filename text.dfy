/**
 * Rust's `str::replace` for a non-empty pattern, as the URL substitution of
 * `src/lib.rs` and `src/api.rs` uses it: the text is scanned from the left and
 * every occurrence of the pattern that does not overlap an earlier replaced one
 * is replaced.
 */
module Text {

  /** `pat` occurs in `s` at position `i`. */
  predicate MatchAt<T(==)>(s: seq<T>, i: nat, pat: seq<T>)
  {
    i + |pat| <= |s| && s[i..i + |pat|] == pat
  }

  predicate Contains<T(==)>(s: seq<T>, pat: seq<T>)
  {
    exists i: nat :: i <= |s| && MatchAt(s, i, pat)
  }

  /** `a` and `b` agree on the length of the shorter one. */
  predicate Agree<T(==)>(a: seq<T>, b: seq<T>)
  {
    var n := if |a| < |b| then |a| else |b|;
    a[..n] == b[..n]
  }

  /**
   * No occurrence of `pat` can overlap an inserted `rep`: no suffix of `rep`
   * (`rep` itself included) agrees with `pat`, and no proper suffix of `pat`
   * agrees with `rep`.
   */
  predicate OverlapFree<T(==)>(pat: seq<T>, rep: seq<T>)
  {
    && (forall j :: 0 <= j < |rep| ==> !Agree(rep[j..], pat))
    && (forall k :: 0 < k < |pat| ==> !Agree(pat[k..], rep))
  }

  /** `s.replace(pat, rep)` */
  function ReplaceAll<T(==)>(s: seq<T>, pat: seq<T>, rep: seq<T>): seq<T>
    requires |pat| > 0
    decreases |s|
  {
    if |s| < |pat| then s
    else if s[..|pat|] == pat then rep + ReplaceAll(s[|pat|..], pat, rep)
    else [s[0]] + ReplaceAll(s[1..], pat, rep)
  }

  lemma MatchShift<T>(s: seq<T>, i: nat, pat: seq<T>)
    requires |s| > 0
    ensures MatchAt(s, i + 1, pat) <==> MatchAt(s[1..], i, pat)
  {
    if i + 1 + |pat| <= |s| {
      assert s[i + 1..i + 1 + |pat|] == s[1..][i..i + |pat|];
    }
  }

  lemma MatchShiftBy<T>(s: seq<T>, d: nat, i: nat, pat: seq<T>)
    requires d <= |s|
    ensures MatchAt(s, d + i, pat) <==> MatchAt(s[d..], i, pat)
  {
    if d + i + |pat| <= |s| {
      assert s[d + i..d + i + |pat|] == s[d..][i..i + |pat|];
    }
  }

  /** A text without the pattern is left unchanged. */
  lemma {:induction false} ReplaceAllAbsent<T>(s: seq<T>, pat: seq<T>, rep: seq<T>)
    requires |pat| > 0
    requires !Contains(s, pat)
    ensures ReplaceAll(s, pat, rep) == s
    decreases |s|
  {
    if |s| >= |pat| {
      assert !MatchAt(s, 0, pat);
      forall i: nat
        ensures !MatchAt(s[1..], i, pat)
      {
        MatchShift(s, i, pat);
      }
      ReplaceAllAbsent(s[1..], pat, rep);
    }
  }

  /** The leftmost occurrence of the pattern, when there is one. */
  lemma {:induction false} FirstMatch<T>(s: seq<T>, pat: seq<T>) returns (m: nat)
    requires Contains(s, pat)
    ensures MatchAt(s, m, pat)
    ensures forall i: nat :: i < m ==> !MatchAt(s, i, pat)
    decreases |s|
  {
    if MatchAt(s, 0, pat) {
      m := 0;
    } else {
      var p: nat :| MatchAt(s, p, pat);
      MatchShift(s, p - 1, pat);
      var m' := FirstMatch(s[1..], pat);
      m := m' + 1;
      MatchShift(s, m', pat);
      forall i: nat | i < m
        ensures !MatchAt(s, i, pat)
      {
        if i > 0 {
          MatchShift(s, i - 1, pat);
        }
      }
    }
  }

  /** One step of the scan at a position where the pattern does not start. */
  lemma ReplaceAllSkipAt<T>(s: seq<T>, pat: seq<T>, rep: seq<T>, k: nat)
    requires |pat| > 0 && k + |pat| <= |s|
    requires !MatchAt(s, k, pat)
    ensures ReplaceAll(s[k..], pat, rep) == [s[k]] + ReplaceAll(s[k + 1..], pat, rep)
  {
    assert s[k..][..|pat|] == s[k..k + |pat|];
    assert s[k..][1..] == s[k + 1..];
  }

  /** One step of the scan at a position where the pattern starts. */
  lemma ReplaceAllHitAt<T>(s: seq<T>, pat: seq<T>, rep: seq<T>, k: nat)
    requires |pat| > 0
    requires MatchAt(s, k, pat)
    ensures ReplaceAll(s[k..], pat, rep) == rep + ReplaceAll(s[k + |pat|..], pat, rep)
  {
    assert s[k..][..|pat|] == s[k..k + |pat|];
    assert s[k..][|pat|..] == s[k + |pat|..];
  }

  /** The scan from position `k` when the next occurrence starts at `m`. */
  lemma {:induction false} ReplaceAllFrom<T>(s: seq<T>, pat: seq<T>, rep: seq<T>, k: nat, m: nat)
    requires |pat| > 0 && k <= m
    requires MatchAt(s, m, pat)
    requires forall i: nat :: k <= i < m ==> !MatchAt(s, i, pat)
    ensures ReplaceAll(s[k..], pat, rep) == s[k..m] + rep + ReplaceAll(s[m + |pat|..], pat, rep)
    decreases m - k
  {
    if k == m {
      ReplaceAllHitAt(s, pat, rep, m);
    } else {
      ReplaceAllSkipAt(s, pat, rep, k);
      ReplaceAllFrom(s, pat, rep, k + 1, m);
      assert [s[k]] + s[k + 1..m] == s[k..m];
    }
  }

  /**
   * Reference form of the scan: the text up to the leftmost occurrence is
   * kept, the occurrence is replaced, and the rest is processed the same way.
   */
  lemma ReplaceAllAtFirstMatch<T>(s: seq<T>, pat: seq<T>, rep: seq<T>, m: nat)
    requires |pat| > 0
    requires MatchAt(s, m, pat)
    requires forall i: nat :: i < m ==> !MatchAt(s, i, pat)
    ensures ReplaceAll(s, pat, rep) == s[..m] + rep + ReplaceAll(s[m + |pat|..], pat, rep)
  {
    ReplaceAllFrom(s, pat, rep, 0, m);
    assert s[0..] == s;
    assert s[0..m] == s[..m];
  }

  /**
   * A text that contains the pattern is changed, unless the replacement agrees
   * with the pattern.
   */
  lemma {:induction false} ReplaceAllChanges<T>(s: seq<T>, pat: seq<T>, rep: seq<T>)
    requires |pat| > 0
    requires Contains(s, pat)
    requires !Agree(rep, pat)
    ensures ReplaceAll(s, pat, rep) != s
  {
    var m := FirstMatch(s, pat);
    ReplaceAllAtFirstMatch(s, pat, rep, m);
    var r := ReplaceAll(s, pat, rep);
    var n := if |rep| < |pat| then |rep| else |pat|;
    assert r[m..m + n] == rep[..n];
    assert s[m..m + n] == pat[..n];
  }

  /** Two sequences that do not agree differ at a position both have. */
  lemma DisagreeAt<T>(a: seq<T>, b: seq<T>) returns (i: nat)
    requires !Agree(a, b)
    ensures i < |a| && i < |b| && a[i] != b[i]
  {
    var n := if |a| < |b| then |a| else |b|;
    i :| i < n && a[..n][i] != b[..n][i];
  }

  /**
   * No occurrence of the pattern starts at `p` in `u + rep + rest` when neither
   * `u` nor `rest` holds one and the pattern cannot overlap `rep`.
   */
  lemma NoMatchAround<T>(u: seq<T>, rep: seq<T>, rest: seq<T>, pat: seq<T>, p: nat)
    requires |pat| > 0
    requires OverlapFree(pat, rep)
    requires !Contains(u, pat) && !Contains(rest, pat)
    ensures !MatchAt(u + rep + rest, p, pat)
  {
    var o := u + rep + rest;
    var m := |u|;
    if p + |pat| > |o| {
    } else if p + |pat| <= m {
      assert o[p..p + |pat|] == u[p..p + |pat|];
      assert !MatchAt(u, p, pat);
    } else if p < m {
      var k := m - p;
      assert !Agree(pat[k..], rep);
      var i := DisagreeAt(pat[k..], rep);
      assert o[m + i] == rep[i];
      assert o[p..p + |pat|][k + i] != pat[k + i];
    } else if p < m + |rep| {
      var j := p - m;
      assert !Agree(rep[j..], pat);
      var i := DisagreeAt(rep[j..], pat);
      assert o[p + i] == rep[j + i];
      assert o[p..p + |pat|][i] != pat[i];
    } else {
      MatchShiftBy(o, m + |rep|, p - m - |rep|, pat);
      assert o[m + |rep|..] == rest;
      assert !MatchAt(rest, p - m - |rep|, pat);
    }
  }

  /** With overlap-free pattern and replacement the result holds no occurrence. */
  lemma {:induction false} ReplaceAllLeavesNoMatch<T>(s: seq<T>, pat: seq<T>, rep: seq<T>)
    requires |pat| > 0
    requires OverlapFree(pat, rep)
    ensures !Contains(ReplaceAll(s, pat, rep), pat)
    decreases |s|
  {
    if !Contains(s, pat) {
      ReplaceAllAbsent(s, pat, rep);
    } else {
      var m := FirstMatch(s, pat);
      ReplaceAllAtFirstMatch(s, pat, rep, m);
      var u := s[..m];
      forall i: nat | i <= |u|
        ensures !MatchAt(u, i, pat)
      {
        if MatchAt(u, i, pat) {
          assert s[i..i + |pat|] == u[i..i + |pat|];
          assert MatchAt(s, i, pat);
        }
      }
      var t := s[m + |pat|..];
      ReplaceAllLeavesNoMatch(t, pat, rep);
      forall p: nat
        ensures !MatchAt(u + rep + ReplaceAll(t, pat, rep), p, pat)
      {
        NoMatchAround(u, rep, ReplaceAll(t, pat, rep), pat, p);
      }
    }
  }

  /** With overlap-free pattern and replacement, replacing twice is replacing once. */
  lemma ReplaceAllIdempotent<T>(s: seq<T>, pat: seq<T>, rep: seq<T>)
    requires |pat| > 0
    requires OverlapFree(pat, rep)
    ensures ReplaceAll(ReplaceAll(s, pat, rep), pat, rep) == ReplaceAll(s, pat, rep)
  {
    ReplaceAllLeavesNoMatch(s, pat, rep);
    ReplaceAllAbsent(ReplaceAll(s, pat, rep), pat, rep);
  }

  /**
   * Replacing is not idempotent in general: when the replacement ends with the
   * first element of the pattern, replacing the pattern in front of the rest of
   * the pattern completes a new occurrence.
   */
  lemma ReplaceAllNotIdempotent<T>(pat: seq<T>, rep: seq<T>)
    requires |pat| > 0 && |rep| > 0
    requires rep[|rep| - 1] == pat[0]
    requires !Agree(rep, pat)
    ensures var once := ReplaceAll(pat + pat[1..], pat, rep);
      once == rep + pat[1..] && ReplaceAll(once, pat, rep) != once
  {
    var s := pat + pat[1..];
    assert MatchAt(s, 0, pat) by {
      assert s[..|pat|] == pat;
    }
    ReplaceAllHitAt(s, pat, rep, 0);
    assert s[0..] == s && s[|pat|..] == pat[1..];
    ReplaceAllAbsent(pat[1..], pat, rep);
    var once := rep + pat[1..];
    assert MatchAt(once, |rep| - 1, pat) by {
      forall i | 0 <= i < |pat|
        ensures once[|rep| - 1..|rep| - 1 + |pat|][i] == pat[i]
      {
        if i > 0 {
          assert once[|rep| - 1 + i] == pat[1..][i - 1];
        }
      }
    }
    ReplaceAllChanges(once, pat, rep);
  }
}
