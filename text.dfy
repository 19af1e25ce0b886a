/**
  String helpers the plugin relies on: prefix tests, occurrences of a literal,
  and JavaScript's `String.prototype.replaceAll` with a literal search string.
 */
module Text {

  predicate StartsWith(s: string, prefix: string)
  {
    |prefix| <= |s| && s[..|prefix|] == prefix
  }

  /** `pat` occurs in `s` starting at index `i`. */
  predicate OccursAt(s: string, pat: string, i: nat)
  {
    i + |pat| <= |s| && s[i..i + |pat|] == pat
  }

  ghost predicate Occurs(s: string, pat: string)
  {
    exists i: nat :: OccursAt(s, pat, i)
  }

  /** No character of `a` is a character of `b`. */
  predicate Disjoint(a: string, b: string)
  {
    forall i, j :: 0 <= i < |a| && 0 <= j < |b| ==> a[i] != b[j]
  }

  /**
    JavaScript's `replaceAll` for a non-empty literal `pat`: scanning from the left,
    every occurrence of `pat` that does not overlap an earlier replaced one is
    replaced by `rep`; everything else is copied.
   */
  function ReplaceAll(s: string, pat: string, rep: string): (r: string)
    requires pat != []
    ensures rep == pat ==> r == s
    ensures |rep| == |pat| ==> |r| == |s|
    decreases |s|
  {
    if s == [] then []
    else if StartsWith(s, pat) then rep + ReplaceAll(s[|pat|..], pat, rep)
    else [s[0]] + ReplaceAll(s[1..], pat, rep)
  }

  /**
    A prefix of the output that holds no character of `rep` was copied verbatim
    from the input.
   */
  lemma {:induction false} CopiedPrefix(t: string, pat: string, rep: string, m: nat)
    requires pat != [] && rep != []
    requires m <= |ReplaceAll(t, pat, rep)|
    requires forall j :: 0 <= j < m ==> ReplaceAll(t, pat, rep)[j] !in rep
    ensures m <= |t| && ReplaceAll(t, pat, rep)[..m] == t[..m]
  {
    if m > 0 {
      var r := ReplaceAll(t, pat, rep);
      assert r[0] !in rep;
      assert !StartsWith(t, pat);
      var r' := ReplaceAll(t[1..], pat, rep);
      assert r == [t[0]] + r';
      forall j | 0 <= j < m - 1 ensures r'[j] !in rep {
        assert r'[j] == r[j + 1];
      }
      CopiedPrefix(t[1..], pat, rep, m - 1);
      assert r[..m] == [t[0]] + r'[..m - 1];
      assert t[..m] == [t[0]] + t[1..][..m - 1];
    }
  }

  /** The output does not start with the search string. */
  lemma NoOccurrenceAtStart(s: string, pat: string, rep: string)
    requires pat != [] && rep != [] && Disjoint(pat, rep)
    ensures !OccursAt(ReplaceAll(s, pat, rep), pat, 0)
  {
    var r := ReplaceAll(s, pat, rep);
    if StartsWith(s, pat) {
      assert r[0] == rep[0];
    } else if OccursAt(r, pat, 0) {
      forall j | 0 <= j < |pat| ensures r[j] !in rep {
        assert r[j] == pat[j];
      }
      CopiedPrefix(s, pat, rep, |pat|);
    }
  }

  /** Occurrences in `t` are those in `u + t`, shifted by `|u|`. */
  lemma ShiftedOccurrence(u: string, t: string, pat: string, j: nat)
    ensures OccursAt(u + t, pat, |u| + j) <==> OccursAt(t, pat, j)
  {
    if j + |pat| <= |t| {
      assert (u + t)[|u| + j..|u| + j + |pat|] == t[j..j + |pat|];
    }
  }

  /** No occurrence of the search string starts at index i of the output. */
  lemma {:induction false} NoOccurrenceAt(s: string, pat: string, rep: string, i: nat)
    requires pat != [] && rep != [] && Disjoint(pat, rep)
    ensures !OccursAt(ReplaceAll(s, pat, rep), pat, i)
    decreases |s|
  {
    var r := ReplaceAll(s, pat, rep);
    if i == 0 {
      NoOccurrenceAtStart(s, pat, rep);
    } else if s != [] && StartsWith(s, pat) {
      var r' := ReplaceAll(s[|pat|..], pat, rep);
      assert r == rep + r';
      if i < |rep| {
        assert r[i] == rep[i];
      } else {
        NoOccurrenceAt(s[|pat|..], pat, rep, i - |rep|);
        ShiftedOccurrence(rep, r', pat, i - |rep|);
      }
    } else if s != [] {
      var r' := ReplaceAll(s[1..], pat, rep);
      assert r == [s[0]] + r';
      NoOccurrenceAt(s[1..], pat, rep, i - 1);
      ShiftedOccurrence([s[0]], r', pat, i - 1);
    }
  }

  /**
    When the replacement is non-empty and shares no character with the search
    string, no occurrence of the search string is left in (or created in) the output.
   */
  lemma NoOccurrenceLeft(s: string, pat: string, rep: string)
    requires pat != [] && rep != [] && Disjoint(pat, rep)
    ensures !Occurs(ReplaceAll(s, pat, rep), pat)
  {
    forall i: nat ensures !OccursAt(ReplaceAll(s, pat, rep), pat, i) {
      NoOccurrenceAt(s, pat, rep, i);
    }
  }

  /**
    The leftmost occurrence is the one replaced: the text before it is copied, `rep`
    is inserted as it is, and the scan resumes after the occurrence, so replaced
    occurrences never overlap.
   */
  lemma {:induction false} ReplaceAllFirst(s: string, pat: string, rep: string, i: nat)
    requires pat != [] && OccursAt(s, pat, i)
    requires forall k: nat :: k < i ==> !OccursAt(s, pat, k)
    ensures ReplaceAll(s, pat, rep) == s[..i] + rep + ReplaceAll(s[i + |pat|..], pat, rep)
    decreases i
  {
    if i == 0 {
      assert StartsWith(s, pat);
    } else {
      var t := s[1..];
      ReplaceAllSkip(s, pat, rep);
      OccursInTail(s, pat, i);
      NoneBeforeInTail(s, pat, i);
      ReplaceAllFirst(t, pat, rep, i - 1);
      TailSlices(s, i, |pat|);
      ConcatAssoc([s[0]], t[..i - 1], rep, ReplaceAll(s[i + |pat|..], pat, rep));
    }
  }

  /** Where the search string does not start, `replaceAll` copies the first character. */
  lemma ReplaceAllSkip(s: string, pat: string, rep: string)
    requires pat != [] && s != [] && !OccursAt(s, pat, 0)
    ensures ReplaceAll(s, pat, rep) == [s[0]] + ReplaceAll(s[1..], pat, rep)
  {
    assert !StartsWith(s, pat);
  }

  /** No occurrence before index i of `s` means none before i - 1 of its tail. */
  lemma NoneBeforeInTail(s: string, pat: string, i: nat)
    requires s != [] && 1 <= i && forall k: nat :: k < i ==> !OccursAt(s, pat, k)
    ensures forall k: nat :: k < i - 1 ==> !OccursAt(s[1..], pat, k)
  {
    forall k: nat | k < i - 1 ensures !OccursAt(s[1..], pat, k) {
      OccursInTail(s, pat, k + 1);
    }
  }

  /** Concatenation regroups freely. */
  lemma ConcatAssoc(a: string, b: string, c: string, d: string)
    ensures a + (b + c + d) == a + b + c + d
  {
  }

  /** Cutting the first character off shifts slices by one. */
  lemma TailSlices(s: string, i: nat, m: nat)
    requires 1 <= i && i + m <= |s|
    ensures s[..i] == [s[0]] + s[1..][..i - 1] && s[1..][i - 1 + m..] == s[i + m..]
  {
  }

  /** Past the first character, occurrences in `s` are those in its tail, one index on. */
  lemma OccursInTail(s: string, pat: string, k: nat)
    requires s != [] && 1 <= k
    ensures OccursAt(s, pat, k) <==> OccursAt(s[1..], pat, k - 1)
  {
    if k + |pat| <= |s| {
      assert s[1..][k - 1..k - 1 + |pat|] == s[k..k + |pat|];
    }
  }

  /** Text without any occurrence of the search string is returned unchanged. */
  lemma {:induction false} ReplaceAllIdentity(s: string, pat: string, rep: string)
    requires pat != [] && !Occurs(s, pat)
    ensures ReplaceAll(s, pat, rep) == s
  {
    if s != [] {
      assert !OccursAt(s, pat, 0);
      forall i: nat | OccursAt(s[1..], pat, i) ensures false {
        assert s[1..][i..i + |pat|] == s[i + 1..i + 1 + |pat|];
        assert OccursAt(s, pat, i + 1);
      }
      ReplaceAllIdentity(s[1..], pat, rep);
    }
  }

  /**
    A prefix that does not contain the first character of the search string
    passes through `replaceAll` untouched.
   */
  lemma {:induction false} ReplaceAllAfterPrefix(u: string, c: string, pat: string, rep: string)
    requires pat != [] && pat[0] !in u
    ensures ReplaceAll(u + c, pat, rep) == u + ReplaceAll(c, pat, rep)
  {
    if u != [] {
      assert (u + c)[0] == u[0];
      assert !StartsWith(u + c, pat);
      assert (u + c)[1..] == u[1..] + c;
      ReplaceAllAfterPrefix(u[1..], c, pat, rep);
      assert u == [u[0]] + u[1..];
    } else {
      assert u + c == c;
    }
  }
}
