/** Python string operations used by the URL helpers: the `in` test,
    `startswith`/`endswith`, `str.replace` (every non-overlapping occurrence,
    scanned left to right) and, as an independent reference for `replace`,
    `str.split` followed by `str.join`. */
module Strings {

  /** `w` occurs in `s` starting at index `i`. */
  predicate OccursAt(s: string, w: string, i: nat)
  {
    i + |w| <= |s| && s[i..i + |w|] == w
  }

  /** Python's `w in s`: true also for the empty `w`. */
  predicate Contains(s: string, w: string)
  {
    exists i: nat :: i <= |s| && OccursAt(s, w, i)
  }

  predicate StartsWith(s: string, w: string)
  {
    w <= s
  }

  predicate EndsWith(s: string, w: string)
  {
    |w| <= |s| && s[|s| - |w|..] == w
  }

  /** No character of `s` equals `c`. */
  predicate Lacks(s: string, c: char)
  {
    forall k :: 0 <= k < |s| ==> s[k] != c
  }

  lemma LacksConcat(a: string, b: string, c: char)
    requires Lacks(a, c) && Lacks(b, c)
    ensures Lacks(a + b, c)
  {
    forall k | 0 <= k < |a + b| ensures (a + b)[k] != c {
      if k >= |a| {
        assert (a + b)[k] == b[k - |a|];
      }
    }
  }

  /** Python's `s.replace(pat, rep)` for a non-empty `pat`: scan from the left,
      and at each position either replace a whole occurrence of `pat` and
      continue after it, or keep one character and move on. */
  function ReplaceAll(s: string, pat: string, rep: string): string
    requires |pat| > 0
    decreases |s|
  {
    if pat <= s then rep + ReplaceAll(s[|pat|..], pat, rep)
    else if s == [] then []
    else [s[0]] + ReplaceAll(s[1..], pat, rep)
  }

  /** Python's `s.split(sep)` for a non-empty `sep`: the pieces between the
      occurrences that a left-to-right scan finds. There is always at least
      one piece, and the first piece is a prefix of `s`. */
  function Split(s: string, sep: string): (parts: seq<string>)
    requires |sep| > 0
    ensures |parts| >= 1 && parts[0] <= s
    ensures |parts| > 1 ==> sep <= s[|parts[0]|..]
    decreases |s|
  {
    if sep <= s then [""] + Split(s[|sep|..], sep)
    else if s == [] then [[]]
    else
      var rest := Split(s[1..], sep);
      [[s[0]] + rest[0]] + rest[1..]
  }

  /** Python's `sep.join(parts)` for a non-empty list of parts. */
  function Join(parts: seq<string>, sep: string): string
    requires |parts| >= 1
    decreases |parts|
  {
    if |parts| == 1 then parts[0] else parts[0] + sep + Join(parts[1..], sep)
  }

  // ---------------------------------------------------------------------
  // Facts about Contains

  lemma ContainsAt(s: string, w: string, i: nat)
    requires OccursAt(s, w, i)
    ensures Contains(s, w)
  {
  }

  /** The characters of an occurrence are those of `w`. */
  lemma OccursAtChar(s: string, w: string, i: nat, j: nat)
    requires OccursAt(s, w, i) && i <= j < i + |w|
    ensures s[j] == w[j - i]
  {
    assert s[i..i + |w|][j - i] == s[j];
  }

  lemma ContainsSelf(w: string)
    ensures Contains(w, w)
  {
    ContainsAt(w, w, 0);
  }

  /** A string shorter than `w` cannot contain it. */
  lemma ShortNotContains(s: string, w: string)
    requires |s| < |w|
    ensures !Contains(s, w)
  {
  }

  /** A string contains every string it ends with. */
  lemma EndsWithContains(s: string, w: string)
    requires EndsWith(s, w)
    ensures Contains(s, w)
  {
    ContainsAt(s, w, |s| - |w|);
  }

  /** An occurrence survives putting text on either side. */
  lemma ContainsInside(a: string, s: string, b: string, w: string)
    requires Contains(s, w)
    ensures Contains(a + s + b, w)
  {
    var i: nat :| i <= |s| && OccursAt(s, w, i);
    assert (a + s + b)[|a| + i..|a| + i + |w|] == s[i..i + |w|];
    ContainsAt(a + s + b, w, |a| + i);
  }

  /** Appending text keeps an occurrence, and the result ends with the text. */
  lemma ContainsAppend(s: string, t: string, w: string)
    requires Contains(s, w)
    ensures Contains(s + t, w) && EndsWith(s + t, t)
  {
    ContainsInside([], s, t, w);
    assert [] + s + t == s + t;
    assert (s + t)[|s|..] == t;
  }

  /** An occurrence in a prefix is an occurrence in the whole string. */
  lemma ContainsInPrefix(s: string, p: string, w: string)
    requires StartsWith(s, p) && Contains(p, w)
    ensures Contains(s, w)
  {
    var i: nat :| i <= |p| && OccursAt(p, w, i);
    assert s[i..i + |w|] == p[i..i + |w|];
    ContainsAt(s, w, i);
  }

  /** A string without the first character of a non-empty `w` cannot contain `w`. */
  lemma LacksFirstNotContains(s: string, w: string)
    requires |w| > 0 && Lacks(s, w[0])
    ensures !Contains(s, w)
  {
    forall i: nat | i + |w| <= |s|
      ensures !OccursAt(s, w, i)
    {
      assert s[i..i + |w|][0] == s[i] != w[0];
    }
  }

  /** An occurrence of `w` in `a + [x] + b` cannot straddle a separator `x`
      that `w` lacks, so it lies in `a` or in `b`. */
  lemma ContainsAcross(a: string, x: char, b: string, w: string)
    requires Lacks(w, x)
    ensures Contains(a + [x] + b, w) <==> Contains(a, w) || Contains(b, w)
  {
    var s := a + [x] + b;
    if Contains(s, w) {
      var i: nat :| i <= |s| && OccursAt(s, w, i);
      if i + |w| <= |a| {
        assert s[i..i + |w|] == a[i..i + |w|];
        ContainsAt(a, w, i);
      } else if i > |a| {
        assert s[i..i + |w|] == b[i - |a| - 1..i - |a| - 1 + |w|];
        ContainsAt(b, w, i - |a| - 1);
      } else {
        OccursAtChar(s, w, i, |a|);
        assert false;
      }
    }
    if Contains(a, w) {
      ContainsInside([], a, [x] + b, w);
      assert [] + a + ([x] + b) == s;
    }
    if Contains(b, w) {
      ContainsInside(a + [x], b, [], w);
      assert a + [x] + b + [] == s;
    }
  }

  /** An occurrence in `s[1..]` is an occurrence in `s`, one place later. */
  lemma ContainsTail(s: string, w: string)
    requires |s| > 0
    ensures Contains(s[1..], w) ==> Contains(s, w)
  {
    if Contains(s[1..], w) {
      ContainsInside([s[0]], s[1..], [], w);
      assert [s[0]] + s[1..] + [] == s;
    }
  }

  // ---------------------------------------------------------------------
  // One step of the replace and split scans

  lemma SeqAssoc(a: string, b: string, c: string)
    ensures a + (b + c) == (a + b) + c
  {
  }

  /** An occurrence at the front is replaced, and the scan resumes after it. */
  lemma ReplaceAllStepMatch(s: string, pat: string, rep: string)
    requires |pat| > 0 && pat <= s
    ensures ReplaceAll(s, pat, rep) == rep + ReplaceAll(s[|pat|..], pat, rep)
  {
  }

  /** Without an occurrence at the front, the first character is kept. */
  lemma ReplaceAllCons(c: char, t: string, pat: string, rep: string)
    requires |pat| > 0 && !(pat <= [c] + t)
    ensures ReplaceAll([c] + t, pat, rep) == [c] + ReplaceAll(t, pat, rep)
  {
    assert ([c] + t)[0] == c && ([c] + t)[1..] == t;
  }

  lemma SplitStepMatch(s: string, sep: string)
    requires |sep| > 0 && sep <= s
    ensures Split(s, sep) == [""] + Split(s[|sep|..], sep)
  {
  }

  lemma SplitCons(c: char, t: string, sep: string)
    requires |sep| > 0 && !(sep <= [c] + t)
    ensures var rest := Split(t, sep);
      Split([c] + t, sep) == [[c] + rest[0]] + rest[1..]
  {
    assert ([c] + t)[0] == c && ([c] + t)[1..] == t;
  }

  lemma JoinStep(parts: seq<string>, sep: string)
    requires |parts| > 1
    ensures Join(parts, sep) == parts[0] + sep + Join(parts[1..], sep)
  {
  }

  /** An occurrence at index 0 is a prefix. */
  lemma OccursAtFront(s: string, w: string)
    ensures OccursAt(s, w, 0) <==> w <= s
  {
    if w <= s {
      assert s[0..|w|] == w;
    }
  }

  // ---------------------------------------------------------------------
  // Facts about ReplaceAll

  /** Without an occurrence of `pat`, `replace` returns its input. */
  lemma {:induction false} ReplaceAllAbsent(s: string, pat: string, rep: string)
    requires |pat| > 0 && !Contains(s, pat)
    ensures ReplaceAll(s, pat, rep) == s
    decreases |s|
  {
    if s != [] {
      assert !OccursAt(s, pat, 0);
      OccursAtFront(s, pat);
      ContainsTail(s, pat);
      ReplaceAllAbsent(s[1..], pat, rep);
      assert s == [s[0]] + s[1..];
      ReplaceAllCons(s[0], s[1..], pat, rep);
    }
  }

  /** Replacing `pat` by itself changes nothing. */
  lemma {:induction false} ReplaceAllSelf(s: string, pat: string)
    requires |pat| > 0
    ensures ReplaceAll(s, pat, pat) == s
    decreases |s|
  {
    if pat <= s {
      ReplaceAllSelf(s[|pat|..], pat);
      ReplaceAllStepMatch(s, pat, pat);
      assert s == pat + s[|pat|..];
    } else if s != [] {
      ReplaceAllSelf(s[1..], pat);
      assert s == [s[0]] + s[1..];
      ReplaceAllCons(s[0], s[1..], pat, pat);
    }
  }

  /** If `pat` occurs, the scan reaches its leftmost occurrence, so the result
      contains the replacement text. */
  lemma {:induction false} ReplaceAllInserts(s: string, pat: string, rep: string)
    requires |pat| > 0 && Contains(s, pat)
    ensures Contains(ReplaceAll(s, pat, rep), rep)
    decreases |s|
  {
    var i: nat :| i <= |s| && OccursAt(s, pat, i);
    var r := ReplaceAll(s, pat, rep);
    OccursAtFront(s, pat);
    if pat <= s {
      ReplaceAllStepMatch(s, pat, rep);
      ContainsSelf(rep);
      ContainsInPrefix(r, rep, rep);
    } else {
      assert s[1..][i - 1..i - 1 + |pat|] == s[i..i + |pat|];
      ContainsAt(s[1..], pat, i - 1);
      ReplaceAllInserts(s[1..], pat, rep);
      assert s == [s[0]] + s[1..];
      ReplaceAllCons(s[0], s[1..], pat, rep);
      assert r[1..] == ReplaceAll(s[1..], pat, rep);
      ContainsTail(r, rep);
    }
  }

  /** Text that lacks the first character of `pat` is copied through and the
      scan resumes right after it. */
  lemma {:induction false} ReplaceAllSkips(w: string, q: string, pat: string, rep: string)
    requires |pat| > 0 && Lacks(w, pat[0])
    ensures ReplaceAll(w + q, pat, rep) == w + ReplaceAll(q, pat, rep)
    decreases |w|
  {
    if |w| > 0 {
      var c, t := w[0], w[1..];
      var rest := ReplaceAll(q, pat, rep);
      assert w == [c] + t;
      assert w + q == [c] + (t + q);
      assert ([c] + (t + q))[0] != pat[0];
      ReplaceAllCons(c, t + q, pat, rep);
      ReplaceAllSkips(t, q, pat, rep);
      SeqAssoc([c], t, rest);
    } else {
      assert w + q == q;
    }
  }

  /** A scan over `p + r` that starts inside `p` cannot find a match reaching
      into `r` when `r` starts with a piece `w` as long as `pat` that lacks the
      last character of `pat`. */
  lemma NoMatchIntoPiece(p: string, w: string, q: string, pat: string)
    requires 0 < |p| < |pat| <= |w|
    requires Lacks(w, pat[|pat| - 1])
    ensures !(pat <= p + (w + q))
  {
    var s := p + (w + q);
    assert s[|pat| - 1] == w[|pat| - 1 - |p|];
  }

  /** The inductive step of ReplaceAllAround at an occurrence in `p`. */
  lemma AroundStepMatch(p: string, w: string, q: string, pat: string, rep: string)
    requires |pat| > 0 && pat <= p
    requires ReplaceAll(p[|pat|..] + (w + q), pat, rep)
      == ReplaceAll(p[|pat|..], pat, rep) + (w + ReplaceAll(q, pat, rep))
    ensures ReplaceAll(p + (w + q), pat, rep) == ReplaceAll(p, pat, rep) + (w + ReplaceAll(q, pat, rep))
  {
    var s := p + (w + q);
    assert s[|pat|..] == p[|pat|..] + (w + q);
    ReplaceAllStepMatch(s, pat, rep);
    ReplaceAllStepMatch(p, pat, rep);
    SeqAssoc(rep, ReplaceAll(p[|pat|..], pat, rep), w + ReplaceAll(q, pat, rep));
  }

  /** The inductive step of ReplaceAllAround away from an occurrence. */
  lemma AroundStepKeep(c: char, t: string, w: string, q: string, pat: string, rep: string)
    requires |pat| > 0 && !(pat <= [c] + t) && !(pat <= [c] + (t + (w + q)))
    requires ReplaceAll(t + (w + q), pat, rep) == ReplaceAll(t, pat, rep) + (w + ReplaceAll(q, pat, rep))
    ensures ReplaceAll([c] + (t + (w + q)), pat, rep) == ReplaceAll([c] + t, pat, rep) + (w + ReplaceAll(q, pat, rep))
  {
    ReplaceAllCons(c, t + (w + q), pat, rep);
    ReplaceAllCons(c, t, pat, rep);
    SeqAssoc([c], ReplaceAll(t, pat, rep), w + ReplaceAll(q, pat, rep));
  }

  /** A piece `w` that is at least as long as `pat` and lacks both the first and
      the last character of `pat` cannot overlap any occurrence of `pat`, so
      `replace` works on the text around it independently. */
  lemma {:induction false} ReplaceAllAround(p: string, w: string, q: string, pat: string, rep: string)
    requires |pat| > 0 && |pat| <= |w|
    requires Lacks(w, pat[0]) && Lacks(w, pat[|pat| - 1])
    ensures ReplaceAll(p + (w + q), pat, rep) == ReplaceAll(p, pat, rep) + (w + ReplaceAll(q, pat, rep))
    decreases |p|
  {
    if |p| == 0 {
      assert p + (w + q) == w + q;
      ReplaceAllSkips(w, q, pat, rep);
    } else if pat <= p {
      ReplaceAllAround(p[|pat|..], w, q, pat, rep);
      AroundStepMatch(p, w, q, pat, rep);
    } else {
      if |p| < |pat| {
        NoMatchIntoPiece(p, w, q, pat);
      } else {
        assert (p + (w + q))[..|pat|] == p[..|pat|];
      }
      var c, t := p[0], p[1..];
      assert p == [c] + t;
      assert p + (w + q) == [c] + (t + (w + q));
      ReplaceAllAround(t, w, q, pat, rep);
      AroundStepKeep(c, t, w, q, pat, rep);
    }
  }

  /** Under the conditions of ReplaceAllAround, an occurrence of `w` survives
      `replace`. */
  lemma ReplaceAllKeeps(s: string, w: string, pat: string, rep: string)
    requires |pat| > 0 && |pat| <= |w|
    requires Lacks(w, pat[0]) && Lacks(w, pat[|pat| - 1])
    requires Contains(s, w)
    ensures Contains(ReplaceAll(s, pat, rep), w)
  {
    var i: nat :| i <= |s| && OccursAt(s, w, i);
    var p, q := s[..i], s[i + |w|..];
    assert s == p + (w + q);
    ReplaceAllAround(p, w, q, pat, rep);
    var x, y := ReplaceAll(p, pat, rep), ReplaceAll(q, pat, rep);
    SeqAssoc(x, w, y);
    ContainsSelf(w);
    ContainsInside(x, w, y, w);
  }

  // ---------------------------------------------------------------------
  // replace agrees with split-then-join

  /** The inductive step of ReplaceAllIsJoinSplit at an occurrence. */
  lemma JoinSplitStepMatch(s: string, pat: string, rep: string)
    requires |pat| > 0 && pat <= s
    requires ReplaceAll(s[|pat|..], pat, rep) == Join(Split(s[|pat|..], pat), rep)
    ensures ReplaceAll(s, pat, rep) == Join(Split(s, pat), rep)
  {
    var rest := Split(s[|pat|..], pat);
    ReplaceAllStepMatch(s, pat, rep);
    SplitStepMatch(s, pat);
    var parts := [""] + rest;
    assert parts[1..] == rest;
    JoinStep(parts, rep);
  }

  /** Joining after gluing a character onto the first part glues it onto the
      front of the join. */
  lemma JoinCons(c: char, rest: seq<string>, sep: string)
    requires |rest| >= 1
    ensures Join([[c] + rest[0]] + rest[1..], sep) == [c] + Join(rest, sep)
  {
    var parts := [[c] + rest[0]] + rest[1..];
    if |rest| > 1 {
      assert parts[1..] == rest[1..];
      JoinStep(parts, sep);
      JoinStep(rest, sep);
      SeqAssoc([c], rest[0], sep + Join(rest[1..], sep));
    }
  }

  /** The inductive step of ReplaceAllIsJoinSplit away from an occurrence. */
  lemma JoinSplitStepKeep(c: char, t: string, pat: string, rep: string)
    requires |pat| > 0 && !(pat <= [c] + t)
    requires ReplaceAll(t, pat, rep) == Join(Split(t, pat), rep)
    ensures ReplaceAll([c] + t, pat, rep) == Join(Split([c] + t, pat), rep)
  {
    ReplaceAllCons(c, t, pat, rep);
    SplitCons(c, t, pat);
    JoinCons(c, Split(t, pat), rep);
  }

  /** Python's identity `s.replace(pat, rep) == rep.join(s.split(pat))`. */
  lemma {:induction false} ReplaceAllIsJoinSplit(s: string, pat: string, rep: string)
    requires |pat| > 0
    ensures ReplaceAll(s, pat, rep) == Join(Split(s, pat), rep)
    decreases |s|
  {
    if pat <= s {
      ReplaceAllIsJoinSplit(s[|pat|..], pat, rep);
      JoinSplitStepMatch(s, pat, rep);
    } else if s != [] {
      ReplaceAllIsJoinSplit(s[1..], pat, rep);
      assert s == [s[0]] + s[1..];
      JoinSplitStepKeep(s[0], s[1..], pat, rep);
    }
  }

  /** Splitting on `sep` and joining with `sep` gives back the input. */
  lemma SplitJoinRoundTrip(s: string, sep: string)
    requires |sep| > 0
    ensures Join(Split(s, sep), sep) == s
  {
    ReplaceAllIsJoinSplit(s, sep, sep);
    ReplaceAllSelf(s, sep);
  }

  /** A first character glued onto a piece that lacks `sep` gives a piece that
      still lacks it, when the whole text does not start with `sep` and the
      glued piece is a prefix of that text. */
  lemma ConsPieceLacks(c: char, r0: string, t: string, sep: string)
    requires |sep| > 0 && !(sep <= [c] + t) && [c] + r0 <= [c] + t
    requires !Contains(r0, sep)
    ensures !Contains([c] + r0, sep)
  {
    var piece := [c] + r0;
    forall i: nat | i + |sep| <= |piece|
      ensures !OccursAt(piece, sep, i)
    {
      if i == 0 {
        OccursAtFront(piece, sep);
        assert piece[..|sep|] == ([c] + t)[..|sep|];
      } else {
        assert piece[1..] == r0;
        assert piece[i..i + |sep|] == piece[1..][i - 1..i - 1 + |sep|];
        assert !OccursAt(r0, sep, i - 1);
      }
    }
  }

  /** The inductive step of SplitPiecesLackSeparator away from an occurrence:
      the pieces of `[c] + t` are those of `t`, with `c` glued onto the first. */
  lemma SplitPiecesConsStep(c: char, t: string, sep: string, k: nat)
    requires |sep| > 0 && !(sep <= [c] + t) && k < |Split(t, sep)|
    requires !Contains(Split(t, sep)[k], sep)
    ensures k < |Split([c] + t, sep)| && !Contains(Split([c] + t, sep)[k], sep)
  {
    SplitCons(c, t, sep);
    if k == 0 {
      ConsPieceLacks(c, Split(t, sep)[0], t, sep);
    }
  }

  /** No piece produced by `split` contains the separator. */
  lemma {:induction false} SplitPiecesLackSeparator(s: string, sep: string, k: nat)
    requires |sep| > 0 && k < |Split(s, sep)|
    ensures !Contains(Split(s, sep)[k], sep)
    decreases |s|
  {
    if sep <= s {
      SplitStepMatch(s, sep);
      if k == 0 {
        ShortNotContains("", sep);
      } else {
        SplitPiecesLackSeparator(s[|sep|..], sep, k - 1);
      }
    } else if s == [] {
      ShortNotContains(s, sep);
    } else {
      var c, t := s[0], s[1..];
      assert s == [c] + t;
      SplitCons(c, t, sep);
      SplitPiecesLackSeparator(t, sep, k);
      SplitPiecesConsStep(c, t, sep, k);
    }
  }
}
