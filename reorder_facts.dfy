/** What the first two rewrites of `repair_sql` achieve: a statement of the
    form `SELECT c WHERE w FROM t` (or `SELECT c ORDER BY w FROM t`) comes
    out as `SELECT c FROM t WHERE w` (or `SELECT c FROM t ORDER BY w`). */
module ReorderFacts {
  import opened Wrappers
  import opened Text
  import opened Repair
  import opened RepairFacts

  /** The shape shared by the first two rewrites, for the clause keyword
      `k` as it is written back. */
  predicate IsReorderRule(rule: Rule, k: string) {
    rule.pattern == Reorder(Lower(k))
    && rule.template == [Lit("SELECT "), Group(1), Lit(" FROM "), Group(3), Lit(k), Group(2)]
  }

  lemma WhereFirstShape()
    ensures IsReorderRule(WhereFirst, " WHERE ")
  {
    assert Lower(" WHERE ") == " where ";
  }

  lemma OrderFirstShape()
    ensures IsReorderRule(OrderFirst, " ORDER BY ")
  {
    assert Lower(" ORDER BY ") == " order by ";
  }

  lemma ReorderRuleValid(rule: Rule, k: string)
    requires IsReorderRule(rule, k)
    ensures ValidRule(rule) && GroupCount(rule.pattern) == 3
  {
  }

  /** The replacement text of a reordering rewrite. */
  lemma ExpandReorder(k: string, s: string, groups: seq<Span>)
    requires SpansIn(groups, s) && |groups| == 3
    ensures var t := [Lit("SELECT "), Group(1), Lit(" FROM "), Group(3), Lit(k), Group(2)];
      Expand(t, s, groups)
      == "SELECT " + s[groups[0].lo..groups[0].hi] + " FROM " + s[groups[2].lo..groups[2].hi]
        + k + s[groups[1].lo..groups[1].hi]
  {
    var t := [Lit("SELECT "), Group(1), Lit(" FROM "), Group(3), Lit(k), Group(2)];
    assert TemplateFits(t, |groups|);
    assert ExpandPrefix(t, s, groups, 6) == ExpandPrefix(t, s, groups, 5) + PieceText(t[5], s, groups);
    assert ExpandPrefix(t, s, groups, 5) == ExpandPrefix(t, s, groups, 4) + PieceText(t[4], s, groups);
    assert ExpandPrefix(t, s, groups, 4) == ExpandPrefix(t, s, groups, 3) + PieceText(t[3], s, groups);
    assert ExpandPrefix(t, s, groups, 3) == ExpandPrefix(t, s, groups, 2) + PieceText(t[2], s, groups);
    assert ExpandPrefix(t, s, groups, 2) == ExpandPrefix(t, s, groups, 1) + PieceText(t[1], s, groups);
    assert ExpandPrefix(t, s, groups, 1) == PieceText(t[0], s, groups);
  }

  /** ... for the groups of a match that starts the text and runs to its end. */
  lemma ExpandReorderSpans(k: string, s: string, e: int, f: int)
    requires 7 <= e && e + |k| <= f && f + 6 <= |s|
    ensures var t := [Lit("SELECT "), Group(1), Lit(" FROM "), Group(3), Lit(k), Group(2)];
      var groups := [Span(7, e), Span(e + |k|, f), Span(f + 6, |s|)];
      SpansIn(groups, s) && Expand(t, s, groups) == "SELECT " + s[7..e] + " FROM " + s[f + 6..|s|] + k + s[e + |k|..f]
  {
    var groups := [Span(7, e), Span(e + |k|, f), Span(f + 6, |s|)];
    assert groups[0] == Span(7, e) && groups[1] == Span(e + |k|, f) && groups[2] == Span(f + 6, |s|);
    ExpandReorder(k, s, groups);
  }

  /** A match at the start that runs to the end is the whole rewrite. */
  lemma WholeMatch(rule: Rule, s: string, m: Match)
    requires ValidRule(rule) && MatchAt(rule.pattern, s, 0) == Some(m) && m.end == |s|
    ensures Substitute(rule, s) == Expand(rule.template, s, m.groups)
  {
    var ms := Attempts(rule.pattern, s);
    assert ms[0] == MatchAt(rule.pattern, s, 0);
    SubFromWhole(rule, s, ms, m);
  }

  /** The greedy table name takes every word character up to the end. */
  lemma TableRunToEnd(s: string, p: nat)
    requires p <= |s| && forall j :: p <= j < |s| ==> IsWordChar(s[j])
    ensures RunEnd(s, p, IsWordChar) == |s|
  {
  }

  /** The fit `re` tries first is the only one that is first. */
  lemma ReorderFirstUnique(s: string, clause: string, e: int, f: int, e': int, f': int)
    requires ReorderFirst(s, clause, 0, e, f) && ReorderFirst(s, clause, 0, e', f')
    ensures e == e' && f == f'
  {
  }

  /** When the first fit at the start leaves only word characters after
      ` FROM `, the match spans the whole statement. */
  lemma ReorderStartMatch(s: string, clause: string, e: int, f: int)
    requires ReorderFirst(s, clause, 0, e, f)
    requires forall j :: f + 6 <= j < |s| ==> IsWordChar(s[j])
    ensures ReorderAt(s, clause, 0) == Some(Match(|s|, [Span(7, e), Span(e + |clause|, f), Span(f + 6, |s|)]))
  {
    assert ReorderAt(s, clause, 0).Some?;
    var m := ReorderAt(s, clause, 0).value;
    var e0, f0 :| ReorderFirst(s, clause, 0, e0, f0) && m == ReorderMatch(s, clause, 0, e0, f0);
    ReorderFirstUnique(s, clause, e, f, e0, f0);
    TableRunToEnd(s, f + 6);
  }

  /** A reordering pattern is matched by `ReorderAt`. */
  lemma MatchAtReorder(clause: string, s: string, i: nat)
    requires i <= |s|
    ensures MatchAt(Reorder(clause), s, i) == ReorderAt(s, clause, i)
  {
  }

  /** ... and the rewrite is the reordered statement. */
  lemma ReorderWhole(rule: Rule, k: string, s: string, e: int, f: int)
    requires IsReorderRule(rule, k) && 7 <= e && e + |k| <= f && f + 6 <= |s|
    requires ReorderAt(s, Lower(k), 0) == Some(Match(|s|, [Span(7, e), Span(e + |k|, f), Span(f + 6, |s|)]))
    ensures ValidRule(rule)
    ensures Substitute(rule, s) == "SELECT " + s[7..e] + " FROM " + s[f + 6..|s|] + k + s[e + |k|..f]
  {
    ReorderRuleValid(rule, k);
    var m := Match(|s|, [Span(7, e), Span(e + |k|, f), Span(f + 6, |s|)]);
    MatchAtReorder(Lower(k), s, 0);
    WholeMatch(rule, s, m);
    ExpandReorderSpans(k, s, e, f);
  }

  /** `s` is `SELECT c <k> w FROM t`, the clause at `e` and ` FROM ` at `f`. */
  predicate ReorderSplit(s: string, k: string, e: int, f: int, c: string, w: string, t: string) {
    7 <= e && e + |k| <= f && f + 6 <= |s|
    && s[7..e] == c && s[e + |k|..f] == w && s[f + 6..|s|] == t
  }

  /** The first fit at the start, followed by nothing but the table name,
      gives the reordered statement, whose pieces are `c`, `w` and `t`. */
  lemma ReorderFirstWhole(rule: Rule, k: string, s: string, e: int, f: int, c: string, w: string, t: string)
    requires IsReorderRule(rule, k) && ReorderFirst(s, Lower(k), 0, e, f)
    requires forall j :: f + 6 <= j < |s| ==> IsWordChar(s[j])
    requires ReorderSplit(s, k, e, f, c, w, t)
    ensures ValidRule(rule)
    ensures Substitute(rule, s) == "SELECT " + c + " FROM " + t + k + w
  {
    assert |Lower(k)| == |k|;
    ReorderStartMatch(s, Lower(k), e, f);
    ReorderWhole(rule, k, s, e, f);
  }

  // ---------------------------------------------------------------------
  // The statement `SELECT c <k> w FROM t`
  // ---------------------------------------------------------------------

  /** A keyword written into the text is found there, whatever its case. */
  lemma KwAtLiteral(a: string, b: string, rest: string, kw: string)
    requires Lower(b) == kw
    ensures KwAt(a + b + rest, |a|, kw)
  {
    var s := a + b + rest;
    forall j | 0 <= j < |kw| ensures LowerChar(s[|a| + j]) == kw[j] {
      assert s[|a| + j] == b[j];
    }
  }

  /** A keyword found inside `s[lo..hi]` lies in that slice's lower-case text. */
  lemma KwAtInside(s: string, lo: int, hi: int, q: int, kw: string)
    requires 0 <= lo <= q && q + |kw| <= hi <= |s|
    ensures KwAt(s, q, kw) ==> Contains(Lower(s[lo..hi]), kw)
  {
    if KwAt(s, q, kw) {
      KwAtOccurs(s, q, kw);
      OccursInSlice(Lower(s), lo, hi, q, kw);
      LowerSlice(s, lo, hi);
    }
  }

  /** The pieces of `SELECT c <k> w FROM t`. */
  lemma InputSlices(k: string, c: string, w: string, t: string)
    ensures var s := "SELECT " + c + k + w + " FROM " + t;
      var e, f := 7 + |c|, 7 + |c| + |k| + |w|;
      |s| == f + 6 + |t| && s[7..e] == c && s[e + |k|..f] == w && s[f + 6..] == t
      && s[7..e + |k|] == c + k && s[e + |k|..f + 6] == w + " FROM "
  {
  }

  /** A slice that is one line keeps `s` one line there. */
  lemma NoNewlineSlice(s: string, lo: int, hi: int, x: string)
    requires 0 <= lo <= hi <= |s| && s[lo..hi] == x && NoNewline(x, 0, |x|)
    ensures NoNewline(s, lo, hi)
  {
    forall j | lo <= j < hi ensures s[j] != '\n' {
      assert s[j] == s[lo..hi][j - lo];
    }
  }

  /** The three keywords of `SELECT c <k> w FROM t`, where they are written. */
  lemma InputKeywords(k: string, c: string, w: string, t: string)
    ensures var s := "SELECT " + c + k + w + " FROM " + t;
      KwAt(s, 0, "select ") && KwAt(s, 7 + |c|, Lower(k)) && KwAt(s, 7 + |c| + |k| + |w|, " from ")
  {
    var s := "SELECT " + c + k + w + " FROM " + t;
    assert Lower("SELECT ") == "select " && Lower(" FROM ") == " from ";
    assert s == [] + "SELECT " + (c + k + w + " FROM " + t);
    KwAtLiteral([], "SELECT ", c + k + w + " FROM " + t, "select ");
    assert s == ("SELECT " + c) + k + (w + " FROM " + t);
    KwAtLiteral("SELECT " + c, k, w + " FROM " + t, Lower(k));
    assert s == ("SELECT " + c + k + w) + " FROM " + t;
    KwAtLiteral("SELECT " + c + k + w, " FROM ", t, " from ");
  }

  /** `SELECT c <k> w FROM t` fits the reordering pattern with the groups
      `c`, `w` and `t`. */
  lemma InputFits(k: string, c: string, w: string, t: string)
    requires |k| > 0 && c != [] && w != [] && IsWord(t)
    requires NoNewline(c, 0, |c|) && NoNewline(w, 0, |w|)
    ensures ReorderFits("SELECT " + c + k + w + " FROM " + t, Lower(k), 0, 7 + |c|, 7 + |c| + |k| + |w|)
  {
    var s := "SELECT " + c + k + w + " FROM " + t;
    var e, f := 7 + |c|, 7 + |c| + |k| + |w|;
    InputSlices(k, c, w, t);
    InputKeywords(k, c, w, t);
    assert s[f + 6] == t[0];
    NoNewlineSlice(s, 7, e, c);
    NoNewlineSlice(s, e + |k|, f, w);
  }

  /** With no `k` in `c` (nor one running into the `k` after it), the
      first group cannot end before `c` does. */
  lemma NoEarlierClause(k: string, c: string, rest: string, e': int)
    requires |k| > 0 && !Contains(Lower(c) + Lower(k)[..|k| - 1], Lower(k))
    requires 7 <= e' < 7 + |c|
    ensures !KwAt("SELECT " + c + k + rest, e', Lower(k))
  {
    var s := "SELECT " + c + k + rest;
    var e := 7 + |c|;
    KwAtInside(s, 7, e + |k| - 1, e', Lower(k));
    ClauseSlice(k, c, rest);
    LowerConcat(c, k[..|k| - 1]);
    LowerSlice(k, 0, |k| - 1);
  }

  /** The text from the first group up to the clause's last character. */
  lemma ClauseSlice(k: string, c: string, rest: string)
    requires |k| > 0
    ensures var s := "SELECT " + c + k + rest;
      7 + |c| + |k| - 1 <= |s| && s[7..7 + |c| + |k| - 1] == c + k[..|k| - 1]
  {
    var s := "SELECT " + c + k + rest;
    var e := 7 + |c|;
    assert s[7..e + |k|] == c + k;
    assert s[7..e + |k| - 1] == s[7..e + |k|][..|c| + |k| - 1];
    assert (c + k)[..|c| + |k| - 1] == c + k[..|k| - 1];
  }

  /** With no ` from ` in `w` (nor one running into the ` FROM ` after it),
      the second group cannot end before `w` does. */
  lemma NoEarlierFrom(k: string, c: string, w: string, t: string, f': int)
    requires !Contains(Lower(w) + " from", " from ")
    requires 7 + |c| + |k| <= f' < 7 + |c| + |k| + |w|
    ensures !KwAt("SELECT " + c + k + w + " FROM " + t, f', " from ")
  {
    var s := "SELECT " + c + k + w + " FROM " + t;
    var g, f := 7 + |c| + |k|, 7 + |c| + |k| + |w|;
    InputSlices(k, c, w, t);
    KwAtInside(s, g, f + 5, f', " from ");
    assert s[g..f + 5] == w + " FROM" by {
      assert s[g..f + 5] == s[g..f + 6][..|w| + 5];
      assert (w + " FROM ")[..|w| + 5] == w + " FROM";
    }
    LowerConcat(w, " FROM");
    assert Lower(" FROM") == " from";
  }

  /** The fit for the groups `c`, `w` and `t` is the one `re` tries first. */
  lemma InputFirst(k: string, c: string, w: string, t: string)
    requires |k| > 0 && c != [] && w != [] && IsWord(t)
    requires NoNewline(c, 0, |c|) && NoNewline(w, 0, |w|)
    requires !Contains(Lower(c) + Lower(k)[..|k| - 1], Lower(k))
    requires !Contains(Lower(w) + " from", " from ")
    ensures ReorderFirst("SELECT " + c + k + w + " FROM " + t, Lower(k), 0, 7 + |c|, 7 + |c| + |k| + |w|)
  {
    var s := "SELECT " + c + k + w + " FROM " + t;
    var e, f := 7 + |c|, 7 + |c| + |k| + |w|;
    InputFits(k, c, w, t);
    forall e', f' | ReorderFits(s, Lower(k), 0, e', f') ensures e < e' || (e == e' && f <= f') {
      if e' < e {
        assert s == "SELECT " + c + k + (w + " FROM " + t);
        NoEarlierClause(k, c, w + " FROM " + t, e');
      } else if e' == e && f' < f {
        NoEarlierFrom(k, c, w, t, f');
      }
    }
  }

  /** A word that ends the statement is all word characters. */
  lemma TableChars(s: string, p: nat, t: string)
    requires p <= |s| && s[p..] == t && IsWord(t)
    ensures forall j :: p <= j < |s| ==> IsWordChar(s[j])
  {
    forall j | p <= j < |s| ensures IsWordChar(s[j]) {
      assert s[j] == t[j - p];
    }
  }

  /** A reordering rewrite puts the table back in front of the clause:
      `SELECT c <k> w FROM t` becomes `SELECT c FROM t <k> w`, provided `c`
      and `w` are one line each, `c` holds no `k`, `w` holds no ` from `,
      and `t` is one table name ending the statement. */
  lemma ReorderMovesTable(rule: Rule, k: string, c: string, w: string, t: string)
    requires IsReorderRule(rule, k) && |k| > 0
    requires c != [] && w != [] && IsWord(t)
    requires NoNewline(c, 0, |c|) && NoNewline(w, 0, |w|)
    requires !Contains(Lower(c) + Lower(k)[..|k| - 1], Lower(k))
    requires !Contains(Lower(w) + " from", " from ")
    ensures ValidRule(rule)
    ensures Substitute(rule, "SELECT " + c + k + w + " FROM " + t) == "SELECT " + c + " FROM " + t + k + w
  {
    InputReady(k, c, w, t);
    InputRewrite(rule, k, c, w, t);
  }

  /** Once the first fit is known, the rewrite of `SELECT c <k> w FROM t`. */
  lemma InputRewrite(rule: Rule, k: string, c: string, w: string, t: string)
    requires IsReorderRule(rule, k) && |k| > 0
    requires var s := "SELECT " + c + k + w + " FROM " + t;
      var f := 7 + |c| + |k| + |w|;
      ReorderFirst(s, Lower(k), 0, 7 + |c|, f) && forall j :: f + 6 <= j < |s| ==> IsWordChar(s[j])
    ensures ValidRule(rule)
    ensures Substitute(rule, "SELECT " + c + k + w + " FROM " + t) == "SELECT " + c + " FROM " + t + k + w
  {
    var s := "SELECT " + c + k + w + " FROM " + t;
    var e, f := 7 + |c|, 7 + |c| + |k| + |w|;
    InputReassembled(k, c, w, t);
    ReorderFirstWhole(rule, k, s, e, f, c, w, t);
  }

  /** The pieces of `SELECT c <k> w FROM t` that the rewrite reorders. */
  lemma InputReassembled(k: string, c: string, w: string, t: string)
    ensures var s := "SELECT " + c + k + w + " FROM " + t;
      var e, f := 7 + |c|, 7 + |c| + |k| + |w|;
      ReorderSplit(s, k, e, f, c, w, t)
  {
    InputSlices(k, c, w, t);
  }

  /** What `ReorderStartMatch` needs of `SELECT c <k> w FROM t`. */
  lemma InputReady(k: string, c: string, w: string, t: string)
    requires |k| > 0 && c != [] && w != [] && IsWord(t)
    requires NoNewline(c, 0, |c|) && NoNewline(w, 0, |w|)
    requires !Contains(Lower(c) + Lower(k)[..|k| - 1], Lower(k))
    requires !Contains(Lower(w) + " from", " from ")
    ensures var s := "SELECT " + c + k + w + " FROM " + t;
      var f := 7 + |c| + |k| + |w|;
      ReorderFirst(s, Lower(k), 0, 7 + |c|, f) && forall j :: f + 6 <= j < |s| ==> IsWordChar(s[j])
  {
    var s := "SELECT " + c + k + w + " FROM " + t;
    InputFirst(k, c, w, t);
    InputSlices(k, c, w, t);
    TableChars(s, 7 + |c| + |k| + |w| + 6, t);
  }

  /** The first rewrite: `SELECT c WHERE w FROM t` becomes
      `SELECT c FROM t WHERE w`. */
  lemma WhereFirstMovesTable(c: string, w: string, t: string)
    requires c != [] && w != [] && IsWord(t)
    requires NoNewline(c, 0, |c|) && NoNewline(w, 0, |w|)
    requires !Contains(Lower(c) + " where", " where ")
    requires !Contains(Lower(w) + " from", " from ")
    ensures Substitute(WhereFirst, "SELECT " + c + " WHERE " + w + " FROM " + t)
      == "SELECT " + c + " FROM " + t + " WHERE " + w
  {
    WhereFirstShape();
    assert Lower(" WHERE ")[..6] == " where";
    ReorderMovesTable(WhereFirst, " WHERE ", c, w, t);
  }

  /** The second rewrite: `SELECT c ORDER BY w FROM t` becomes
      `SELECT c FROM t ORDER BY w`. */
  lemma OrderFirstMovesTable(c: string, w: string, t: string)
    requires c != [] && w != [] && IsWord(t)
    requires NoNewline(c, 0, |c|) && NoNewline(w, 0, |w|)
    requires !Contains(Lower(c) + " order by", " order by ")
    requires !Contains(Lower(w) + " from", " from ")
    ensures Substitute(OrderFirst, "SELECT " + c + " ORDER BY " + w + " FROM " + t)
      == "SELECT " + c + " FROM " + t + " ORDER BY " + w
  {
    OrderFirstShape();
    assert Lower(" ORDER BY ")[..9] == " order by";
    ReorderMovesTable(OrderFirst, " ORDER BY ", c, w, t);
  }

  // ---------------------------------------------------------------------
  // When a reordering rewrite is idle
  // ---------------------------------------------------------------------

  /** `SELECT ` and the two non-empty groups come first, so a reordering
      match finds its ` from ` no earlier than position `9 + |clause|`. */
  lemma ReorderNeedsLateFrom(s: string, clause: string, i: nat)
    requires i <= |s|
    ensures ReorderAt(s, clause, i).Some? ==>
      9 + |clause| <= |s| && Contains(Lower(s[9 + |clause|..]), " from ")
  {
    if ReorderAt(s, clause, i).Some? {
      var e, f :| ReorderFirst(s, clause, i, e, f);
      KwAtInside(s, 9 + |clause|, |s|, f, " from ");
      assert s[9 + |clause|..|s|] == s[9 + |clause|..];
    }
  }

  /** A reordering rewrite is idle on a statement with no ` from ` from
      position `9 + |clause|` on, whatever comes before. */
  lemma ReorderIdleLate(rule: Rule, s: string)
    requires rule == WhereFirst || rule == OrderFirst
    requires 9 + |rule.pattern.clause| <= |s| ==> !Contains(Lower(s[9 + |rule.pattern.clause|..]), " from ")
    ensures Substitute(rule, s) == s
  {
    forall k | 0 <= k <= |s| ensures MatchAt(rule.pattern, s, k).None? {
      ReorderNeedsLateFrom(s, rule.pattern.clause, k);
    }
    SubstituteIdentity(rule, s);
  }
}
