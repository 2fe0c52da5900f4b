/** Properties of `repair_sql` and of its stages. */
module RepairFacts {
  import opened Wrappers
  import opened Text
  import opened Repair

  // ---------------------------------------------------------------------
  // Whitespace normalisation
  // ---------------------------------------------------------------------

  /** Dropping a run of whitespace does not change the non-space text. */
  lemma {:induction false} NonSpacesSkipsRun(s: string, i: nat, k: nat)
    requires i <= k <= |s| && forall j :: i <= j < k ==> IsSpace(s[j])
    ensures NonSpaces(s[i..]) == NonSpaces(s[k..])
    decreases k - i
  {
    if i < k {
      assert s[i..][1..] == s[i + 1..];
      NonSpacesSkipsRun(s, i + 1, k);
    }
  }

  lemma {:induction false} CollapseFromKeepsText(s: string, i: nat)
    requires i <= |s|
    ensures NonSpaces(CollapseFrom(s, i)) == NonSpaces(s[i..])
    decreases |s| - i
  {
    if i < |s| {
      var r := CollapseFrom(s, i);
      if IsSpace(s[i]) {
        var k := RunEnd(s, i + 1, IsSpace);
        CollapseFromKeepsText(s, k);
        NonSpacesSkipsRun(s, i, k);
        assert r[1..] == CollapseFrom(s, k);
      } else {
        CollapseFromKeepsText(s, i + 1);
        assert s[i..][1..] == s[i + 1..];
        assert r[1..] == CollapseFrom(s, i + 1);
      }
    }
  }

  /** Collapsing whitespace keeps every other character, in order. */
  lemma CollapseKeepsText(s: string)
    ensures NonSpaces(CollapseSpaces(s)) == NonSpaces(s)
  {
    CollapseFromKeepsText(s, 0);
    assert s[0..] == s;
  }

  lemma {:induction false} CollapseFromCollapsed(s: string, i: nat)
    requires Collapsed(s) && i <= |s|
    ensures CollapseFrom(s, i) == s[i..]
    decreases |s| - i
  {
    if i < |s| {
      if IsSpace(s[i]) {
        var k := RunEnd(s, i + 1, IsSpace);
        assert k == i + 1 by {
          if i + 1 < |s| {
            assert s[i] == ' ';
            assert s[i + 1] != ' ';
          }
        }
        CollapseFromCollapsed(s, k);
        assert s[i] == ' ';
      } else {
        CollapseFromCollapsed(s, i + 1);
      }
      assert s[i..] == [s[i]] + s[i + 1..];
    }
  }

  /** A statement already in collapsed form is left as it is. */
  lemma CollapseIdentity(s: string)
    requires Collapsed(s)
    ensures CollapseSpaces(s) == s
  {
    CollapseFromCollapsed(s, 0);
  }

  /** Collapsing is idempotent. */
  lemma CollapseIdempotent(s: string)
    ensures CollapseSpaces(CollapseSpaces(s)) == CollapseSpaces(s)
  {
    CollapseIdentity(CollapseSpaces(s));
  }

  /** A trimmed, collapsed statement is its own normal form. */
  lemma NormaliseIdentity(s: string)
    requires Collapsed(s) && IsTrimmed(s)
    ensures Normalise(s) == s
  {
    StripTrimmed(s);
    CollapseIdentity(s);
  }

  /** A collapsed statement has no line break, so regex `.` matches every
      character of it. */
  lemma CollapsedNoNewline(s: string)
    requires Collapsed(s)
    ensures NoNewline(s, 0, |s|)
  {
    forall k | 0 <= k < |s| ensures s[k] != '\n' {
      if s[k] == '\n' {
        assert IsSpace(s[k]);
      }
    }
  }

  /** A run of non-space characters is copied unchanged. */
  lemma {:induction false} CollapseFromWord(s: string, i: nat, e: nat)
    requires i <= e <= |s| && forall j :: i <= j < e ==> !IsSpace(s[j])
    ensures CollapseFrom(s, i) == s[i..e] + CollapseFrom(s, e)
    decreases e - i
  {
    if i < e {
      var tail := CollapseFrom(s, e);
      assert CollapseFrom(s, i) == [s[i]] + CollapseFrom(s, i + 1);
      CollapseFromWord(s, i + 1, e);
      assert s[i..e] + tail == [s[i]] + (s[i + 1..e] + tail);
    }
  }

  /** A whitespace run becomes one space. */
  lemma CollapseFromSpace(s: string, i: nat)
    requires i < |s| && IsSpace(s[i])
    ensures CollapseFrom(s, i) == [' '] + CollapseFrom(s, RunEnd(s, i + 1, IsSpace))
  {
  }

  /** From the start of a word of a trimmed text, collapsing yields the
      remaining words joined by single spaces. */
  lemma {:induction false} CollapseFromJoins(s: string, i: nat)
    requires i <= |s| && (i == |s| || !IsSpace(s[i]))
    requires s == [] || !IsSpace(s[|s| - 1])
    ensures CollapseFrom(s, i) == JoinWith(" ", WordsFrom(s, i))
    decreases |s| - i
  {
    if i < |s| {
      var e := RunEnd(s, i, IsNonSpace);
      if e < |s| {
        var k := RunEnd(s, e + 1, IsSpace);
        RunEndBefore(s, e + 1, |s| - 1, IsSpace);
        CollapseFromJoins(s, k);
        JoinsNextWord(s, i, e, k);
      } else {
        CollapseFromWord(s, i, e);
        assert s[i..e] + [] == s[i..e];
      }
    }
  }

  /** A word, then a whitespace run, then text whose collapsed form is its
      words joined. */
  lemma JoinsNextWord(s: string, i: nat, e: nat, k: nat)
    requires i < |s| && !IsSpace(s[i]) && e == RunEnd(s, i, IsNonSpace) && e < |s|
    requires k == RunEnd(s, e + 1, IsSpace) && k < |s|
    requires CollapseFrom(s, k) == JoinWith(" ", WordsFrom(s, k))
    ensures CollapseFrom(s, i) == JoinWith(" ", WordsFrom(s, i))
  {
    CollapseFromWord(s, i, e);
    WordsSkipSpaces(s, e, k);
    CollapseFromSpace(s, e);
    JoinStep(CollapseFrom(s, i), s[i..e], CollapseFrom(s, k), WordsFrom(s, i), WordsFrom(s, k));
  }

  /** The step of `CollapseFromJoins`: a word, one space, then the rest. */
  lemma JoinStep(c: string, w: string, rest: string, ws: seq<string>, tail: seq<string>)
    requires c == w + ([' '] + rest) && ws == [w] + tail
    requires tail != [] && rest == JoinWith(" ", tail)
    ensures c == JoinWith(" ", ws)
  {
    JoinCons(" ", w, tail);
  }

  /** Normalising is `" ".join(raw.split())`: the words of the statement,
      in order, with exactly one space between neighbours. */
  lemma NormaliseSplitJoin(raw: string)
    ensures Normalise(raw) == JoinWith(" ", Words(raw))
  {
    var t := Strip(raw);
    StripIsTrimmed(raw);
    WordsStrip(raw);
    CollapseFromJoins(t, 0);
  }

  // ---------------------------------------------------------------------
  // The scan
  // ---------------------------------------------------------------------

  lemma SubFromNoMatch(rule: Rule, s: string, ms: seq<Option<Match>>, p: nat)
    requires ValidRule(rule) && Advancing(ms, s, GroupCount(rule.pattern)) && p <= |s|
    requires forall k :: p <= k < |ms| ==> ms[k].None?
    ensures SubFrom(rule, s, ms, p) == s[p..]
  {
  }

  /** A rewrite whose pattern matches nowhere leaves the text alone. */
  lemma SubstituteIdentity(rule: Rule, s: string)
    requires ValidRule(rule)
    requires forall k :: 0 <= k <= |s| ==> MatchAt(rule.pattern, s, k).None?
    ensures Substitute(rule, s) == s
  {
    SubFromNoMatch(rule, s, Attempts(rule.pattern, s), 0);
  }

  // ---------------------------------------------------------------------
  // What each pattern needs
  // ---------------------------------------------------------------------

  lemma FitNeedsClause(s: string, clause: string, i: int, e: int, f: int)
    requires ReorderFits(s, clause, i, e, f)
    ensures Contains(Lower(s), clause) && Contains(Lower(s), "from")
  {
    KwAtOccurs(s, e, clause);
    KwAtPart(s, f, " from ", 1, 5);
    assert " from "[1..5] == "from";
    KwAtOccurs(s, f + 1, "from");
  }

  /** The reordering rewrites need their clause text and ` from `. */
  lemma ReorderNeedsClause(s: string, clause: string, i: nat)
    requires i <= |s|
    ensures ReorderAt(s, clause, i).Some? ==> Contains(Lower(s), clause) && Contains(Lower(s), "from")
  {
    if ReorderAt(s, clause, i).Some? {
      var e, f :| ReorderFirst(s, clause, i, e, f);
      FitNeedsClause(s, clause, i, e, f);
    }
  }

  /** The third rewrite needs ` where `. */
  lemma FallbackNeedsWhere(s: string, i: nat)
    requires i <= |s|
    ensures FallbackAt(s, i).Some? ==> Contains(Lower(s), " where ")
  {
    if FallbackAt(s, i).Some? {
      var e :| FallbackFits(s, i, e);
      KwAtOccurs(s, e, " where ");
    }
  }

  /** In a collapsed text a whitespace character is not followed by another. */
  lemma CollapsedSingleSpace(s: string, j: int)
    requires Collapsed(s) && 0 < j < |s| && IsSpace(s[j - 1])
    ensures !IsSpace(s[j])
  {
    assert s[j - 1] == ' ';
  }

  lemma PairFitNeedsFrom(s: string, i: int, r: int)
    requires FromFromFits(s, i, r)
    ensures Contains(Lower(s), "from")
    ensures Collapsed(s) ==> Contains(Lower(s), "from from")
  {
    KwAtOccurs(s, i, "from");
    if Collapsed(s) {
      CollapsedSingleSpace(s, i + 5);
      assert r == i + 5;
      var l := Lower(s);
      KwAtOccurs(s, r, "from");
      assert l[i + 4] == ' ';
      assert l[i..i + 9] == l[i..i + 4] + [l[i + 4]] + l[i + 5..i + 9];
      assert OccursAt(l, i, "from from");
    }
  }

  /** The fourth rewrite needs `from`; in a collapsed statement it needs
      `from from`. */
  lemma FromFromNeedsPair(s: string, i: nat)
    requires i <= |s|
    ensures FromFromAt(s, i).Some? ==> Contains(Lower(s), "from")
    ensures FromFromAt(s, i).Some? && Collapsed(s) ==> Contains(Lower(s), "from from")
  {
    if FromFromAt(s, i).Some? {
      var r :| FromFromFits(s, i, r);
      PairFitNeedsFrom(s, i, r);
    }
  }

  // ---------------------------------------------------------------------
  // repair_sql as a whole
  // ---------------------------------------------------------------------

  /** Each rewrite is idle on a statement that lacks the text its pattern
      needs. */
  lemma ReorderIdle(rule: Rule, s: string)
    requires rule == WhereFirst || rule == OrderFirst
    requires !Contains(Lower(s), rule.pattern.clause) || !Contains(Lower(s), "from")
    ensures Substitute(rule, s) == s
  {
    forall k | 0 <= k <= |s| ensures MatchAt(rule.pattern, s, k).None? {
      ReorderNeedsClause(s, rule.pattern.clause, k);
    }
    SubstituteIdentity(rule, s);
  }

  lemma InsertFromIdle(s: string)
    requires !Contains(Lower(s), " where ")
    ensures Substitute(InsertFrom, s) == s
  {
    forall k | 0 <= k <= |s| ensures MatchAt(InsertFrom.pattern, s, k).None? {
      FallbackNeedsWhere(s, k);
    }
    SubstituteIdentity(InsertFrom, s);
  }

  lemma DropDuplicateIdle(s: string)
    requires !Contains(Lower(s), "from") || (Collapsed(s) && !Contains(Lower(s), "from from"))
    ensures Substitute(DropDuplicateFrom, s) == s
  {
    forall k | 0 <= k <= |s| ensures MatchAt(DropDuplicateFrom.pattern, s, k).None? {
      FromFromNeedsPair(s, k);
    }
    SubstituteIdentity(DropDuplicateFrom, s);
  }

  /** A normalised statement with a whole-word FROM and neither ` WHERE `,
      ` ORDER BY ` nor `FROM FROM` comes back unchanged. */
  lemma WellFormedUnchanged(s: string)
    requires Collapsed(s) && IsTrimmed(s) && HasWord(Lower(s), "from")
    requires !Contains(Lower(s), " where ") && !Contains(Lower(s), " order by ")
    requires !Contains(Lower(s), "from from")
    ensures RepairSql(s) == Ok(s)
  {
    NormaliseIdentity(s);
    ReorderIdle(WhereFirst, s);
    ReorderIdle(OrderFirst, s);
    InsertFromIdle(s);
    DropDuplicateIdle(s);
    StripTrimmed(s);
  }

  /** With no `from` and no ` where ` anywhere after normalisation, no
      rewrite applies and the repair fails. */
  lemma FailsWithoutFrom(raw: string)
    requires !Contains(Lower(Normalise(raw)), "from") && !Contains(Lower(Normalise(raw)), " where ")
    ensures RepairSql(raw) == Err(MissingFromMessage)
  {
    var s := Normalise(raw);
    ReorderIdle(WhereFirst, s);
    ReorderIdle(OrderFirst, s);
    InsertFromIdle(s);
    DropDuplicateIdle(s);
    HasWordContains(Lower(s), "from");
  }

  // ---------------------------------------------------------------------
  // The scan, step by step
  // ---------------------------------------------------------------------

  /** Text before the first match is copied as it is. */
  lemma SubFromSkip(rule: Rule, s: string, ms: seq<Option<Match>>, p: nat, j: nat)
    requires ValidRule(rule) && Advancing(ms, s, GroupCount(rule.pattern)) && p <= j <= |s|
    requires forall k :: p <= k < j ==> ms[k].None?
    ensures SubFrom(rule, s, ms, p) == s[p..j] + SubFrom(rule, s, ms, j)
  {
    match Search(ms, p)
    case None =>
      SubFromNoMatch(rule, s, ms, j);
      SuffixSplit(s, p, j);
    case Some(k) =>
      assert Search(ms, j) == Some(k) by {
        var r := Search(ms, j);
        assert ms[k].Some?;
      }
      var m := ms[k].value;
      SliceSplit(s, p, j, k);
      AppendAssoc(s[p..j], s[j..k], Expand(rule.template, s, m.groups), SubFrom(rule, s, ms, m.end));
  }

  /** The first match after `p` is replaced and the scan resumes after it. */
  lemma SubFromAt(rule: Rule, s: string, ms: seq<Option<Match>>, p: nat, k: nat)
    requires ValidRule(rule) && Advancing(ms, s, GroupCount(rule.pattern)) && p <= k <= |s|
    requires ms[k].Some? && forall k' :: p <= k' < k ==> ms[k'].None?
    ensures SubFrom(rule, s, ms, p)
      == s[p..k] + Expand(rule.template, s, ms[k].value.groups) + SubFrom(rule, s, ms, ms[k].value.end)
  {
    assert Search(ms, p) == Some(k) by {
      var r := Search(ms, p);
    }
  }

  /** A match at the very start replaces the text up to its end. */
  lemma SubFromStart(rule: Rule, s: string, ms: seq<Option<Match>>, m: Match)
    requires ValidRule(rule) && Advancing(ms, s, GroupCount(rule.pattern))
    requires ms[0] == Some(m)
    ensures SubFrom(rule, s, ms, 0) == Expand(rule.template, s, m.groups) + SubFrom(rule, s, ms, m.end)
  {
    assert Search(ms, 0) == Some(0);
    EmptyFront(s, Expand(rule.template, s, m.groups) + SubFrom(rule, s, ms, m.end));
  }

  /** A match at the start that runs to the end is the only replacement. */
  lemma SubFromWhole(rule: Rule, s: string, ms: seq<Option<Match>>, m: Match)
    requires ValidRule(rule) && Advancing(ms, s, GroupCount(rule.pattern))
    requires ms[0] == Some(m) && m.end == |s|
    ensures SubFrom(rule, s, ms, 0) == Expand(rule.template, s, m.groups)
  {
    SubFromAt(rule, s, ms, 0, 0);
    SubFromNoMatch(rule, s, ms, |s|);
    assert s[0..0] == [] && s[|s|..] == [];
  }

  /** The replacement text of the third rewrite. */
  lemma ExpandInsertFrom(s: string, groups: seq<Span>)
    requires SpansIn(groups, s) && |groups| == 2
    ensures Expand(InsertFrom.template, s, groups)
      == "SELECT " + s[groups[0].lo..groups[0].hi] + (" " + FallbackFrom + " WHERE ") + s[groups[1].lo..groups[1].hi]
  {
    var t := InsertFrom.template;
    assert TemplateFits(t, |groups|);
    assert ExpandPrefix(t, s, groups, 4) == ExpandPrefix(t, s, groups, 3) + PieceText(t[3], s, groups);
    assert ExpandPrefix(t, s, groups, 3) == ExpandPrefix(t, s, groups, 2) + PieceText(t[2], s, groups);
    assert ExpandPrefix(t, s, groups, 2) == ExpandPrefix(t, s, groups, 1) + PieceText(t[1], s, groups);
    assert ExpandPrefix(t, s, groups, 1) == PieceText(t[0], s, groups);
  }

  /** The first match the scan reaches, when some position matches. */
  lemma FirstMatch(ms: seq<Option<Match>>, i: nat) returns (k: nat)
    requires i < |ms| && ms[i].Some?
    ensures k <= i && ms[k].Some? && forall k' :: 0 <= k' < k ==> ms[k'].None?
  {
    k := Search(ms, 0).value;
  }

  /** The replacement for a match of the third rewrite carries
      ` FROM transactions WHERE `. */
  lemma FallbackReplacement(s: string, k: nat, m: Match)
    requires k <= |s| && FallbackAt(s, k) == Some(m)
    ensures SpansIn(m.groups, s) && |m.groups| == 2
    ensures Contains(Expand(InsertFrom.template, s, m.groups), " " + FallbackFrom + " WHERE ")
  {
    var e' :| FallbackFirst(s, k, e') && m == FallbackMatch(s, k, e');
    FitReplacement(s, k, e');
  }

  lemma FitReplacement(s: string, k: nat, e': int)
    requires FallbackFits(s, k, e')
    ensures Contains(Expand(InsertFrom.template, s, FallbackMatch(s, k, e').groups), " " + FallbackFrom + " WHERE ")
  {
    var m := FallbackMatch(s, k, e');
    ExpandInsertFrom(s, m.groups);
    var x := " " + FallbackFrom + " WHERE ";
    var g1, g2 := s[k + 7..e'], s[e' + 7..e' + 8];
    ContainsSelf(x);
    ContainsWithin("SELECT " + g1, x, g2, x);
  }

  /** Whenever `SELECT ... WHERE x` occurs, the third rewrite inserts
      ` FROM transactions WHERE `. */
  lemma InsertsFallback(s: string, i: nat, e: int)
    requires FallbackFits(s, i, e)
    ensures Contains(Substitute(InsertFrom, s), " " + FallbackFrom + " WHERE ")
  {
    var ms := Attempts(SelectWhere, s);
    assert ms[i].Some?;
    var k := FirstMatch(ms, i);
    SubFromAt(InsertFrom, s, ms, 0, k);
    var m := ms[k].value;
    FallbackReplacement(s, k, m);
    ContainsWithin(s[0..k], Expand(InsertFrom.template, s, m.groups), SubFrom(InsertFrom, s, ms, m.end),
      " " + FallbackFrom + " WHERE ");
  }

  // ---------------------------------------------------------------------
  // The fourth rewrite keeps `FROM transactions`
  // ---------------------------------------------------------------------

  /** The characters of an occurrence of `FROM transactions`: only its
      first is an `f`, and only its fifth is whitespace. */
  lemma FallbackFromChars(s: string, q: int)
    requires OccursAt(s, q, FallbackFrom)
    ensures s[q] == 'F' && s[q + 4] == ' ' && s[q + 5] == 't'
    ensures forall k :: q < k < q + 17 ==> LowerChar(s[k]) != 'f'
  {
    forall k | q < k < q + 17 ensures LowerChar(s[k]) != 'f' {
      assert s[k] == FallbackFrom[k - q];
    }
    assert s[q] == FallbackFrom[0] && s[q + 4] == FallbackFrom[4] && s[q + 5] == FallbackFrom[5];
  }

  /** What the attempts of the fourth rewrite's pattern look like. */
  ghost predicate PairAttempts(ms: seq<Option<Match>>, s: string) {
    Advancing(ms, s, 0)
    && forall k :: 0 <= k < |ms| && ms[k].Some? ==>
      exists r :: FromFromFits(s, k, r) && ms[k].value == Match(r + 4, [])
  }

  lemma AttemptsArePairs(s: string)
    ensures PairAttempts(Attempts(FromFrom, s), s)
  {
    var ms := Attempts(FromFrom, s);
    forall k | 0 <= k < |ms| && ms[k].Some?
      ensures exists r :: FromFromFits(s, k, r) && ms[k].value == Match(r + 4, [])
    {
      assert ms[k] == FromFromAt(s, k);
    }
  }

  /** No `FROM\s+FROM` match starts inside `ROM transactions`. */
  lemma NoPairInsideFallbackFrom(s: string, ms: seq<Option<Match>>, q: int, k: nat)
    requires PairAttempts(ms, s) && OccursAt(s, q, FallbackFrom) && k < |ms|
    ensures q < k < q + 17 ==> ms[k].None?
  {
    FallbackFromChars(s, q);
    if q < k < q + 17 && ms[k].Some? {
      var r :| FromFromFits(s, k, r) && ms[k].value == Match(r + 4, []);
      KwAtFirst(s, k, "from");
    }
  }

  /** A `FROM\s+FROM` match that covers the start of `FROM transactions`
      has that `FROM` as its second one. */
  lemma PairOverFallbackFrom(s: string, q: int, k: int, r: int)
    requires OccursAt(s, q, FallbackFrom) && FromFromFits(s, k, r) && k <= q < r + 4
    ensures r == q
  {
    FallbackFromChars(s, q);
    KwAtCovers(s, k, "from", q);
    KwAtCovers(s, r, "from", q);
    KwAtFirst(s, r, "from");
  }

  /** The fourth rewrite, replacing a match that ends with the `FROM` of
      `FROM transactions`, leaves `FROM transactions` in place. */
  lemma DropOverFallbackFrom(s: string, ms: seq<Option<Match>>, p: nat, k: nat, q: int)
    requires PairAttempts(ms, s) && p <= k <= q && OccursAt(s, q, FallbackFrom)
    ensures Contains(s[p..k] + "FROM" + SubFrom(DropDuplicateFrom, s, ms, q + 4), FallbackFrom)
  {
    var x := FallbackFrom;
    TailAfterTableFrom(s, ms, q);
    var tail := SubFrom(DropDuplicateFrom, s, ms, q + 17);
    FallbackFromSplit(s, q);
    ContainsSelf(x);
    ContainsWithin(s[p..k], x, tail, x);
    MiddleAssoc(s[p..k], "FROM", s[q + 4..q + 17], tail);
  }

  lemma FallbackFromSplit(s: string, q: int)
    requires OccursAt(s, q, FallbackFrom)
    ensures "FROM" + s[q + 4..q + 17] == FallbackFrom
  {
    assert s[q + 4..q + 17] == FallbackFrom[4..];
  }

  /** After the `FROM` of `FROM transactions` the scan copies
      ` transactions` before it can reach another match. */
  lemma TailAfterTableFrom(s: string, ms: seq<Option<Match>>, q: int)
    requires PairAttempts(ms, s) && OccursAt(s, q, FallbackFrom)
    ensures SubFrom(DropDuplicateFrom, s, ms, q + 4)
      == s[q + 4..q + 17] + SubFrom(DropDuplicateFrom, s, ms, q + 17)
  {
    forall k' | q + 4 <= k' < q + 17 ensures ms[k'].None? {
      NoPairInsideFallbackFrom(s, ms, q, k');
    }
    SubFromSkip(DropDuplicateFrom, s, ms, q + 4, q + 17);
  }

  lemma ExpandDropDuplicate(s: string, groups: seq<Span>)
    requires SpansIn(groups, s)
    ensures Expand(DropDuplicateFrom.template, s, groups) == "FROM"
  {
  }

  /** The fourth rewrite keeps an occurrence of `FROM transactions` that
      the scan reaches, possibly by turning `FROM FROM transactions` into
      `FROM transactions`. */
  lemma {:induction false} DropKeepsFallbackFrom(s: string, ms: seq<Option<Match>>, p: nat, q: int)
    requires PairAttempts(ms, s) && p <= q && OccursAt(s, q, FallbackFrom)
    ensures Contains(SubFrom(DropDuplicateFrom, s, ms, p), FallbackFrom)
    decreases |s| - p
  {
    var x := FallbackFrom;
    match Search(ms, p)
    case None =>
      SubFromNoMatch(DropDuplicateFrom, s, ms, p);
      OccursInSuffix(s, p, q, x);
    case Some(k) =>
      var m := ms[k].value;
      var r :| FromFromFits(s, k, r) && m == Match(r + 4, []);
      var rest := SubFrom(DropDuplicateFrom, s, ms, m.end);
      DropStep(s, ms, p, k);
      if m.end <= q {
        DropKeepsFallbackFrom(s, ms, m.end, q);
        ContainsAfterPrefix(s[p..k] + "FROM", rest, x);
      } else if k <= q {
        PairOverFallbackFrom(s, q, k, r);
        DropOverFallbackFrom(s, ms, p, k, q);
      } else {
        NoPairInsideFallbackFrom(s, ms, q, k);
        OccursInSlice(s, p, k, q, x);
        ContainsBefore(s[p..k], "FROM", x);
        ContainsBefore(s[p..k] + "FROM", rest, x);
      }
  }

  /** The first match the fourth rewrite finds from `p` becomes `FROM`. */
  lemma DropStep(s: string, ms: seq<Option<Match>>, p: nat, k: nat)
    requires PairAttempts(ms, s) && p <= |s| && Search(ms, p) == Some(k)
    ensures SubFrom(DropDuplicateFrom, s, ms, p)
      == s[p..k] + "FROM" + SubFrom(DropDuplicateFrom, s, ms, ms[k].value.end)
  {
    SubFromAt(DropDuplicateFrom, s, ms, p, k);
    ExpandDropDuplicate(s, ms[k].value.groups);
  }

  // ---------------------------------------------------------------------
  // The fallback table reaches the result
  // ---------------------------------------------------------------------

  /** Once the third rewrite sees `SELECT ... WHERE x`, the text after the
      fourth rewrite names `FROM transactions`. */
  lemma FallbackTableSurvives(s: string, i: nat, e: int)
    requires FallbackFits(s, i, e)
    ensures Contains(Substitute(DropDuplicateFrom, Substitute(InsertFrom, s)), FallbackFrom)
  {
    InsertsFallback(s, i, e);
    DropKeepsInserted(Substitute(InsertFrom, s));
  }

  /** The fourth rewrite keeps the `FROM transactions` of an inserted
      ` FROM transactions WHERE `. */
  lemma DropKeepsInserted(t: string)
    requires Contains(t, " " + FallbackFrom + " WHERE ")
    ensures Contains(Substitute(DropDuplicateFrom, t), FallbackFrom)
  {
    var x := " " + FallbackFrom + " WHERE ";
    var q :| 0 <= q <= |t| - |x| && OccursAt(t, q, x);
    OccursPart(t, q, x, 1, 18);
    assert x[1..18] == FallbackFrom;
    AttemptsArePairs(t);
    DropKeepsFallbackFrom(t, Attempts(FromFrom, t), 0, q + 1);
  }

  /** The statement after the first two rewrites. */
  function Reordered(raw: string): string {
    RulesValid();
    Substitute(OrderFirst, Substitute(WhereFirst, Normalise(raw)))
  }

  /** Whenever `SELECT ... WHERE x` is left after the first two rewrites,
      the rewritten statement names `FROM transactions`, and so does the
      repaired statement when repair succeeds. */
  lemma RepairNamesFallbackTable(raw: string, i: nat, e: int)
    requires FallbackFits(Reordered(raw), i, e)
    ensures Contains(Rewrite(Normalise(raw)), FallbackFrom)
    ensures RepairSql(raw).Ok? ==> Contains(RepairSql(raw).value, FallbackFrom)
  {
    FallbackTableSurvives(Reordered(raw), i, e);
    StripKeepsOccurrence(Rewrite(Normalise(raw)), FallbackFrom);
  }
}
