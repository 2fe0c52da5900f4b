/** The safety enforcer, `enforce_sql_safety` in SQL_AGENT/backend/main.py:
    a statement is accepted only when its trimmed, lower-cased text starts
    with `select` and holds none of ten mutating keywords as a whole word;
    an accepted statement without the text ` limit ` gets a row cap of
    `MAX_LIMIT` appended. */
module Safety {
  import opened Wrappers
  import opened Text

  /** `FORBIDDEN_KEYWORDS`. */
  const ForbiddenKeywords: set<string> :=
    {"delete", "drop", "update", "insert", "alter", "truncate", "create", "replace", "attach", "detach"}

  /** `MAX_LIMIT`, the row cap that is appended. */
  const MaxLimit: nat := 100

  const NotSelectMessage: string := "Only SELECT queries are allowed"

  /** The message naming the forbidden keyword that was found. */
  function ForbiddenMessage(word: string): string {
    "Forbidden SQL operation: " + Upper(word)
  }

  /** `f" LIMIT {MAX_LIMIT};"`. */
  function LimitClause(): string {
    " LIMIT " + Decimal(MaxLimit) + ";"
  }

  /** `sql.strip().lower()`, the copy every test is made on. */
  function Clean(sql: string): string {
    Lower(Strip(sql))
  }

  /** `sql_clean.startswith("select")`. */
  predicate StartsWithSelect(sql: string) {
    var c := Clean(sql);
    |c| >= 6 && c[..6] == "select"
  }

  /** Some forbidden keyword occurs in the cleaned text as a whole word. */
  predicate HasForbiddenWord(sql: string) {
    exists w :: w in ForbiddenKeywords && HasWord(Clean(sql), w)
  }

  /** `" limit " in sql_clean`: the test that decides whether a cap is added. */
  predicate MentionsLimit(sql: string) {
    Contains(Clean(sql), " limit ")
  }

  /** The statement passes both rejection tests. */
  predicate Admissible(sql: string) {
    StartsWithSelect(sql) && !HasForbiddenWord(sql)
  }

  /** What `enforce_sql_safety` returns for an admissible statement: a
      `select` keeps its lead and carries a row cap afterwards. */
  function CapRows(sql: string): (r: string)
    ensures StartsWithSelect(sql) ==> StartsWithSelect(r) && MentionsLimit(r)
  {
    if MentionsLimit(sql) then sql
    else if StartsWithSelect(sql) then
      CappedStartsWithSelect(sql);
      CappedMentionsLimit(sql);
      RStripChar(sql, ';') + LimitClause()
    else RStripChar(sql, ';') + LimitClause()
  }

  /** The guarantees a vetted statement carries to the executor. */
  predicate IsSafe(sql: string) {
    StartsWithSelect(sql) && MentionsLimit(sql) && !HasForbiddenWord(sql)
  }

  /** `enforce_sql_safety`. The keywords are tried in an order the model
      leaves open, as Python's iteration over a set of strings is; so when
      several forbidden keywords occur, any one of them may be named. */
  method EnforceSqlSafety(sql: string) returns (r: Result<string>)
    ensures r == Err(NotSelectMessage) <==> !StartsWithSelect(sql)
    ensures StartsWithSelect(sql) && HasForbiddenWord(sql) ==>
      exists w :: w in ForbiddenKeywords && HasWord(Clean(sql), w) && r == Err(ForbiddenMessage(w))
    ensures Admissible(sql) && MentionsLimit(sql) ==> r == Ok(sql)
    ensures Admissible(sql) && !MentionsLimit(sql) ==> r == Ok(RStripChar(sql, ';') + LimitClause())
  {
    var clean := Lower(Strip(sql));
    if !(|clean| >= 6 && clean[..6] == "select") {
      return Err(NotSelectMessage);
    }
    var remaining := ForbiddenKeywords;
    while remaining != {}
      invariant remaining <= ForbiddenKeywords
      invariant forall w :: w in ForbiddenKeywords - remaining ==> !HasWord(clean, w)
      decreases |remaining|
    {
      var word :| word in remaining;
      if HasWord(clean, word) {
        MessagesDiffer(word);
        return Err(ForbiddenMessage(word));
      }
      remaining := remaining - {word};
    }
    var out := sql;
    if !Contains(clean, " limit ") {
      out := RStripChar(sql, ';') + LimitClause();
    }
    return Ok(out);
  }

  // ---------------------------------------------------------------------
  // Lemmas
  // ---------------------------------------------------------------------

  /** A statement with no surrounding whitespace is cleaned by lower-casing
      alone. */
  lemma CleanTrimmed(sql: string)
    requires IsTrimmed(sql)
    ensures Clean(sql) == Lower(sql)
  {
    StripTrimmed(sql);
  }

  /** The appended clause is ` LIMIT 100;`. */
  lemma LimitClauseText()
    ensures LimitClause() == " LIMIT 100;"
  {
    assert Decimal(10) == "10";
  }

  /** The two error messages can be told apart, so the caller learns which
      test rejected the statement. */
  lemma MessagesDiffer(w: string)
    ensures ForbiddenMessage(w) != NotSelectMessage
  {
    assert ForbiddenMessage(w)[0] == 'F' && NotSelectMessage[0] == 'O';
  }

  /** Every character of the lower-cased limit clause is a space, one of
      the letters of `limit`, a digit or the semicolon. */
  lemma LimitClauseChars(i: int)
    requires 0 <= i < |Lower(LimitClause())|
    ensures var c := Lower(LimitClause())[i]; c in " limt;" || IsDigit(c)
  {
    var d := Decimal(MaxLimit);
    assert LimitClause() == " LIMIT " + d + ";";
    if 7 <= i < 7 + |d| {
      assert LimitClause()[i] == d[i - 7];
    }
  }

  /** An index of a character of the keyword that cannot occur in the
      limit clause. */
  function ForeignIndex(w: string): (i: nat)
    requires w in ForbiddenKeywords
    ensures i < |w| && w[i] !in " limt;" && !IsDigit(w[i])
  {
    if w == "insert" then 1
    else if w == "alter" || w == "attach" then 0
    else if w == "truncate" || w == "replace" then 1
    else if w == "create" then 0
    else if w == "update" then 0
    else 0
  }

  /** No forbidden keyword occurs, even as a substring, in the text after
      the leading space of the limit clause. */
  lemma NoForbiddenWordInLimitClause(w: string)
    requires w in ForbiddenKeywords
    ensures forall q :: !WordAt(Lower(LimitClause())[1..], q, w)
  {
    forall q ensures !WordAt(Lower(LimitClause())[1..], q, w) {
      NoForbiddenWordAt(q, w);
    }
  }

  lemma NoForbiddenWordAt(q: int, w: string)
    requires w in ForbiddenKeywords
    ensures !WordAt(Lower(LimitClause())[1..], q, w)
  {
    var t := Lower(LimitClause())[1..];
    var i := ForeignIndex(w);
    if 0 <= q + i < |t| {
      LimitClauseChars(q + i + 1);
      assert t[q + i] == Lower(LimitClause())[q + i + 1];
    }
  }

  /** Every forbidden keyword is a run of word characters. */
  lemma ForbiddenAreWords(w: string)
    requires w in ForbiddenKeywords
    ensures IsWord(w)
  {
  }

  /** No forbidden keyword is a whole word of `t`. */
  predicate KeywordFree(t: string) {
    forall w :: w in ForbiddenKeywords ==> !HasWord(t, w)
  }

  /** A statement passes the keyword scan exactly when its cleaned text is
      free of forbidden keywords. */
  lemma KeywordFreeClean(sql: string)
    ensures !HasForbiddenWord(sql) <==> KeywordFree(Clean(sql))
  {
  }

  /** A word that is not itself forbidden holds no forbidden keyword. */
  lemma KeywordFreeToken(t: string)
    requires IsWord(t) && t !in ForbiddenKeywords
    ensures KeywordFree(t)
  {
    forall w | w in ForbiddenKeywords ensures !HasWord(t, w) {
      WordOfToken(t, w);
    }
  }

  /** Text without word characters holds no forbidden keyword. */
  lemma KeywordFreeSeparator(t: string)
    requires forall i :: 0 <= i < |t| ==> !IsWordChar(t[i])
    ensures KeywordFree(t)
  {
    forall w | w in ForbiddenKeywords ensures !HasWord(t, w) {
      ForbiddenAreWords(w);
      NoWordInSeparator(t, w);
    }
  }

  /** Two keyword-free texts meeting at a non-word character stay
      keyword-free. */
  lemma KeywordFreeJoin(a: string, b: string)
    requires KeywordFree(a) && KeywordFree(b)
    requires (a != [] && !IsWordChar(a[|a| - 1])) || (b != [] && !IsWordChar(b[0]))
    ensures KeywordFree(a + b)
  {
    forall w | w in ForbiddenKeywords ensures !HasWord(a + b, w) {
      ForbiddenAreWords(w);
      WordInParts(a, b, w);
    }
  }

  /** The lower-cased limit clause starts with ` limit `. */
  lemma LimitClauseStartsWithLimit()
    ensures |Lower(LimitClause())| >= 7 && Lower(LimitClause())[..7] == " limit "
  {
    LimitClauseText();
  }

  /** When the cleaned statement starts with `select`, so does the
      left-stripped statement, ignoring case. */
  lemma SelectAfterLStrip(sql: string)
    requires StartsWithSelect(sql)
    ensures var m := LStrip(sql); |m| >= 6 && Lower(m[..6]) == "select"
  {
    var m := LStrip(sql);
    var core := RStrip(m);
    assert Clean(sql) == Lower(core);
    assert m[..6] == core[..6];
    LowerSlice(core, 0, 6);
  }

  /** Removing trailing semicolons cannot reach into a leading `select`. */
  lemma SelectSurvivesRStrip(m: string)
    requires |m| >= 6 && Lower(m[..6]) == "select"
    ensures var a := RStripChar(m, ';'); |a| >= 6 && a[..6] == m[..6]
  {
    assert LowerChar(m[5]) == Lower(m[..6])[5] == 't';
  }

  /** Removing the trailing semicolons of a statement whose stripped text
      starts with a letter leaves its leading whitespace in place. */
  lemma RStripSemicolonsAfterLead(sql: string)
    requires var m := LStrip(sql); |m| >= 6 && Lower(m[..6]) == "select"
    ensures var m := LStrip(sql);
      RStripChar(sql, ';') == sql[..|sql| - |m|] + RStripChar(m, ';')
  {
    var m := LStrip(sql);
    var lead := sql[..|sql| - |m|];
    SplitBeforeSuffix(sql, m);
    SelectSurvivesRStrip(m);
    var a1 := RStripChar(m, ';');
    assert lead + a1 == sql[..|lead| + |a1|];
    assert forall i :: |lead| + |a1| <= i < |sql| ==> sql[i] == m[i - |lead|];
    RStripCharUnique(sql, ';', lead + a1);
  }

  /** Stripping the capped statement: the leading whitespace goes, and the
      appended clause, ending in a non-space, stays. */
  lemma StripOfCapped(sql: string, clause: string)
    requires var m := LStrip(sql); |m| >= 6 && Lower(m[..6]) == "select"
    requires clause != [] && !IsSpace(clause[|clause| - 1])
    ensures Strip(RStripChar(sql, ';') + clause) == RStripChar(LStrip(sql), ';') + clause
  {
    var m := LStrip(sql);
    var lead := sql[..|sql| - |m|];
    RStripSemicolonsAfterLead(sql);
    SelectSurvivesRStrip(m);
    var y := RStripChar(m, ';') + clause;
    assert RStripChar(sql, ';') + clause == lead + y;
    assert y[0] == m[0];
    assert forall i :: 0 <= i < |lead| ==> lead[i] == sql[i];
    LStripAfterSpaces(lead, y);
    StripTrimmed(y);
  }

  /** The cleaned capped statement, for a statement that starts with
      `select` after stripping: the left-stripped statement without its
      trailing semicolons, followed by the lower-cased limit clause. */
  lemma CleanOfCapped(sql: string)
    requires StartsWithSelect(sql)
    ensures var a := RStripChar(LStrip(sql), ';');
      Clean(RStripChar(sql, ';') + LimitClause()) == Lower(a) + Lower(LimitClause())
  {
    SelectAfterLStrip(sql);
    LimitClauseText();
    StripOfCapped(sql, LimitClause());
    LowerConcat(RStripChar(LStrip(sql), ';'), LimitClause());
  }

  /** The capped statement still starts with `select`. */
  lemma CappedStartsWithSelect(sql: string)
    requires StartsWithSelect(sql)
    ensures StartsWithSelect(RStripChar(sql, ';') + LimitClause())
  {
    var m := LStrip(sql);
    SelectAfterLStrip(sql);
    SelectSurvivesRStrip(m);
    CleanOfCapped(sql);
    var a1 := RStripChar(m, ';');
    LowerSlice(a1, 0, 6);
    assert (Lower(a1) + Lower(LimitClause()))[..6] == Lower(a1)[..6];
  }

  /** The capped statement mentions ` limit `. */
  lemma CappedMentionsLimit(sql: string)
    requires StartsWithSelect(sql)
    ensures MentionsLimit(RStripChar(sql, ';') + LimitClause())
  {
    CleanOfCapped(sql);
    LimitClauseStartsWithLimit();
    ContainsAfter(Lower(RStripChar(LStrip(sql), ';')), Lower(LimitClause()), " limit ");
  }

  /** A forbidden keyword that is a whole word of the capped statement is a
      whole word of the statement itself. */
  lemma CappedAddsNoForbiddenWord(sql: string, w: string)
    requires StartsWithSelect(sql) && w in ForbiddenKeywords
    ensures HasWord(Clean(RStripChar(sql, ';') + LimitClause()), w) ==> HasWord(Clean(sql), w)
  {
    ForbiddenAreWords(w);
    var m := LStrip(sql);
    var a1 := RStripChar(m, ';');
    var core := RStrip(m);
    var ll := Lower(LimitClause());
    CleanOfCapped(sql);
    // `Lower(a1)` is a prefix of `Lower(m)` followed by semicolons only, and
    // the cleaned statement is a prefix of `Lower(m)` followed by whitespace.
    LowerSlice(m, 0, |a1|);
    LowerSlice(m, 0, |core|);
    LowerTailNonWord(m, |a1|);
    LowerTailNonWord(m, |core|);
    LimitClauseStartsWithLimit();
    NoForbiddenWordInLimitClause(w);
    WordFromConcatOfPrefix(Lower(m), Lower(a1), ll, Lower(core), w);
  }

  /** Capping a statement that starts with `select` and holds no forbidden
      keyword yields a statement that still does both. */
  lemma CappedStaysAdmissible(sql: string)
    requires Admissible(sql) && !MentionsLimit(sql)
    ensures var x := RStripChar(sql, ';') + LimitClause();
      StartsWithSelect(x) && MentionsLimit(x) && !HasForbiddenWord(x)
  {
    CappedStartsWithSelect(sql);
    CappedMentionsLimit(sql);
    forall w | w in ForbiddenKeywords
      ensures !HasWord(Clean(RStripChar(sql, ';') + LimitClause()), w)
    {
      CappedAddsNoForbiddenWord(sql, w);
    }
  }

  /** Safety invariant: whatever `enforce_sql_safety` accepts comes out
      starting with `select`, mentioning ` limit `, and free of forbidden
      keywords. */
  lemma {:induction false} VettedIsSafe(sql: string)
    requires Admissible(sql)
    ensures IsSafe(CapRows(sql))
  {
    if !MentionsLimit(sql) {
      CappedStaysAdmissible(sql);
    }
  }

  /** Idempotence: a vetted statement, enforced again, is accepted and
      returned unchanged (no second LIMIT clause). */
  lemma {:induction false} EnforceIdempotent(sql: string)
    requires Admissible(sql)
    ensures Admissible(CapRows(sql)) && CapRows(CapRows(sql)) == CapRows(sql)
  {
    VettedIsSafe(sql);
  }

  /** Capping keeps every whole-word occurrence of a word, since only
      semicolons are removed and the appended clause starts with a space. */
  lemma CapRowsKeepsWord(sql: string, w: string)
    requires IsWord(w) && HasWord(Lower(sql), w)
    ensures HasWord(Lower(CapRows(sql)), w)
  {
    if !MentionsLimit(sql) {
      var a := RStripChar(sql, ';');
      var la, ll := Lower(a), Lower(LimitClause());
      LowerSlice(sql, 0, |a|);
      PrefixKeepsWord(Lower(sql), la, w);
      var p :| 0 <= p <= |la| - |w| && WordAt(la, p, w);
      LimitClauseStartsWithLimit();
      LowerConcat(a, LimitClause());
      WordAtPrefix(la + ll, la, p, w);
    }
  }
}
