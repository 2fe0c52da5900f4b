/** The guard in front of the database, SQL_AGENT/backend/main.py:195-196:
    the generated statement is repaired and then vetted, and only what
    passes both reaches the executor. */
module Pipeline {
  import opened Wrappers
  import opened Text
  import opened Repair
  import opened Safety

  /** `enforce_sql_safety(repair_sql(raw_sql))`; an exception from either
      stage becomes an `Err` with its message. */
  method VetStatement(raw: string) returns (r: Result<string>)
    ensures RepairSql(raw).Err? ==> r == Err(MissingFromMessage)
    ensures r.Ok? <==> RepairSql(raw).Ok? && Admissible(RepairSql(raw).value)
    ensures RepairSql(raw).Ok? && !StartsWithSelect(RepairSql(raw).value) ==> r == Err(NotSelectMessage)
    ensures RepairSql(raw).Ok? && StartsWithSelect(RepairSql(raw).value) && HasForbiddenWord(RepairSql(raw).value) ==>
      exists w :: w in ForbiddenKeywords && HasWord(Clean(RepairSql(raw).value), w) && r == Err(ForbiddenMessage(w))
    ensures r.Err? && r.error != MissingFromMessage && r.error != NotSelectMessage ==>
      exists w :: w in ForbiddenKeywords && r.error == ForbiddenMessage(w)
        && HasWord(Clean(RepairSql(raw).value), w)
    ensures r.Ok? ==> r.value == CapRows(RepairSql(raw).value)
    ensures r.Ok? ==> IsSafe(r.value) && HasWord(Lower(r.value), "from")
  {
    var fixed := RepairSql(raw);
    if fixed.Err? {
      return Err(fixed.error);
    }
    r := EnforceSqlSafety(fixed.value);
    if r.Ok? {
      VettedIsSafe(fixed.value);
      FromIsWord();
      CapRowsKeepsWord(fixed.value, "from");
    }
  }

  /** `from` is a keyword-shaped word. */
  lemma FromIsWord()
    ensures IsWord("from")
  {
  }
}
