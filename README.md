# SQL guard of the NLP-to-SQL engine

The backend of this system asks a local language model for a SQL
statement. Before the SQLite database ever sees that statement, it passes
through a guard of three pure string functions in `SQL_AGENT/backend/main.py`:

- `repair_sql` rewrites common mistakes the model makes. It collapses
  whitespace and then applies four case-insensitive `re.sub` rewrites, in
  order:
  1. it moves a `FROM` that follows a `WHERE` in front of the `WHERE`;
  2. it does the same for a `FROM` that follows an `ORDER BY`;
  3. it inserts `FROM transactions` before the ` WHERE ` of every
     `SELECT … WHERE` match;
  4. it collapses `FROM FROM` into one `FROM`.

  Finally it rejects any statement that has no whole-word `from`.
- `enforce_sql_safety` admits only statements that start with `select`
  and contain none of ten mutating keywords as whole words. It appends
  ` LIMIT 100;` to any admitted statement whose trimmed, lower-cased form
  lacks the text ` limit `.
- `format_as_sql_table` renders the rows a query returned as a
  fixed-width text table between `+---+` separators.

The `/api/sql` route composes the first two (`main.py:195-196`).

The model consists of these Dafny modules:

- `Wrappers` holds the `Result` type. Its failure case carries the exact
  error message that the Python code raises.
- `Text` gives the character classes and string operations the guard
  relies on: `strip`, `rstrip(";")`, `lower`, `upper`, substring search
  and Python's `\b…\b` whole-word search. `Words` is `str.split()`, the
  independent description of whitespace collapsing.
- `Repair` models `repair_sql`:
  - `CollapseSpaces` models the whitespace collapsing.
  - Each rewrite pattern has its own matcher (`ReorderAt`, `FallbackAt`,
    `FromFromAt`). Each matcher picks the match that Python's backtracking
    finds first. That means the leftmost start, lazy `(.+?)` groups that
    are as short as possible, and a greedy table-name group that is as
    long as possible.
  - One scan engine (`Attempts`, `Search`, `SubFrom`, `Substitute`) models
    `re.sub`. It replaces every leftmost, non-overlapping match and expands
    `\n` group references in the template.
- `RepairFacts`, `ReorderFacts`, `FallbackFacts` and `DropFacts` prove
  what the rewrites do and when they leave a statement alone.
- `Safety` models `enforce_sql_safety`. The keyword scan is a loop over
  the set of forbidden keywords, taken in an unspecified order, as
  Python's iteration over a set is. The module also proves the safety
  invariant and idempotence.
- `Table` models `format_as_sql_table`. A method builds the column widths
  and the list of lines with loops, exactly as the Python code does. It is
  proved against a functional description of the finished table, and the
  table's shape is proved about that description.
- `Pipeline` composes repair and enforcement.
- `Scenarios` proves the model's result on concrete statements.

## Model

The four rewrites are the constants `Repair.WhereFirst`, `Repair.OrderFirst`,
`Repair.InsertFrom` and `Repair.DropDuplicateFrom` (`main.py:82-87`,
`90-95`, `98-103` and `106`): each a pattern and its template. Their results
are stated by `ReorderFacts.WhereFirstMovesTable`,
`ReorderFacts.OrderFirstMovesTable`, `FallbackFacts.InsertFromAddsTable` and
`DropFacts.DropMergesPair`, and when each leaves a statement alone by the
`…Idle` lemmas. A function listed below without a contract of its own is
characterised by the lemmas named in its row.

| member | source | states |
|---|---|---|
| Safety.EnforceSqlSafety | SQL_AGENT/backend/main.py:58-71 | The call fails with "Only SELECT queries are allowed" exactly when the trimmed, lower-cased statement does not start with `select`. Otherwise it fails naming some forbidden keyword that occurs there as a whole word. Failing that, it returns the statement byte for byte when ` limit ` occurs in it, and otherwise returns it with its trailing `;` removed and ` LIMIT 100;` appended. |
| Safety.CapRows | SQL_AGENT/backend/main.py:68-71 | What the enforcer returns for an admitted statement. A statement that starts with `select` still does once capped, and then contains ` limit `. `Safety.VettedIsSafe` adds that no forbidden keyword appears. |
| Safety.VettedIsSafe | SQL_AGENT/backend/main.py:58-71 | Whatever the enforcer accepts comes out starting with `select`, containing ` limit `, and free of forbidden keywords. |
| Safety.EnforceIdempotent | SQL_AGENT/backend/main.py:58-71 | Enforcing an accepted statement again accepts it and changes nothing, so no second LIMIT is added. |
| Safety.CappedStartsWithSelect | SQL_AGENT/backend/main.py:59-69 | Removing semicolons and appending the limit clause keeps the leading `select`. |
| Safety.CappedMentionsLimit | SQL_AGENT/backend/main.py:68-69 | After the limit clause is appended, the cleaned statement contains ` limit `. |
| Safety.CappedAddsNoForbiddenWord | SQL_AGENT/backend/main.py:64-69 | A forbidden keyword that is a whole word of the capped statement was already a whole word of the original. |
| Safety.CappedStaysAdmissible | SQL_AGENT/backend/main.py:61-69 | A capped statement passes both rejection tests again and contains ` limit `. |
| Safety.CapRowsKeepsWord | SQL_AGENT/backend/main.py:68-69 | Capping keeps every whole-word occurrence of a word. |
| Safety.LimitClauseText | SQL_AGENT/backend/main.py:11 | The appended clause is ` LIMIT 100;`, built from `MAX_LIMIT`. |
| Safety.MessagesDiffer | SQL_AGENT/backend/main.py:62-66 | The error for a forbidden keyword differs from the error for a non-SELECT statement. |
| Safety.ForbiddenAreWords | SQL_AGENT/backend/main.py:53-56 | Every forbidden keyword consists of word characters only, so `\b…\b` is a whole-word test for it. |
| Safety.NoForbiddenWordInLimitClause | SQL_AGENT/backend/main.py:64-69 | The appended limit clause contains no forbidden keyword. |
| Text.DecimalRoundTrip | SQL_AGENT/backend/main.py:69 | The decimal text of the cap reads back as the cap. |
| Repair.CollapseSpaces | SQL_AGENT/backend/main.py:79 | The result has only plain spaces as whitespace, and never two of them in a row. |
| Text.WordsStrip | SQL_AGENT/backend/main.py:78 | Stripping a statement does not change its words. |
| Repair.Normalise | SQL_AGENT/backend/main.py:78-79 | `strip` followed by the whitespace collapsing. `RepairFacts.NormaliseSplitJoin` proves it equals the words joined by single spaces; `RepairFacts.NormaliseIdentity` proves it leaves a trimmed, collapsed statement alone. |
| RepairFacts.NormaliseSplitJoin | SQL_AGENT/backend/main.py:78-79 | `strip` followed by the collapsing equals `" ".join(raw.split())`: the statement's words, in order, with exactly one space between neighbours. |
| RepairFacts.CollapseKeepsText | SQL_AGENT/backend/main.py:79 | Collapsing whitespace keeps every other character, in order. |
| RepairFacts.CollapseIdentity | SQL_AGENT/backend/main.py:79 | A statement already in collapsed form is left as it is. |
| RepairFacts.CollapseIdempotent | SQL_AGENT/backend/main.py:79 | Collapsing twice is collapsing once. |
| RepairFacts.NormaliseIdentity | SQL_AGENT/backend/main.py:78-79 | A trimmed, collapsed statement passes `strip` and the collapsing unchanged. |
| RepairFacts.CollapsedNoNewline | SQL_AGENT/backend/main.py:79-83 | A collapsed statement has no line break, so regex `.` matches all of it. |
| Repair.FindReorder | SQL_AGENT/backend/main.py:83 | The first group ends at the first position from which the rest of the pattern fits. |
| Repair.FindCondEnd | SQL_AGENT/backend/main.py:83 | With the first group fixed, the second group ends at the first position from which ` FROM table` fits. |
| Repair.ReorderAt | SQL_AGENT/backend/main.py:83 | A match of `SELECT (.+?) <clause> (.+?) FROM ([a-zA-Z0-9_]+)` at a position is the fit backtracking reaches first. When there is no match, nothing fits there. |
| Repair.FindWhere | SQL_AGENT/backend/main.py:99 | The first group of `SELECT (.+?) WHERE (.+?)` ends at the first position where ` WHERE ` and one more character fit. |
| Repair.FallbackAt | SQL_AGENT/backend/main.py:99 | A match of `SELECT (.+?) WHERE (.+?)` is the fit with the shortest first group, and its second group is one character. When there is no match, nothing fits. |
| Repair.FromFromAt | SQL_AGENT/backend/main.py:106 | A match of `FROM\s+FROM` at a position is the unique fit there. When there is no match, nothing fits. |
| Repair.Search | SQL_AGENT/backend/main.py:82-106 | Scanning for the next match finds the leftmost start position that matches, as `re.sub` does. |
| Repair.Attempts | SQL_AGENT/backend/main.py:82-106 | One match attempt per start position, the end of the text included, each the pattern's own matcher there. Every match ends after its start and inside the text. |
| Repair.SubFrom | SQL_AGENT/backend/main.py:82-106 | `re.sub` from a position: `RepairFacts.SubFromSkip` proves text before the leftmost match is copied, `RepairFacts.SubFromAt` that the leftmost match is replaced and the scan resumes at its end, `RepairFacts.SubFromNoMatch` that with no match the rest is copied. |
| Repair.Substitute | SQL_AGENT/backend/main.py:82-106 | `re.sub` over the whole statement. `RepairFacts.SubstituteIdentity` proves that it is the identity where the pattern matches nowhere. |
| Repair.Rewrite | SQL_AGENT/backend/main.py:82-106 | The four rewrites in the source's order. `RepairFacts.WellFormedUnchanged` proves it keeps a well-formed statement; `ReorderFacts.WhereFirstMovesTable`, `ReorderFacts.OrderFirstMovesTable`, `FallbackFacts.InsertFromAddsTable` and `DropFacts.DropMergesPair` give each rewrite's closed form; `Scenarios.DanglingRepaired` chains all four. |
| Repair.RulesValid | SQL_AGENT/backend/main.py:82-106 | Each of the four templates refers only to groups its pattern captures. |
| Repair.RequireFrom | SQL_AGENT/backend/main.py:108-112 | The call fails with the missing-FROM message only when no whole-word `from` is left. A statement it accepts has no surrounding whitespace and still contains a whole-word `from`. |
| Repair.RepairSql | SQL_AGENT/backend/main.py:77-112 | `repair_sql` either fails with "Invalid SQL generated (missing FROM clause)" or returns a statement with no surrounding whitespace that contains a whole-word `from`. |
| RepairFacts.SubstituteIdentity | SQL_AGENT/backend/main.py:82-106 | A rewrite whose pattern matches nowhere leaves the text alone. |
| RepairFacts.SubFromSkip | SQL_AGENT/backend/main.py:82-106 | Where no match starts, `re.sub` copies the text as it is. |
| RepairFacts.SubFromAt | SQL_AGENT/backend/main.py:82-106 | The leftmost match is replaced by its template's expansion, and scanning resumes where the match ended. |
| RepairFacts.SubFromNoMatch | SQL_AGENT/backend/main.py:82-106 | With no match left, `re.sub` copies the rest of the text. |
| RepairFacts.ReorderNeedsClause | SQL_AGENT/backend/main.py:82-95 | A reordering match needs its clause text and `from`. |
| RepairFacts.FallbackNeedsWhere | SQL_AGENT/backend/main.py:99 | The third pattern needs ` where `. |
| RepairFacts.FromFromNeedsPair | SQL_AGENT/backend/main.py:106 | The fourth pattern needs `from`. In a collapsed statement it needs `from from`. |
| RepairFacts.ReorderIdle | SQL_AGENT/backend/main.py:82-95 | Each reordering rewrite is the identity on a statement that lacks its clause or `from`. |
| ReorderFacts.ReorderIdleLate | SQL_AGENT/backend/main.py:82-95 | Each reordering rewrite is the identity on a statement with no ` from ` from position `9 + |clause|` on, because `SELECT `, the clause and two non-empty groups must precede the table. |
| RepairFacts.InsertFromIdle | SQL_AGENT/backend/main.py:98-103 | The third rewrite is the identity on a statement without ` where `. |
| RepairFacts.DropDuplicateIdle | SQL_AGENT/backend/main.py:106 | The fourth rewrite is the identity on a statement without `from`, or on a collapsed statement without `from from`. |
| RepairFacts.WellFormedUnchanged | SQL_AGENT/backend/main.py:77-112 | A normalised statement with a whole-word FROM and none of ` WHERE `, ` ORDER BY ` or `FROM FROM` is returned unchanged. |
| RepairFacts.FailsWithoutFrom | SQL_AGENT/backend/main.py:98-110 | A statement without `from` and without ` where ` cannot be repaired. |
| RepairFacts.InsertsFallback | SQL_AGENT/backend/main.py:98-103 | Wherever `SELECT … WHERE x` fits, the third rewrite's output contains ` FROM transactions WHERE `. |
| RepairFacts.DropKeepsFallbackFrom | SQL_AGENT/backend/main.py:106 | Removing duplicate FROMs keeps every occurrence of `FROM transactions`. |
| RepairFacts.FallbackTableSurvives | SQL_AGENT/backend/main.py:98-106 | Once `SELECT … WHERE x` fits before the third rewrite, `FROM transactions` survives the fourth. |
| RepairFacts.RepairNamesFallbackTable | SQL_AGENT/backend/main.py:82-112 | Whenever `SELECT … WHERE x` is left after the first two rewrites, the rewritten statement, and a successful repair, contain `FROM transactions`. |
| ReorderFacts.ReorderMovesTable | SQL_AGENT/backend/main.py:82-95 | A reordering rewrite turns `SELECT c <clause> w FROM t` into `SELECT c FROM t <clause> w`. |
| ReorderFacts.WhereFirstMovesTable | SQL_AGENT/backend/main.py:82-87 | `SELECT c WHERE w FROM t` becomes `SELECT c FROM t WHERE w`. |
| ReorderFacts.OrderFirstMovesTable | SQL_AGENT/backend/main.py:90-95 | `SELECT c ORDER BY w FROM t` becomes `SELECT c FROM t ORDER BY w`. |
| FallbackFacts.InsertFromAddsTable | SQL_AGENT/backend/main.py:98-103 | `SELECT c WHERE w` becomes `SELECT c FROM transactions WHERE w`. |
| DropFacts.DropMergesPair | SQL_AGENT/backend/main.py:105-106 | `a FROM FROM b`, the two `FROM`s in any case and one space apart, becomes `a FROM b` when `a` and `b` hold no other `from`. |
| DropFacts.PairAlone | SQL_AGENT/backend/main.py:106 | `FROM FROM` on its own becomes `FROM`. |
| Pipeline.VetStatement | SQL_AGENT/backend/main.py:195-196 | A statement reaches the executor exactly when repair succeeds and the repaired statement passes both rejection tests. It then arrives capped, safe and still naming a table. Each failure carries the message of the stage that raised it. |
| Table.LJust | SQL_AGENT/backend/main.py:133 | `ljust` keeps the text as a prefix, pads only with spaces, and reaches the width. |
| Table.FormatAsSqlTable | SQL_AGENT/backend/main.py:118-139 | Empty rows give `(no rows)`. Otherwise the loops build exactly the separator, header, separator, row lines and separator, joined by newlines. |
| Table.ColWidth | SQL_AGENT/backend/main.py:123-127 | The width of one column after both loops. `Table.ColWidthIsMax` proves it is the largest of the column name's and the cells' lengths. |
| Table.Widths | SQL_AGENT/backend/main.py:123-127 | One width per column, and every column name and every cell fits its column's width. |
| Table.Sep | SQL_AGENT/backend/main.py:129-130 | The separator line. `Table.LinesAligned` proves it opens, follows the header of, and closes the table, and is as long as every line. |
| Table.Line | SQL_AGENT/backend/main.py:132-133 | One row's line. `Table.LineMatchesSep` proves it is as long as the separator when the cells fit; `Table.CellShown` that it shows every cell. |
| Table.LineMatchesSep | SQL_AGENT/backend/main.py:129-133 | A line whose cells fit their columns is exactly as long as the separator over those columns. |
| Table.TableLines | SQL_AGENT/backend/main.py:129-139 | The lines of a non-empty table. `Table.LinesAligned` proves its shape, and `Table.FormatAsSqlTable` that the loops build exactly these lines. |
| Table.ColWidthIsMax | SQL_AGENT/backend/main.py:123-127 | A column's width is at least its name's length and each of its cells' lengths, and equals one of them. |
| Table.LinesAligned | SQL_AGENT/backend/main.py:129-139 | A non-empty table has n+4 lines: three identical separators in the right places, the header line and one line per row, all of the same length. |
| Table.CellShown | SQL_AGENT/backend/main.py:132-133 | Every cell's text appears in its row's line. |
| Scenarios.NoTableFails | SQL_AGENT/backend/main.py:108-110 | `SELECT 1` cannot be repaired. |
| Scenarios.WellFormedQueryKept | SQL_AGENT/backend/main.py:77-112 | `SELECT * FROM users LIMIT 10;` passes repair untouched. |
| Scenarios.WellFormedQueryNotCapped | SQL_AGENT/backend/main.py:58-71 | The enforcer accepts that query (it starts with `select` and has no forbidden keyword) and returns it unchanged, without a second LIMIT. |
| Scenarios.DropFailsRepair | SQL_AGENT/backend/main.py:108-110 | `DROP TABLE users;` is already refused by repair, for lack of a FROM. |
| Scenarios.DropIsNotSelect | SQL_AGENT/backend/main.py:59-62 | The enforcer on its own refuses `DROP TABLE users;` at the SELECT test. |
| Scenarios.EmbeddedKeywordAllowed | SQL_AGENT/backend/main.py:64-66 | `update` inside `updated_at` is not a whole word, so `SELECT updated_at FROM t` passes both rejection tests. |
| Scenarios.LargeLimitKept | SQL_AGENT/backend/main.py:58-71 | The enforcer accepts `SELECT * FROM t LIMIT 1000` and returns it as it is, not lowered to the cap. |
| Scenarios.UncappedQueryCapped | SQL_AGENT/backend/main.py:58-71 | The enforcer accepts `SELECT * FROM t;` and returns `SELECT * FROM t LIMIT 100;`. |
| Scenarios.MisorderedRepaired | SQL_AGENT/backend/main.py:77-112 | `SELECT name WHERE age > 30 FROM users` is repaired to `SELECT name FROM users FROM transactions WHERE age > 30`. |
| Scenarios.DoubledCapped | SQL_AGENT/backend/main.py:58-71 | The enforcer then accepts that statement and returns it with ` LIMIT 100;` appended. |
| Scenarios.TablelessRepaired | SQL_AGENT/backend/main.py:98-103 | `SELECT count(*) WHERE status='failed'` is repaired to `SELECT count(*) FROM transactions WHERE status='failed'`. |
| Scenarios.DanglingRepaired | SQL_AGENT/backend/main.py:97-112 | `SELECT count(*) FROM WHERE status='failed'` is repaired to `SELECT count(*) FROM transactions WHERE status='failed'`: the third rewrite adds the fallback table and the fourth merges the two `FROM`s. |
| Scenarios.SuppliedCapped | SQL_AGENT/backend/main.py:58-71 | The enforcer then accepts that statement and returns it with ` LIMIT 100;` appended. |

## Where the code departs from its evident intent

The model follows the code in each of these cases.

- **A misordered WHERE gets two tables.** The first rewrite is headed
  `# Fix SELECT ... WHERE ... FROM table` (`main.py:81`): it is meant to
  produce `SELECT … FROM table WHERE …`. But the third rewrite, headed
  `# Fix COUNT WHERE FROM` (`main.py:97`) and meant for a statement that
  names no table, fires on any `SELECT … WHERE` and has no guard for an
  existing FROM. So `SELECT name WHERE age > 30 FROM users` comes out as
  `SELECT name FROM users FROM transactions WHERE age > 30`, not
  `SELECT name FROM users WHERE age > 30` (`Scenarios.MisorderedRepaired`).
  The same happens to an already well-ordered `SELECT … FROM t WHERE …`
  (`FallbackFacts.InsertFromAddsTable` with `c` = `* FROM t`).
- **The third rewrite's second group is one character.** Its `(.+?)` ends
  the pattern `SELECT (.+?) WHERE (.+?)` (`main.py:99`), so `\2` captures
  exactly one character. The rest of the condition is copied after the
  replacement unchanged, so the output is still the whole condition.
- **The cap is decided by text alone.** `MAX_LIMIT` (`main.py:11`) and the
  `"limit-injection"` entry of the status route (`main.py:186`) present the
  limit as a bound on the rows returned. The enforcer, though, looks only
  for the text ` limit ` (`main.py:68`), so `LIMIT 1000` is kept as it is
  (`Scenarios.LargeLimitKept`). A ` limit ` inside a string literal also
  suppresses the cap. The model's safety invariant (`Safety.IsSafe`)
  therefore promises ` limit ` in the text, not a limit value at most
  `MAX_LIMIT`.
- **A DROP statement fails in repair first.** `DROP TABLE users;` names no
  table, so in the route `repair_sql` raises the missing-FROM error
  (`main.py:108-110`) before the keyword block of `enforce_sql_safety`
  runs (`Scenarios.DropFailsRepair`). The enforcer on its own refuses it
  at the SELECT test (`Scenarios.DropIsNotSelect`).

## Left out

- Database access is outside the model, because it is I/O: `get_db_schema`, `execute_sql`, and the SQLite connection and row handling.
- `generate_sql_with_ollama` and `list_models.py` are outside the model, because they call an external program. The model takes the raw statement as a parameter instead.
- The FastAPI routes, the `HTTPException` mapping and `upload_csv` (pandas CSV loading) are outside the model, because they are HTTP and file plumbing. The frontend and `generate_transactions.py` are also not part of this model.
- Full Unicode is not modelled. `\s` is the ASCII whitespace that Python's `str.isspace` accepts. `\w` and `\b` use `[A-Za-z0-9_]`. `lower`, `upper` and `re.I` fold ASCII letters only.
- `str()` of arbitrary cell values is not modelled: cells are given as strings.
- `re.sub` is modelled only for the four patterns of `repair_sql`, not as a general regex engine.
- Safety.EnforceSqlSafety: when several forbidden keywords occur, the model names some one of them, because Python's iteration order over a set of strings is unspecified.
- Table.FormatAsSqlTable: rows are sequences of cells in the column order of the first row, and every row must have one cell per column. The `KeyError` that Python raises for a row missing a key of the first row is not modelled.
- ReorderFacts.ReorderMovesTable, ReorderFacts.WhereFirstMovesTable and ReorderFacts.OrderFirstMovesTable give the closed-form result only for a statement of exactly the form `SELECT c<clause>w FROM t`:
  - the statement ends with the table name, so `… FROM users LIMIT 5` is not covered;
  - `SELECT`, `FROM` and the clause are written in upper case;
  - `c` does not run into the clause: the lower-cased `c` followed by all but the last character of the lower-cased clause does not contain the lower-cased clause, so `c` = `a where` is excluded for ` WHERE `;
  - `w` does not run into the table: the lower-cased `w` followed by ` from` does not contain ` from `, so `w` must not contain ` from ` and must not end in ` from`;
  - `c` and `w` hold no line break.

  For other inputs the scan engine still defines the result, but no closed form is proved.
- FallbackFacts.InsertFromAddsTable gives the closed-form result only for `SELECT c WHERE w` with `SELECT` and `WHERE` in upper case, `c` holding no ` where ` and no line break, and `w` holding no second `select ` and not starting with a line break.
- DropFacts.DropMergesPair gives the closed-form result only for `a FROM FROM b` with exactly one space between the two `FROM`s, no `from` in `a` or `b` in any case, and no `from` formed by the end of `a` and the first `FROM`. For other inputs the scan engine still defines the result.
- ReorderFacts.ReorderIdleLate is a sufficient condition for the reordering rewrites to be idle, not an exact one: it asks for no ` from ` from position `9 + |clause|` on, wherever the clause occurs.
- RepairFacts.RepairNamesFallbackTable states that `FROM transactions` occurs in the result, not where it occurs. Its hypothesis is about the statement after the first two rewrites, not the raw input: in `SELECT a ORDER BY b where FROM t` the second rewrite moves the table in front of `ORDER BY` and leaves `where` at the very end, so the third rewrite no longer fits and no `FROM transactions` appears. Its claim about the repaired statement holds only when repair succeeds: in `SELECT aFROM WHERE b` the third rewrite inserts `FROM transactions`, the fourth then merges `aFROM FROM` into `aFROM`, no whole-word `from` is left, and repair fails.
