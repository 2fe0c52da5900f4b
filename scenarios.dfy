/** The model's result on the concrete statements below: what the guard
    does with each of them. */
module Scenarios {
  import opened Wrappers
  import opened Text
  import opened Repair
  import opened RepairFacts
  import opened Safety
  import opened ReorderFacts
  import opened FallbackFacts
  import opened DropFacts

  /** A statement with no table at all cannot be repaired. */
  lemma NoTableFails()
    ensures RepairSql("SELECT 1") == Err(MissingFromMessage)
  {
    var s := "SELECT 1";
    assert Collapsed(s) && IsTrimmed(s);
    NormaliseIdentity(s);
    NoTableNoClause();
    FailsWithoutFrom(s);
  }

  lemma NoTableNoClause()
    ensures !Contains(Lower("SELECT 1"), "from") && !Contains(Lower("SELECT 1"), " where ")
  {
    assert Lower("SELECT 1") == "select 1";
    MissingChar("select 1", "from", 0);
    MissingChar("select 1", " where ", 2);
  }

  /** `SELECT * FROM users LIMIT 10;` */
  const WellFormed: string := "SELECT * " + "FROM users" + " LIMIT 10;"

  lemma WellFormedShape()
    ensures Collapsed(WellFormed) && IsTrimmed(WellFormed)
  {
    assert Collapsed("SELECT * ") && Collapsed("FROM users") && Collapsed(" LIMIT 10;");
    CollapsedConcat("SELECT * ", "FROM users");
    CollapsedConcat("SELECT * " + "FROM users", " LIMIT 10;");
  }

  lemma WellFormedLower()
    ensures Lower(WellFormed) == "select * " + "from users" + " limit 10;"
  {
    LowerConcat("SELECT * " + "FROM users", " LIMIT 10;");
    LowerConcat("SELECT * ", "FROM users");
    assert Lower("SELECT * ") == "select * " && Lower("FROM users") == "from users";
    assert Lower(" LIMIT 10;") == " limit 10;";
  }

  lemma WellFormedNamesTable()
    ensures HasWord(Lower(WellFormed), "from")
  {
    WellFormedLower();
    var l := Lower(WellFormed);
    assert l[9..13] == "from";
    assert WordAt(l, 9, "from");
  }

  lemma WellFormedInOrder()
    ensures !Contains(Lower(WellFormed), " where ") && !Contains(Lower(WellFormed), " order by ")
  {
    WellFormedLower();
    MissingChar(Lower(WellFormed), " where ", 1);
    MissingChar(Lower(WellFormed), " order by ", 8);
  }

  lemma WellFormedSingleFrom()
    ensures !Contains(Lower(WellFormed), "from from")
  {
    WellFormedLower();
    assert "from from"[0] == 'f' && "from from"[5] == 'f';
    GapMissing(Lower(WellFormed), "from from", 0, 5);
  }

  /** A well-formed capped query passes repair untouched. */
  lemma WellFormedQueryKept()
    ensures RepairSql(WellFormed) == Ok(WellFormed)
  {
    WellFormedShape();
    WellFormedNamesTable();
    WellFormedInOrder();
    WellFormedSingleFrom();
    WellFormedUnchanged(WellFormed);
  }

  /** ... and the safety enforcer passes it on unchanged, adding no second
      limit. */
  lemma WellFormedQueryNotCapped()
    ensures Admissible(WellFormed) && MentionsLimit(WellFormed) && CapRows(WellFormed) == WellFormed
  {
    WellFormedAdmissible();
    WellFormedShape();
    CleanTrimmed(WellFormed);
    WellFormedLower();
    assert OccursAt(Clean(WellFormed), 19, " limit ");
  }

  lemma DropShape()
    ensures Normalise("DROP TABLE users;") == "DROP TABLE users;"
  {
    assert Collapsed("DROP TABLE users;") && IsTrimmed("DROP TABLE users;");
    NormaliseIdentity("DROP TABLE users;");
  }

  lemma DropLower()
    ensures Lower("DROP TABLE users;") == "drop table users;"
  {
  }

  lemma DropNamesNoTable()
    ensures !Contains(Lower("DROP TABLE users;"), "from") && !Contains(Lower("DROP TABLE users;"), " where ")
  {
    DropLower();
    MissingChar("drop table users;", "from", 0);
    MissingChar("drop table users;", " where ", 1);
  }

  /** A mutating statement names no table, so repair already refuses it... */
  lemma DropFailsRepair()
    ensures RepairSql("DROP TABLE users;") == Err(MissingFromMessage)
  {
    DropShape();
    DropNamesNoTable();
    FailsWithoutFrom("DROP TABLE users;");
  }

  /** ... and the safety enforcer on its own refuses it before any keyword
      is looked at. */
  lemma DropIsNotSelect()
    ensures !StartsWithSelect("DROP TABLE users;")
  {
    CleanTrimmed("DROP TABLE users;");
    DropLower();
  }

  // ---------------------------------------------------------------------
  // A keyword inside a longer identifier
  // ---------------------------------------------------------------------

  /** `SELECT updated_at FROM t` */
  const Embedded: string := "SELECT " + "updated_at" + " FROM " + "t"
  const EmbeddedText: string := "select " + "updated_at" + " from " + "t"

  lemma EmbeddedClean()
    ensures Clean(Embedded) == EmbeddedText
  {
    EmbeddedTrimmed();
    CleanTrimmed(Embedded);
    EmbeddedLower();
  }

  lemma EmbeddedTrimmed()
    ensures IsTrimmed(Embedded)
  {
  }

  lemma EmbeddedLower()
    ensures Lower(Embedded) == EmbeddedText
  {
    LowerConcat("SELECT " + "updated_at" + " FROM ", "t");
    LowerConcat("SELECT " + "updated_at", " FROM ");
    LowerConcat("SELECT ", "updated_at");
    assert Lower("SELECT ") == "select " && Lower("updated_at") == "updated_at";
    assert Lower(" FROM ") == " from " && Lower("t") == "t";
  }

  /** A keyword two of whose neighbouring letters never stand side by side
      in the text. */
  lemma EmbeddedLacksPair(w: string, a: nat)
    requires a + 1 < |w| && w[a] != ' ' && w[a] != 't'
    requires NoGap("select ", w[a], w[a + 1], 1) && NoGap("updated_at", w[a], w[a + 1], 1)
    requires NoGap(" from ", w[a], w[a + 1], 1)
    ensures !HasWord(EmbeddedText, w)
  {
    var x, y := w[a], w[a + 1];
    NoGapConcat("select ", "updated_at", x, y, 1);
    NoGapConcat("select " + "updated_at", " from ", x, y, 1);
    NoGapConcat("select " + "updated_at" + " from ", "t", x, y, 1);
    GapMissing(EmbeddedText, w, a, a + 1);
    HasWordContains(EmbeddedText, w);
  }

  /** A keyword with a letter the text lacks. */
  lemma EmbeddedLacksChar(w: string, j: nat)
    requires j < |w| && w[j] !in "select " && w[j] !in "updated_at" && w[j] !in " from "
    requires w[j] != 't'
    ensures !HasWord(EmbeddedText, w)
  {
    var t := EmbeddedText;
    forall k | 0 <= k < |t| ensures t[k] != w[j] {
      if k < 7 {
        assert t[k] == "select "[k];
      } else if k < 17 {
        assert t[k] == "updated_at"[k - 7];
      } else if k < 23 {
        assert t[k] == " from "[k - 17];
      }
    }
    MissingChar(t, w, j);
    HasWordContains(t, w);
  }

  /** The only `u` of the text is the first letter of `updated_at`. */
  lemma EmbeddedOnlyU(q: int)
    requires 0 <= q < |EmbeddedText| && EmbeddedText[q] == 'u'
    ensures q == 7
  {
    var t := EmbeddedText;
    if 7 <= q < 17 {
      assert t[q] == "updated_at"[q - 7];
    }
  }

  /** `update` occurs, but only as the start of `updated_at`, so not as a
      whole word. */
  lemma EmbeddedUpdate()
    ensures !HasWord(EmbeddedText, "update")
  {
    var t := EmbeddedText;
    if HasWord(t, "update") {
      var p :| 0 <= p <= |t| - 6 && WordAt(t, p, "update");
      assert t[p] == t[p..p + 6][0] == 'u';
      EmbeddedOnlyU(p);
    }
  }

  lemma EmbeddedNoKeyword(w: string)
    requires w in ForbiddenKeywords
    ensures !HasWord(EmbeddedText, w)
  {
    if w == "update" {
      EmbeddedUpdate();
    } else if w == "insert" || w == "truncate" {
      assert "insert"[0] == 'i' && "truncate"[3] == 'n';
      EmbeddedLacksChar(w, if w == "insert" then 0 else 3);
    } else if w == "attach" || w == "detach" {
      assert w[5] == 'h';
      EmbeddedLacksChar(w, 5);
    } else {
      assert w[0] in "dacr" && w[1] in "erl";
      EmbeddedLacksPair(w, 0);
    }
  }

  /** A forbidden keyword inside a longer identifier is not a whole word:
      `SELECT updated_at FROM t` passes both rejection tests. */
  lemma EmbeddedKeywordAllowed()
    ensures Admissible(Embedded)
  {
    EmbeddedClean();
    assert EmbeddedText[..6] == "select";
    forall w | w in ForbiddenKeywords ensures !HasWord(Clean(Embedded), w) {
      EmbeddedNoKeyword(w);
    }
  }

  const LargeLimit: string := "SELECT * FROM t LIMIT 1000"

  lemma LargeLimitLower()
    ensures Lower(LargeLimit) == "select * from t" + " limit " + "1000"
  {
  }

  lemma LargeLimitClean()
    ensures Clean(LargeLimit) == "select * from t" + " limit " + "1000"
  {
    CleanTrimmed(LargeLimit);
    LargeLimitLower();
  }

  /** The cap is decided by the text ` limit ` alone: a larger limit is
      kept as it is, not lowered to `MAX_LIMIT`. */
  lemma LargeLimitKept()
    ensures Admissible(LargeLimit) && MentionsLimit(LargeLimit) && CapRows(LargeLimit) == LargeLimit
  {
    LargeLimitAdmissible();
    LargeLimitClean();
    assert OccursAt(Clean(LargeLimit), 15, " limit ");
  }

  const Uncapped: string := "SELECT * FROM t;"

  lemma UncappedLower()
    ensures Lower(Uncapped) == "select * from t;"
  {
  }

  lemma UncappedClean()
    ensures Clean(Uncapped) == "select * from t;"
  {
    CleanTrimmed(Uncapped);
    UncappedLower();
  }

  lemma UncappedStripped()
    ensures RStripChar(Uncapped, ';') == "SELECT * FROM t"
  {
    RStripCharUnique(Uncapped, ';', "SELECT * FROM t");
  }

  /** A query without a limit gets ` LIMIT 100;`, its own semicolon
      dropped first. */
  lemma UncappedQueryCapped()
    ensures Admissible(Uncapped) && CapRows(Uncapped) == "SELECT * FROM t" + " LIMIT 100;"
  {
    UncappedAdmissible();
    UncappedNoLimit();
    LimitClauseText();
    UncappedStripped();
  }

  lemma UncappedNoLimit()
    ensures !MentionsLimit(Uncapped)
  {
    UncappedClean();
    MissingChar("select * from t;", " limit ", 2);
  }

  // ---------------------------------------------------------------------
  // A clause before its table: the first rewrite moves the table forward,
  // and the third then adds the fallback table as well
  // ---------------------------------------------------------------------

  // The statements below are written as concatenations of their pieces:
  // the pieces the rewrites see.

  const Misordered: string := "SELECT " + "name" + " WHERE " + "age > 30" + " FROM " + "users"
  const Moved: string := "SELECT " + "name" + " FROM " + "users" + " WHERE " + "age > 30"
  const Doubled: string := "SELECT " + ("name" + " FROM " + "users") + " " + FallbackFrom + " WHERE " + "age > 30"

  /** Sequence concatenation regrouped. */
  lemma Regroup(a: string, b: string, c: string, d: string, e: string, f: string)
    ensures a + b + c + d + e + f == a + (b + c + d) + e + f
  {
  }

  /** Lower-casing a statement of six pieces, piece by piece. */
  lemma LowerSix(a: string, b: string, c: string, d: string, e: string, f: string)
    ensures Lower(a + b + c + d + e + f) == Lower(a) + Lower(b) + Lower(c) + Lower(d) + Lower(e) + Lower(f)
  {
    LowerConcat(a + b + c + d + e, f);
    LowerConcat(a + b + c + d, e);
    LowerConcat(a + b + c, d);
    LowerConcat(a + b, c);
    LowerConcat(a, b);
  }

  /** Two collapsed texts joined without a double space stay collapsed. */
  lemma CollapsedConcat(a: string, b: string)
    requires Collapsed(a) && Collapsed(b)
    requires a == [] || b == [] || a[|a| - 1] != ' ' || b[0] != ' '
    ensures Collapsed(a + b)
  {
    var s := a + b;
    forall j | 0 < j < |s| ensures s[j - 1] != ' ' || s[j] != ' ' {
      if j < |a| {
        assert s[j - 1] == a[j - 1] && s[j] == a[j];
      } else if j == |a| {
        assert s[j - 1] == a[|a| - 1] && s[j] == b[0];
      } else {
        assert s[j - 1] == b[j - 1 - |a|] && s[j] == b[j - |a|];
      }
    }
  }

  lemma KeywordsCollapsed()
    ensures Collapsed("SELECT ") && Collapsed(" ") && Collapsed(" WHERE ") && Collapsed(" FROM ")
  {
  }

  lemma FallbackFromCollapsed()
    ensures Collapsed(FallbackFrom)
  {
  }

  lemma ValuesCollapsed()
    ensures Collapsed("name") && Collapsed("users") && Collapsed("age > 30") && Collapsed("count(*)")
  {
  }

  lemma StatusCollapsed()
    ensures Collapsed("status='failed'")
  {
  }

  lemma MisorderedCollapsed()
    ensures Collapsed(Misordered)
  {
    KeywordsCollapsed();
    ValuesCollapsed();
    CollapsedConcat("SELECT ", "name");
    CollapsedConcat("SELECT " + "name", " WHERE ");
    CollapsedConcat("SELECT " + "name" + " WHERE ", "age > 30");
    CollapsedConcat("SELECT " + "name" + " WHERE " + "age > 30", " FROM ");
    CollapsedConcat("SELECT " + "name" + " WHERE " + "age > 30" + " FROM ", "users");
  }

  lemma MisorderedShape()
    ensures Normalise(Misordered) == Misordered
  {
    MisorderedCollapsed();
    assert IsTrimmed(Misordered);
    NormaliseIdentity(Misordered);
  }

  lemma MisorderedGroups()
    ensures !Contains(Lower("name") + " where", " where ")
    ensures !Contains(Lower("age > 30") + " from", " from ")
    ensures IsWord("users") && NoNewline("name", 0, 4) && NoNewline("age > 30", 0, 8)
  {
    assert Lower("name") + " where" == "name where";
    assert " where "[0] == ' ' && " where "[6] == ' ';
    GapMissing("name where", " where ", 0, 6);
    assert Lower("age > 30") + " from" == "age > 30 from";
    assert " from "[1] == 'f' && " from "[5] == ' ';
    GapMissing("age > 30 from", " from ", 1, 5);
  }

  lemma MisorderedStage1()
    ensures Substitute(WhereFirst, Misordered) == Moved
  {
    MisorderedGroups();
    WhereFirstMovesTable("name", "age > 30", "users");
  }

  lemma MovedLower()
    ensures Lower(Moved) == "select " + "name" + " from " + "users" + " where " + "age > 30"
  {
    LowerSix("SELECT ", "name", " FROM ", "users", " WHERE ", "age > 30");
    assert Lower("SELECT ") == "select " && Lower("name") == "name" && Lower(" FROM ") == " from ";
    assert Lower("users") == "users" && Lower(" WHERE ") == " where " && Lower("age > 30") == "age > 30";
  }

  lemma MovedNoOrder()
    ensures !Contains(Lower(Moved), " order by ")
  {
    MovedLower();
    MissingChar("select " + "name" + " from " + "users" + " where " + "age > 30", " order by ", 8);
  }

  lemma MovedStage2()
    ensures Substitute(OrderFirst, Moved) == Moved
  {
    MovedNoOrder();
    ReorderIdle(OrderFirst, Moved);
  }

  lemma MovedGroups()
    ensures !Contains(Lower("name" + " FROM " + "users") + " where", " where ")
    ensures !Contains(Lower("age > 30"), "select ")
    ensures NoNewline("name" + " FROM " + "users", 0, 15)
  {
    assert Lower("name" + " FROM " + "users") + " where" == "name from users where";
    assert " where "[1] == 'w' && " where "[6] == ' ';
    GapMissing("name from users where", " where ", 1, 6);
    assert Lower("age > 30") == "age > 30";
    MissingChar("age > 30", "select ", 0);
  }

  lemma MovedStage3()
    ensures Substitute(InsertFrom, Moved) == Doubled
  {
    Regroup("SELECT ", "name", " FROM ", "users", " WHERE ", "age > 30");
    MovedGroups();
    InsertFromAddsTable("name" + " FROM " + "users", "age > 30");
  }

  lemma DoubledCollapsed()
    ensures Collapsed(Doubled)
  {
    var c := "name" + " FROM " + "users";
    KeywordsCollapsed();
    ValuesCollapsed();
    FallbackFromCollapsed();
    CollapsedConcat("name", " FROM ");
    CollapsedConcat("name" + " FROM ", "users");
    CollapsedConcat("SELECT ", c);
    CollapsedConcat("SELECT " + c, " ");
    CollapsedConcat("SELECT " + c + " ", FallbackFrom);
    CollapsedConcat("SELECT " + c + " " + FallbackFrom, " WHERE ");
    CollapsedConcat("SELECT " + c + " " + FallbackFrom + " WHERE ", "age > 30");
  }

  lemma DoubledTrimmed()
    ensures IsTrimmed(Doubled)
  {
  }

  lemma DoubledLower()
    ensures Lower(Doubled) == "select " + "name from users" + " " + "from transactions" + " where " + "age > 30"
  {
    LowerSix("SELECT ", "name" + " FROM " + "users", " ", FallbackFrom, " WHERE ", "age > 30");
    assert Lower("SELECT ") == "select " && Lower("name" + " FROM " + "users") == "name from users";
    assert Lower(" ") == " " && Lower(FallbackFrom) == "from transactions";
    assert Lower(" WHERE ") == " where " && Lower("age > 30") == "age > 30";
  }

  lemma DoubledSingleFrom()
    ensures !Contains(Lower(Doubled), "from from")
  {
    DoubledLower();
    NoGapConcat("select ", "name from users", 'f', 'f', 5);
    NoGapConcat("select " + "name from users", " ", 'f', 'f', 5);
    NoGapConcat("select " + "name from users" + " ", "from transactions", 'f', 'f', 5);
    NoGapConcat("select " + "name from users" + " " + "from transactions", " where ", 'f', 'f', 5);
    NoGapConcat("select " + "name from users" + " " + "from transactions" + " where ", "age > 30", 'f', 'f', 5);
    assert "from from"[0] == 'f' && "from from"[5] == 'f';
    GapMissing("select " + "name from users" + " " + "from transactions" + " where " + "age > 30", "from from", 0, 5);
  }

  lemma DoubledStage4()
    ensures Substitute(DropDuplicateFrom, Doubled) == Doubled
  {
    DoubledCollapsed();
    DoubledSingleFrom();
    DropDuplicateIdle(Doubled);
  }

  lemma DoubledNamesTable()
    ensures HasWord(Lower(Doubled), "from")
  {
    DoubledLower();
    assert WordAt("select " + "name from users" + " " + "from transactions" + " where " + "age > 30", 12, "from");
  }

  lemma DoubledKept()
    ensures RequireFrom(Doubled) == Ok(Doubled)
  {
    DoubledNamesTable();
    DoubledTrimmed();
    StripTrimmed(Doubled);
  }

  /** `SELECT name WHERE age > 30 FROM users` comes out of repair naming two
      tables, as `SELECT name FROM users FROM transactions WHERE age > 30`:
      the first rewrite moves `FROM users` forward, and the third, which
      fires on any `SELECT ... WHERE`, inserts `FROM transactions` after it. */
  lemma MisorderedRepaired()
    ensures RepairSql(Misordered) == Ok(Doubled)
  {
    MisorderedShape();
    MisorderedStage1();
    MovedStage2();
    MovedStage3();
    DoubledStage4();
    DoubledKept();
  }

  lemma DoubledClean()
    ensures Clean(Doubled) == Lower(Doubled)
  {
    DoubledTrimmed();
    StripTrimmed(Doubled);
  }

  lemma DoubledLowerNoLimit()
    ensures !Contains(Lower(Doubled), " limit ")
  {
    DoubledLower();
    NoGapConcat("select ", "name from users", ' ', 'l', 1);
    NoGapConcat("select " + "name from users", " ", ' ', 'l', 1);
    NoGapConcat("select " + "name from users" + " ", "from transactions", ' ', 'l', 1);
    NoGapConcat("select " + "name from users" + " " + "from transactions", " where ", ' ', 'l', 1);
    NoGapConcat("select " + "name from users" + " " + "from transactions" + " where ", "age > 30", ' ', 'l', 1);
    assert " limit "[0] == ' ' && " limit "[1] == 'l';
    GapMissing("select " + "name from users" + " " + "from transactions" + " where " + "age > 30", " limit ", 0, 1);
  }

  lemma DoubledNoLimit()
    ensures !MentionsLimit(Doubled)
  {
    DoubledClean();
    DoubledLowerNoLimit();
  }

  /** ... and the safety enforcer then appends the row cap. */
  lemma DoubledCapped()
    ensures Admissible(Doubled) && CapRows(Doubled) == Doubled + " LIMIT 100;"
  {
    DoubledAdmissible();
    DoubledNoLimit();
    RStripCharUnique(Doubled, ';', Doubled);
    LimitClauseText();
  }

  // ---------------------------------------------------------------------
  // No table at all: the fallback table is supplied
  // ---------------------------------------------------------------------

  const Tableless: string := "SELECT " + "count(*)" + " WHERE " + "status='failed'"
  const Supplied: string := "SELECT " + "count(*)" + " " + FallbackFrom + " WHERE " + "status='failed'"

  lemma TablelessCollapsed()
    ensures Collapsed(Tableless)
  {
    KeywordsCollapsed();
    ValuesCollapsed();
    StatusCollapsed();
    CollapsedConcat("SELECT ", "count(*)");
    CollapsedConcat("SELECT " + "count(*)", " WHERE ");
    CollapsedConcat("SELECT " + "count(*)" + " WHERE ", "status='failed'");
  }

  lemma TablelessShape()
    ensures Normalise(Tableless) == Tableless
  {
    TablelessCollapsed();
    assert IsTrimmed(Tableless);
    NormaliseIdentity(Tableless);
  }

  lemma TablelessLower()
    ensures Lower(Tableless) == "select " + "count(*)" + " where " + "status='failed'"
  {
    LowerConcat("SELECT " + "count(*)" + " WHERE ", "status='failed'");
    LowerConcat("SELECT " + "count(*)", " WHERE ");
    LowerConcat("SELECT ", "count(*)");
    assert Lower("SELECT ") == "select " && Lower("count(*)") == "count(*)";
    assert Lower(" WHERE ") == " where " && Lower("status='failed'") == "status='failed'";
  }

  /** No `m` anywhere, so no `from`. */
  lemma TablelessNoFrom()
    ensures !Contains(Lower(Tableless), "from")
  {
    TablelessLower();
    MissingChar("select " + "count(*)" + " where " + "status='failed'", "from", 3);
  }

  lemma TablelessReorderIdle()
    ensures Substitute(OrderFirst, Substitute(WhereFirst, Tableless)) == Tableless
  {
    TablelessNoFrom();
    ReorderIdle(WhereFirst, Tableless);
    ReorderIdle(OrderFirst, Tableless);
  }

  lemma TablelessGroups()
    ensures !Contains(Lower("count(*)") + " where", " where ")
    ensures !Contains(Lower("status='failed'"), "select ")
    ensures NoNewline("count(*)", 0, 8)
  {
    assert Lower("count(*)") + " where" == "count(*) where";
    assert " where "[0] == ' ' && " where "[6] == ' ';
    GapMissing("count(*) where", " where ", 0, 6);
    assert Lower("status='failed'") == "status='failed'";
    MissingChar("status='failed'", "select ", 4);
  }

  lemma TablelessStage3()
    ensures Substitute(InsertFrom, Tableless) == Supplied
  {
    TablelessGroups();
    InsertFromAddsTable("count(*)", "status='failed'");
  }

  lemma SuppliedCollapsed()
    ensures Collapsed(Supplied)
  {
    KeywordsCollapsed();
    ValuesCollapsed();
    StatusCollapsed();
    FallbackFromCollapsed();
    CollapsedConcat("SELECT ", "count(*)");
    CollapsedConcat("SELECT " + "count(*)", " ");
    CollapsedConcat("SELECT " + "count(*)" + " ", FallbackFrom);
    CollapsedConcat("SELECT " + "count(*)" + " " + FallbackFrom, " WHERE ");
    CollapsedConcat("SELECT " + "count(*)" + " " + FallbackFrom + " WHERE ", "status='failed'");
  }

  lemma SuppliedTrimmed()
    ensures IsTrimmed(Supplied)
  {
  }

  lemma SuppliedLower()
    ensures Lower(Supplied) == "select " + "count(*)" + " " + "from transactions" + " where " + "status='failed'"
  {
    LowerSix("SELECT ", "count(*)", " ", FallbackFrom, " WHERE ", "status='failed'");
    assert Lower("SELECT ") == "select " && Lower("count(*)") == "count(*)";
    assert Lower(" ") == " " && Lower(FallbackFrom) == "from transactions";
    assert Lower(" WHERE ") == " where " && Lower("status='failed'") == "status='failed'";
  }

  lemma SuppliedSingleFrom()
    ensures !Contains(Lower(Supplied), "from from")
  {
    SuppliedLower();
    NoGapConcat("select ", "count(*)", 'f', 'f', 5);
    NoGapConcat("select " + "count(*)", " ", 'f', 'f', 5);
    NoGapConcat("select " + "count(*)" + " ", "from transactions", 'f', 'f', 5);
    NoGapConcat("select " + "count(*)" + " " + "from transactions", " where ", 'f', 'f', 5);
    NoGapConcat("select " + "count(*)" + " " + "from transactions" + " where ", "status='failed'", 'f', 'f', 5);
    assert "from from"[0] == 'f' && "from from"[5] == 'f';
    GapMissing("select " + "count(*)" + " " + "from transactions" + " where " + "status='failed'", "from from", 0, 5);
  }

  lemma SuppliedStage4()
    ensures Substitute(DropDuplicateFrom, Supplied) == Supplied
  {
    SuppliedCollapsed();
    SuppliedSingleFrom();
    DropDuplicateIdle(Supplied);
  }

  lemma SuppliedNamesTable()
    ensures HasWord(Lower(Supplied), "from")
  {
    SuppliedLower();
    assert WordAt("select " + "count(*)" + " " + "from transactions" + " where " + "status='failed'", 16, "from");
  }

  lemma SuppliedKept()
    ensures RequireFrom(Supplied) == Ok(Supplied)
  {
    SuppliedNamesTable();
    SuppliedTrimmed();
    StripTrimmed(Supplied);
  }

  /** `SELECT count(*) WHERE status='failed'` is repaired to
      `SELECT count(*) FROM transactions WHERE status='failed'`. */
  lemma TablelessRepaired()
    ensures RepairSql(Tableless) == Ok(Supplied)
  {
    TablelessShape();
    TablelessReorderIdle();
    TablelessStage3();
    SuppliedStage4();
    SuppliedKept();
  }

  lemma SuppliedClean()
    ensures Clean(Supplied) == Lower(Supplied)
  {
    SuppliedTrimmed();
    StripTrimmed(Supplied);
  }

  lemma SuppliedLowerNoLimit()
    ensures !Contains(Lower(Supplied), " limit ")
  {
    SuppliedLower();
    NoGapConcat("select ", "count(*)", ' ', 'l', 1);
    NoGapConcat("select " + "count(*)", " ", ' ', 'l', 1);
    NoGapConcat("select " + "count(*)" + " ", "from transactions", ' ', 'l', 1);
    NoGapConcat("select " + "count(*)" + " " + "from transactions", " where ", ' ', 'l', 1);
    NoGapConcat("select " + "count(*)" + " " + "from transactions" + " where ", "status='failed'", ' ', 'l', 1);
    assert " limit "[0] == ' ' && " limit "[1] == 'l';
    GapMissing("select " + "count(*)" + " " + "from transactions" + " where " + "status='failed'", " limit ", 0, 1);
  }

  lemma SuppliedNoLimit()
    ensures !MentionsLimit(Supplied)
  {
    SuppliedClean();
    SuppliedLowerNoLimit();
  }

  /** ... and the safety enforcer then appends the row cap. */
  lemma SuppliedCapped()
    ensures Admissible(Supplied) && CapRows(Supplied) == Supplied + " LIMIT 100;"
  {
    SuppliedAdmissible();
    SuppliedNoLimit();
    RStripCharUnique(Supplied, ';', Supplied);
    LimitClauseText();
  }

  // ---------------------------------------------------------------------
  // A dangling FROM: the fallback table is supplied and the two FROMs merge
  // ---------------------------------------------------------------------

  const Dangling: string := "SELECT " + "count(*)" + " " + "FROM" + " WHERE " + "status='failed'"

  lemma DanglingCollapsed()
    ensures Collapsed(Dangling)
  {
    KeywordsCollapsed();
    ValuesCollapsed();
    StatusCollapsed();
    assert Collapsed("FROM");
    CollapsedConcat("SELECT ", "count(*)");
    CollapsedConcat("SELECT " + "count(*)", " ");
    CollapsedConcat("SELECT " + "count(*)" + " ", "FROM");
    CollapsedConcat("SELECT " + "count(*)" + " " + "FROM", " WHERE ");
    CollapsedConcat("SELECT " + "count(*)" + " " + "FROM" + " WHERE ", "status='failed'");
  }

  lemma DanglingShape()
    ensures Normalise(Dangling) == Dangling
  {
    DanglingCollapsed();
    assert IsTrimmed(Dangling);
    NormaliseIdentity(Dangling);
  }

  lemma DanglingLower()
    ensures Lower(Dangling) == "select " + "count(*)" + " " + "from" + " where " + "status='failed'"
  {
    LowerSix("SELECT ", "count(*)", " ", "FROM", " WHERE ", "status='failed'");
    assert Lower("SELECT ") == "select " && Lower("count(*)") == "count(*)";
    assert Lower(" ") == " " && Lower("FROM") == "from";
    assert Lower(" WHERE ") == " where " && Lower("status='failed'") == "status='failed'";
  }

  lemma DanglingTailLower()
    ensures Lower(Dangling[16..]) == "from" + " where " + "status='failed'"
  {
    assert Dangling[16..] == "FROM" + " WHERE " + "status='failed'";
    LowerConcat("FROM" + " WHERE ", "status='failed'");
    LowerConcat("FROM", " WHERE ");
    assert Lower("FROM") == "from" && Lower(" WHERE ") == " where " && Lower("status='failed'") == "status='failed'";
  }

  /** Its only ` where ` comes after its only `from`, so there is no
      ` from ` left for the first rewrite to move. */
  lemma DanglingNoLateFrom()
    ensures !Contains(Lower(Dangling[16..]), " from ")
  {
    DanglingTailLower();
    NoGapConcat("from", " where ", ' ', 'f', 1);
    NoGapConcat("from" + " where ", "status='failed'", ' ', 'f', 1);
    assert " from "[0] == ' ' && " from "[1] == 'f';
    GapMissing("from" + " where " + "status='failed'", " from ", 0, 1);
  }

  lemma DanglingWhereIdle()
    ensures Substitute(WhereFirst, Dangling) == Dangling
  {
    DanglingNoLateFrom();
    ReorderIdleLate(WhereFirst, Dangling);
  }

  lemma DanglingOrderIdle()
    ensures Substitute(OrderFirst, Dangling) == Dangling
  {
    DanglingLower();
    MissingChar("select " + "count(*)" + " " + "from" + " where " + "status='failed'", " order by ", 7);
    ReorderIdle(OrderFirst, Dangling);
  }

  /** What the third rewrite receives and returns, in pieces. */
  const DanglingTable: string := "count(*)" + " " + "FROM"
  const DanglingSupplied: string := "SELECT " + DanglingTable + " " + FallbackFrom + " WHERE " + "status='failed'"

  lemma DanglingGroups()
    ensures !Contains(Lower(DanglingTable) + " where", " where ")
  {
    LowerConcat("count(*)" + " ", "FROM");
    LowerConcat("count(*)", " ");
    assert Lower("count(*)") == "count(*)" && Lower(" ") == " " && Lower("FROM") == "from";
    NoGapConcat("count(*)", " ", ' ', ' ', 6);
    NoGapConcat("count(*)" + " ", "from", ' ', ' ', 6);
    NoGapConcat("count(*)" + " " + "from", " where", ' ', ' ', 6);
    assert " where "[0] == ' ' && " where "[6] == ' ';
    GapMissing("count(*)" + " " + "from" + " where", " where ", 0, 6);
  }

  /** The third rewrite supplies `FROM transactions` after the dangling `FROM`. */
  lemma DanglingStage3()
    ensures Substitute(InsertFrom, Dangling) == DanglingSupplied
  {
    DanglingGroups();
    TablelessGroups();
    assert Dangling == "SELECT " + DanglingTable + " WHERE " + "status='failed'";
    InsertFromAddsTable(DanglingTable, "status='failed'");
  }

  /** The text before the pair holds no `from`. */
  lemma PairPrefixClear()
    ensures !Contains(Lower("SELECT " + "count(*)" + " ") + "fro", "from")
  {
    LowerConcat("SELECT " + "count(*)", " ");
    LowerConcat("SELECT ", "count(*)");
    assert Lower("SELECT ") == "select " && Lower("count(*)") == "count(*)" && Lower(" ") == " ";
    MissingChar("select " + "count(*)" + " " + "fro", "from", 3);
  }

  /** The text after the pair holds no `from`. */
  lemma PairSuffixClear()
    ensures !Contains(Lower(" transactions" + " WHERE " + "status='failed'"), "from")
  {
    LowerConcat(" transactions" + " WHERE ", "status='failed'");
    LowerConcat(" transactions", " WHERE ");
    assert Lower(" transactions") == " transactions" && Lower(" WHERE ") == " where ";
    assert Lower("status='failed'") == "status='failed'";
    MissingChar(" transactions" + " where " + "status='failed'", "from", 3);
  }

  /** The third rewrite's output is the pair between those two texts. */
  lemma DanglingSuppliedPair()
    ensures DanglingSupplied
      == ("SELECT " + "count(*)" + " ") + "FROM" + " " + "FROM" + (" transactions" + " WHERE " + "status='failed'")
    ensures Supplied == ("SELECT " + "count(*)" + " ") + "FROM" + (" transactions" + " WHERE " + "status='failed'")
  {
    assert FallbackFrom == "FROM" + " transactions";
  }

  /** The fourth rewrite merges `FROM FROM transactions` into `FROM transactions`. */
  lemma DanglingStage4()
    ensures Substitute(DropDuplicateFrom, DanglingSupplied) == Supplied
  {
    PairPrefixClear();
    PairSuffixClear();
    assert Lower("FROM") == "from";
    DanglingSuppliedPair();
    DropMergesPair("SELECT " + "count(*)" + " ", "FROM", "FROM", " transactions" + " WHERE " + "status='failed'");
  }

  /** `SELECT count(*) FROM WHERE status='failed'` is repaired to
      `SELECT count(*) FROM transactions WHERE status='failed'`. */
  lemma DanglingRepaired()
    ensures RepairSql(Dangling) == Ok(Supplied)
  {
    DanglingShape();
    DanglingWhereIdle();
    DanglingOrderIdle();
    DanglingStage3();
    DanglingStage4();
    SuppliedKept();
  }

  // ---------------------------------------------------------------------
  // The statements above hold no forbidden keyword: each is made of words
  // that are not keywords, joined by characters that are not word characters
  // ---------------------------------------------------------------------

  lemma KeywordWordsFree()
    ensures KeywordFree("select") && KeywordFree("from") && KeywordFree("where")
    ensures KeywordFree("limit") && KeywordFree("transactions")
  {
    KeywordFreeToken("select");
    KeywordFreeToken("from");
    KeywordFreeToken("where");
    KeywordFreeToken("limit");
    KeywordFreeToken("transactions");
  }

  lemma ValueWordsFree()
    ensures KeywordFree("name") && KeywordFree("users") && KeywordFree("age") && KeywordFree("30")
  {
    KeywordFreeToken("name");
    KeywordFreeToken("users");
    KeywordFreeToken("age");
    KeywordFreeToken("30");
  }

  lemma CountWordsFree()
    ensures KeywordFree("count") && KeywordFree("status") && KeywordFree("failed")
  {
    KeywordFreeToken("count");
    KeywordFreeToken("status");
    KeywordFreeToken("failed");
  }

  lemma ShortWordsFree()
    ensures KeywordFree("t") && KeywordFree("10") && KeywordFree("1000")
  {
    KeywordFreeToken("t");
    KeywordFreeToken("10");
    KeywordFreeToken("1000");
  }

  lemma SeparatorsFree()
    ensures KeywordFree(" ") && KeywordFree(" > ") && KeywordFree("(*)") && KeywordFree(" * ")
    ensures KeywordFree("='") && KeywordFree("'") && KeywordFree(";")
  {
    KeywordFreeSeparator(" ");
    KeywordFreeSeparator(" > ");
    KeywordFreeSeparator("(*)");
    KeywordFreeSeparator(" * ");
    KeywordFreeSeparator("='");
    KeywordFreeSeparator("'");
    KeywordFreeSeparator(";");
  }

  lemma SelectSpaceFree()
    ensures KeywordFree("select ") && KeywordFree(" where ") && KeywordFree("select * ")
  {
    KeywordWordsFree();
    SeparatorsFree();
    KeywordFreeJoin("select", " ");
    assert "select" + " " == "select ";
    KeywordFreeJoin(" ", "where");
    KeywordFreeJoin(" " + "where", " ");
    assert " " + "where" + " " == " where ";
    KeywordFreeJoin("select", " * ");
    assert "select" + " * " == "select * ";
  }

  lemma TablesFree()
    ensures KeywordFree("from transactions") && KeywordFree("from users")
  {
    KeywordWordsFree();
    KeywordFreeToken("users");
    KeywordFreeSeparator(" ");
    KeywordFreeJoin("from", " ");
    KeywordFreeJoin("from" + " ", "transactions");
    assert "from" + " " + "transactions" == "from transactions";
    KeywordFreeJoin("from" + " ", "users");
    assert "from" + " " + "users" == "from users";
  }

  lemma NameFromUsersFree()
    ensures KeywordFree("name from users") && KeywordFree("age > 30")
  {
    ValueWordsFree();
    SeparatorsFree();
    TablesFree();
    KeywordFreeJoin("name", " ");
    KeywordFreeJoin("name" + " ", "from users");
    assert "name" + " " + "from users" == "name from users";
    KeywordFreeJoin("age", " > ");
    KeywordFreeJoin("age" + " > ", "30");
    assert "age" + " > " + "30" == "age > 30";
  }

  lemma CountStatusFree()
    ensures KeywordFree("count(*)") && KeywordFree("status='failed'")
  {
    CountWordsFree();
    SeparatorsFree();
    KeywordFreeJoin("count", "(*)");
    assert "count" + "(*)" == "count(*)";
    KeywordFreeJoin("status", "='");
    KeywordFreeJoin("status" + "='", "failed");
    KeywordFreeJoin("status" + "='" + "failed", "'");
    assert "status" + "='" + "failed" + "'" == "status='failed'";
  }

  lemma LimitPiecesFree()
    ensures KeywordFree(" limit 10;") && KeywordFree(" limit ") && KeywordFree("select * from t")
  {
    KeywordWordsFree();
    ShortWordsFree();
    SeparatorsFree();
    KeywordFreeJoin(" ", "limit");
    KeywordFreeJoin(" " + "limit", " ");
    assert " " + "limit" + " " == " limit ";
    KeywordFreeJoin(" limit ", "10");
    KeywordFreeJoin(" limit " + "10", ";");
    assert " limit " + "10" + ";" == " limit 10;";
    KeywordFreeJoin("select", " * ");
    KeywordFreeJoin("select" + " * ", "from");
    KeywordFreeJoin("select" + " * " + "from", " ");
    KeywordFreeJoin("select" + " * " + "from" + " ", "t");
    assert "select" + " * " + "from" + " " + "t" == "select * from t";
  }

  lemma WellFormedAdmissible()
    ensures Admissible(WellFormed)
  {
    WellFormedShape();
    CleanTrimmed(WellFormed);
    WellFormedLower();
    SelectSpaceFree();
    TablesFree();
    LimitPiecesFree();
    KeywordFreeJoin("select * ", "from users");
    KeywordFreeJoin("select * " + "from users", " limit 10;");
    KeywordFreeClean(WellFormed);
    assert Clean(WellFormed)[..6] == "select";
  }

  lemma LargeLimitAdmissible()
    ensures Admissible(LargeLimit)
  {
    LargeLimitClean();
    ShortWordsFree();
    LimitPiecesFree();
    KeywordFreeJoin("select * from t", " limit ");
    KeywordFreeJoin("select * from t" + " limit ", "1000");
    KeywordFreeClean(LargeLimit);
    assert Clean(LargeLimit)[..6] == "select";
  }

  lemma UncappedCleanFree()
    ensures KeywordFree(Clean(Uncapped))
  {
    UncappedClean();
    KeywordFreeSeparator(";");
    LimitPiecesFree();
    KeywordFreeJoin("select * from t", ";");
    assert "select * from t" + ";" == "select * from t;";
  }

  lemma UncappedAdmissible()
    ensures Admissible(Uncapped)
  {
    UncappedCleanFree();
    UncappedClean();
    assert Clean(Uncapped)[..6] == "select";
    KeywordFreeClean(Uncapped);
  }

  lemma DoubledTextFree()
    ensures KeywordFree("select " + "name from users" + " " + "from transactions" + " where " + "age > 30")
  {
    SelectSpaceFree();
    KeywordFreeSeparator(" ");
    TablesFree();
    NameFromUsersFree();
    KeywordFreeJoin("select ", "name from users");
    KeywordFreeJoin("select " + "name from users", " ");
    KeywordFreeJoin("select " + "name from users" + " ", "from transactions");
    KeywordFreeJoin("select " + "name from users" + " " + "from transactions", " where ");
    KeywordFreeJoin("select " + "name from users" + " " + "from transactions" + " where ", "age > 30");
  }

  lemma DoubledCleanFree()
    ensures KeywordFree(Clean(Doubled))
  {
    DoubledClean();
    DoubledLower();
    DoubledTextFree();
  }

  lemma DoubledStartsWithSelect()
    ensures StartsWithSelect(Doubled)
  {
    DoubledClean();
    DoubledLower();
    assert Clean(Doubled)[..6] == "select";
  }

  lemma DoubledAdmissible()
    ensures Admissible(Doubled)
  {
    DoubledCleanFree();
    DoubledStartsWithSelect();
    KeywordFreeClean(Doubled);
  }

  lemma SuppliedTextFree()
    ensures KeywordFree("select " + "count(*)" + " " + "from transactions" + " where " + "status='failed'")
  {
    SelectSpaceFree();
    KeywordFreeSeparator(" ");
    TablesFree();
    CountStatusFree();
    KeywordFreeJoin("select ", "count(*)");
    KeywordFreeJoin("select " + "count(*)", " ");
    KeywordFreeJoin("select " + "count(*)" + " ", "from transactions");
    KeywordFreeJoin("select " + "count(*)" + " " + "from transactions", " where ");
    KeywordFreeJoin("select " + "count(*)" + " " + "from transactions" + " where ", "status='failed'");
  }

  lemma SuppliedCleanFree()
    ensures KeywordFree(Clean(Supplied))
  {
    SuppliedClean();
    SuppliedLower();
    SuppliedTextFree();
  }

  lemma SuppliedStartsWithSelect()
    ensures StartsWithSelect(Supplied)
  {
    SuppliedClean();
    SuppliedLower();
    assert Clean(Supplied)[..6] == "select";
  }

  lemma SuppliedAdmissible()
    ensures Admissible(Supplied)
  {
    SuppliedCleanFree();
    SuppliedStartsWithSelect();
    KeywordFreeClean(Supplied);
  }
}
