/** What the third rewrite of `repair_sql` produces: `SELECT c WHERE w`
    becomes `SELECT c FROM transactions WHERE w`, whether or not `c`
    already names a table. */
module FallbackFacts {
  import opened Wrappers
  import opened Text
  import opened Repair
  import opened RepairFacts
  import opened ReorderFacts

  /** `SELECT c WHERE w` fits the pattern with the first group `c`. */
  lemma FallbackInputFits(c: string, w: string)
    requires c != [] && w != [] && NoNewline(c, 0, |c|) && w[0] != '\n'
    ensures FallbackFits("SELECT " + c + " WHERE " + w, 0, 7 + |c|)
  {
    var s := "SELECT " + c + " WHERE " + w;
    var e := 7 + |c|;
    assert Lower("SELECT ") == "select " && Lower(" WHERE ") == " where ";
    assert s == [] + "SELECT " + (c + " WHERE " + w);
    KwAtLiteral([], "SELECT ", c + " WHERE " + w, "select ");
    KwAtLiteral("SELECT " + c, " WHERE ", w, " where ");
    assert s[e + 7] == w[0];
    assert NoNewline(s, 7, e) by {
      forall j | 7 <= j < e ensures s[j] != '\n' {
        assert s[j] == c[j - 7];
      }
    }
  }

  /** With no ` where ` in `c` (nor one running into the ` WHERE ` after
      it), that fit is the one `re` tries first. */
  lemma FallbackInputFirst(c: string, w: string)
    requires c != [] && w != [] && NoNewline(c, 0, |c|) && w[0] != '\n'
    requires !Contains(Lower(c) + " where", " where ")
    ensures FallbackFirst("SELECT " + c + " WHERE " + w, 0, 7 + |c|)
  {
    var s := "SELECT " + c + " WHERE " + w;
    var e := 7 + |c|;
    FallbackInputFits(c, w);
    assert Lower(" WHERE ") == " where " && Lower(" WHERE ")[..6] == " where";
    forall e' | FallbackFits(s, 0, e') ensures e <= e' {
      if e' < e {
        NoEarlierClause(" WHERE ", c, w, e');
      }
    }
  }

  /** The match at the start ends one character into `w`. */
  lemma FallbackStartMatch(c: string, w: string)
    requires c != [] && w != [] && NoNewline(c, 0, |c|) && w[0] != '\n'
    requires !Contains(Lower(c) + " where", " where ")
    ensures var e := 7 + |c|;
      FallbackAt("SELECT " + c + " WHERE " + w, 0) == Some(Match(e + 8, [Span(7, e), Span(e + 7, e + 8)]))
  {
    var s := "SELECT " + c + " WHERE " + w;
    FallbackInputFirst(c, w);
    assert FallbackAt(s, 0).Some?;
    var e0 :| FallbackFirst(s, 0, e0) && FallbackAt(s, 0).value == FallbackMatch(s, 0, e0);
  }

  /** What the tail of a text contains, the text contains. */
  lemma TailContains(w: string, needle: string)
    requires w != []
    ensures Contains(Lower(w[1..]), needle) ==> Contains(Lower(w), needle)
  {
    if Contains(Lower(w[1..]), needle) {
      assert w == w[..1] + w[1..];
      LowerConcat(w[..1], w[1..]);
      ContainsAfterPrefix(Lower(w[..1]), Lower(w[1..]), needle);
    }
  }

  /** Without `select ` in `w`, no match can start after the first one. */
  lemma SelectNotAfter(c: string, w: string, k: int)
    requires w != [] && !Contains(Lower(w), "select ")
    requires 7 + |c| + 8 <= k
    ensures !KwAt("SELECT " + c + " WHERE " + w, k, "select ")
  {
    var s := "SELECT " + c + " WHERE " + w;
    var p := 7 + |c| + 8;
    if k + 7 <= |s| {
      KwAtInside(s, p, |s|, k, "select ");
      assert s[p..|s|] == w[1..];
      TailContains(w, "select ");
    }
  }

  /** A match at the start, with no `select ` after it, is the only one. */
  lemma FallbackWhole(s: string, e: nat)
    requires 7 <= e && e + 8 <= |s| && FallbackAt(s, 0) == Some(Match(e + 8, [Span(7, e), Span(e + 7, e + 8)]))
    requires forall k :: e + 8 <= k <= |s| ==> !KwAt(s, k, "select ")
    ensures Substitute(InsertFrom, s)
      == "SELECT " + s[7..e] + (" " + FallbackFrom + " WHERE ") + s[e + 7..e + 8] + s[e + 8..]
  {
    var ms := Attempts(SelectWhere, s);
    var m := Match(e + 8, [Span(7, e), Span(e + 7, e + 8)]);
    assert ms[0] == Some(m);
    forall k | e + 8 <= k < |ms| ensures ms[k].None? {
      assert !KwAt(s, k, "select ");
    }
    SubFromStart(InsertFrom, s, ms, m);
    SubFromNoMatch(InsertFrom, s, ms, e + 8);
    ExpandInsertFrom(s, m.groups);
  }

  /** No match starts after the one at the start. */
  lemma NoSelectAfter(c: string, w: string)
    requires w != [] && !Contains(Lower(w), "select ")
    ensures var s := "SELECT " + c + " WHERE " + w;
      forall k :: 7 + |c| + 8 <= k <= |s| ==> !KwAt(s, k, "select ")
  {
    var s := "SELECT " + c + " WHERE " + w;
    forall k | 7 + |c| + 8 <= k <= |s| ensures !KwAt(s, k, "select ") {
      SelectNotAfter(c, w, k);
    }
  }

  /** The pieces of the rewrite put back together. */
  lemma InsertReassembled(c: string, w: string)
    requires w != []
    ensures var s := "SELECT " + c + " WHERE " + w;
      var e := 7 + |c|;
      "SELECT " + s[7..e] + (" " + FallbackFrom + " WHERE ") + s[e + 7..e + 8] + s[e + 8..]
      == "SELECT " + c + " " + FallbackFrom + " WHERE " + w
  {
    var s := "SELECT " + c + " WHERE " + w;
    var e := 7 + |c|;
    assert s[7..e] == c;
    assert s[e + 7..] == w;
    SuffixSplit(s, e + 7, e + 8);
    AppendAssoc("SELECT " + c, " " + FallbackFrom + " WHERE ", s[e + 7..e + 8], s[e + 8..]);
    AppendAssoc("SELECT " + c, " ", FallbackFrom, " WHERE ");
    AppendAssoc("SELECT " + c, " ", FallbackFrom + " WHERE ", w);
  }

  /** The third rewrite inserts the fallback table in front of the first
      ` WHERE `: `SELECT c WHERE w` becomes `SELECT c FROM transactions
      WHERE w`, provided `c` is one line holding no ` where `, `w` does not
      start a new line, and `w` holds no second `select `. */
  lemma InsertFromAddsTable(c: string, w: string)
    requires c != [] && w != [] && NoNewline(c, 0, |c|) && w[0] != '\n'
    requires !Contains(Lower(c) + " where", " where ")
    requires !Contains(Lower(w), "select ")
    ensures Substitute(InsertFrom, "SELECT " + c + " WHERE " + w)
      == "SELECT " + c + " " + FallbackFrom + " WHERE " + w
  {
    FallbackStartMatch(c, w);
    NoSelectAfter(c, w);
    FallbackWhole("SELECT " + c + " WHERE " + w, 7 + |c|);
    InsertReassembled(c, w);
  }
}
