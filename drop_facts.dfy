/** What the fourth rewrite of `repair_sql` produces: `FROM FROM` become
    one `FROM`, which is what it is there for after the third rewrite has
    supplied `FROM transactions` to a statement that already said `FROM`. */
module DropFacts {
  import opened Wrappers
  import opened Text
  import opened Repair
  import opened RepairFacts
  import opened ReorderFacts

  /** The merged pair: `f1 f2` with one space between, in any case. */
  function Paired(a: string, f1: string, f2: string, b: string): string {
    a + f1 + " " + f2 + b
  }

  /** `FROM\s+FROM` matches the pair itself, up to the second `FROM`'s end. */
  lemma PairMatch(a: string, f1: string, f2: string, b: string)
    requires Lower(f1) == "from" && Lower(f2) == "from"
    ensures FromFromAt(Paired(a, f1, f2, b), |a|) == Some(Match(|a| + 9, []))
  {
    var s := Paired(a, f1, f2, b);
    assert s == a + f1 + (" " + f2 + b);
    KwAtLiteral(a, f1, " " + f2 + b, "from");
    KwAtLiteral(a + f1 + " ", f2, b, "from");
    assert s[|a| + 4] == ' ';
    assert s[|a| + 5] == f2[0] && LowerChar(f2[0]) == 'f';
    RunEndAt(s, |a| + 4, |a| + 5, IsSpace);
  }

  /** No match starts inside `a` when `a` and the first three letters of
      the pair hold no `from`. */
  lemma NoPairBefore(a: string, f1: string, f2: string, b: string, k: nat)
    requires Lower(f1) == "from" && Lower(f2) == "from"
    requires !Contains(Lower(a) + "fro", "from") && k < |a|
    ensures FromFromAt(Paired(a, f1, f2, b), k).None?
  {
    var s := Paired(a, f1, f2, b);
    KwAtInside(s, 0, |a| + 3, k, "from");
    assert s[0..|a| + 3] == a + f1[..3];
    LowerConcat(a, f1[..3]);
    LowerSlice(f1, 0, 3);
    assert Lower(f1[..3]) == "fro";
  }

  /** No match starts after the pair when `b` holds no `from`. */
  lemma NoPairAfter(a: string, f1: string, f2: string, b: string, k: nat)
    requires Lower(f1) == "from" && Lower(f2) == "from"
    requires !Contains(Lower(b), "from")
    requires |a| + 9 <= k <= |Paired(a, f1, f2, b)|
    ensures FromFromAt(Paired(a, f1, f2, b), k).None?
  {
    var s := Paired(a, f1, f2, b);
    if k + 4 <= |s| {
      KwAtInside(s, |a| + 9, |s|, k, "from");
      assert s[|a| + 9..|s|] == b;
    }
  }

  /** The match attempts over the paired text: only the pair matches. */
  lemma PairedAttempts(a: string, f1: string, f2: string, b: string)
    requires Lower(f1) == "from" && Lower(f2) == "from"
    requires !Contains(Lower(a) + "fro", "from") && !Contains(Lower(b), "from")
    ensures var s := Paired(a, f1, f2, b); var ms := Attempts(FromFrom, s);
      (forall k :: 0 <= k < |a| ==> ms[k].None?)
      && ms[|a|] == Some(Match(|a| + 9, []))
      && forall k :: |a| + 9 <= k < |ms| ==> ms[k].None?
  {
    var s := Paired(a, f1, f2, b);
    var ms := Attempts(FromFrom, s);
    forall k | 0 <= k < |a| ensures ms[k].None? {
      NoPairBefore(a, f1, f2, b, k);
    }
    PairMatch(a, f1, f2, b);
    forall k | |a| + 9 <= k < |ms| ensures ms[k].None? {
      NoPairAfter(a, f1, f2, b, k);
    }
  }

  /** The scan over the paired text: `a`, the replacement, then `b`. */
  lemma PairedScan(s: string, ms: seq<Option<Match>>, n: nat)
    requires ValidRule(DropDuplicateFrom) && Advancing(ms, s, 0) && n + 9 <= |s|
    requires forall k :: 0 <= k < n ==> ms[k].None?
    requires ms[n] == Some(Match(n + 9, []))
    requires forall k :: n + 9 <= k < |ms| ==> ms[k].None?
    ensures SubFrom(DropDuplicateFrom, s, ms, 0) == s[..n] + "FROM" + s[n + 9..]
  {
    SubFromSkip(DropDuplicateFrom, s, ms, 0, n);
    SubFromAt(DropDuplicateFrom, s, ms, n, n);
    ExpandDropDuplicate(s, []);
    SubFromNoMatch(DropDuplicateFrom, s, ms, n + 9);
    assert s[0..n] == s[..n] && s[n..n] == [];
  }

  /** The fourth rewrite turns `a FROM FROM b` into `a FROM b` when the
      pair is the only place a `from` occurs. */
  lemma DropMergesPair(a: string, f1: string, f2: string, b: string)
    requires Lower(f1) == "from" && Lower(f2) == "from"
    requires !Contains(Lower(a) + "fro", "from") && !Contains(Lower(b), "from")
    ensures Substitute(DropDuplicateFrom, a + f1 + " " + f2 + b) == a + "FROM" + b
  {
    var s := Paired(a, f1, f2, b);
    RulesValid();
    PairedAttempts(a, f1, f2, b);
    PairedScan(s, Attempts(FromFrom, s), |a|);
    assert s[..|a|] == a && s[|a| + 9..] == b;
  }

  /** `FROM FROM` on its own becomes `FROM`. */
  lemma PairAlone()
    ensures Substitute(DropDuplicateFrom, "FROM FROM") == "FROM"
  {
    assert Lower("FROM") == "from";
    MissingChar(Lower([]) + "fro", "from", 3);
    assert "FROM FROM" == [] + "FROM" + " " + "FROM" + [];
    DropMergesPair([], "FROM", "FROM", []);
  }
}
