/** `repair_sql`: whitespace normalisation, four case-insensitive regex
    rewrites applied in a fixed order, and the closing whole-word `from`
    check. Each rewrite pattern has its own matcher reproducing the
    backtracking order of Python's `re` module (leftmost start, lazy groups
    as short as possible, the final greedy group as long as possible), and
    one scan engine models `re.sub` for all of them. */
module Repair {
  import opened Wrappers
  import opened Text

  const MissingFromMessage: string := "Invalid SQL generated (missing FROM clause)"

  /** The clause the third rewrite inserts, naming the fallback table. */
  const FallbackFrom: string := "FROM transactions"

  // ---------------------------------------------------------------------
  // Whitespace normalisation: re.sub(r"\s+", " ", sql)
  // ---------------------------------------------------------------------

  /** Every whitespace character is a plain space and no two spaces are
      adjacent: the shape `re.sub(r"\s+", " ", ...)` leaves behind. */
  predicate Collapsed(s: string) {
    (forall j :: 0 <= j < |s| && IsSpace(s[j]) ==> s[j] == ' ')
    && (forall j :: 0 < j < |s| ==> s[j - 1] != ' ' || s[j] != ' ')
  }

  /** The characters of `s` that are not whitespace, in order. */
  function NonSpaces(s: string): string {
    if s == [] then [] else (if IsSpace(s[0]) then [] else [s[0]]) + NonSpaces(s[1..])
  }

  /** `re.sub(r"\s+", " ", s[i..])`: each maximal whitespace run becomes
      one space. */
  function CollapseFrom(s: string, i: nat): (r: string)
    requires i <= |s|
    ensures Collapsed(r)
    ensures i < |s| ==> r != [] && r[0] == (if IsSpace(s[i]) then ' ' else s[i])
    decreases |s| - i
  {
    if i == |s| then []
    else if IsSpace(s[i]) then [' '] + CollapseFrom(s, RunEnd(s, i + 1, IsSpace))
    else [s[i]] + CollapseFrom(s, i + 1)
  }

  function CollapseSpaces(s: string): (r: string)
    ensures Collapsed(r)
  {
    CollapseFrom(s, 0)
  }

  // ---------------------------------------------------------------------
  // Matches and replacement templates
  // ---------------------------------------------------------------------

  /** The span `s[lo..hi]` of a capture group. */
  datatype Span = Span(lo: nat, hi: nat)

  /** A successful match: the index just past it and its capture groups. */
  datatype Match = Match(end: nat, groups: seq<Span>)

  /** The patterns of the four rewrites, all compiled with `re.I`.
      `Reorder(c)` is `SELECT (.+?)c(.+?) FROM ([a-zA-Z0-9_]+)` with the
      lower-case clause text `c` (` where ` or ` order by `); `SelectWhere`
      is `SELECT (.+?) WHERE (.+?)`; `FromFrom` is `FROM\s+FROM`. */
  datatype Pattern = Reorder(clause: string) | SelectWhere | FromFrom

  function GroupCount(p: Pattern): nat {
    match p
    case Reorder(_) => 3
    case SelectWhere => 2
    case FromFrom => 0
  }

  /** A piece of a replacement template: literal text, or `\n`. */
  datatype Piece = Lit(text: string) | Group(n: nat)

  /** A `re.sub(pattern, template, ...)` call. */
  datatype Rule = Rule(pattern: Pattern, template: seq<Piece>)

  /** Every group the template refers to is one of the first `n`. */
  predicate TemplateFits(t: seq<Piece>, n: nat) {
    forall i :: 0 <= i < |t| && t[i].Group? ==> 1 <= t[i].n <= n
  }

  /** Every group the template refers to exists in the pattern. */
  predicate ValidRule(r: Rule) {
    TemplateFits(r.template, GroupCount(r.pattern))
  }

  /** Every group span lies inside `s`. */
  predicate SpansIn(groups: seq<Span>, s: string) {
    forall i :: 0 <= i < |groups| ==> groups[i].lo <= groups[i].hi <= |s|
  }

  /** No line break in `s[lo..hi]`: regex `.` matches any character but `\n`. */
  predicate NoNewline(s: string, lo: int, hi: int) {
    0 <= lo <= hi <= |s| && forall k :: lo <= k < hi ==> s[k] != '\n'
  }

  // ---------------------------------------------------------------------
  // SELECT (.+?)<clause>(.+?) FROM ([a-zA-Z0-9_]+)
  // ---------------------------------------------------------------------

  /** The pattern matches at `i` with the first group ending at `e` and the
      second at `f`. */
  predicate ReorderFits(s: string, clause: string, i: int, e: int, f: int) {
    KwAt(s, i, "select ") && i + 7 < e && KwAt(s, e, clause)
    && e + |clause| < f && KwAt(s, f, " from ") && f + 6 < |s| && IsWordChar(s[f + 6])
    && NoNewline(s, i + 7, e) && NoNewline(s, e + |clause|, f)
  }

  /** Among all ways the pattern fits at `i`, the one `re` tries first:
      the shortest first group, then the shortest second group. */
  ghost predicate ReorderFirst(s: string, clause: string, i: int, e: int, f: int) {
    ReorderFits(s, clause, i, e, f)
    && forall e', f' :: ReorderFits(s, clause, i, e', f') ==> e < e' || (e == e' && f <= f')
  }

  /** The match for a fit: the table name is the longest run of word
      characters after ` FROM `. */
  function ReorderMatch(s: string, clause: string, i: int, e: int, f: int): (m: Match)
    requires ReorderFits(s, clause, i, e, f)
    ensures i < m.end <= |s| && |m.groups| == 3 && SpansIn(m.groups, s)
  {
    var t := RunEnd(s, f + 6, IsWordChar);
    Match(t, [Span(i + 7, e), Span(e + |clause|, f), Span(f + 6, t)])
  }

  /** The lazy second group: the first end `f' >= f` that fits. */
  function FindCondEnd(s: string, clause: string, i: nat, e: nat, f: nat): (g: Option<nat>)
    requires KwAt(s, i, "select ") && i + 7 < e && KwAt(s, e, clause) && NoNewline(s, i + 7, e)
    requires e + |clause| < f <= |s| + 1 && NoNewline(s, e + |clause|, f - 1)
    ensures g.Some? ==> f <= g.value && ReorderFits(s, clause, i, e, g.value)
    ensures g.Some? ==> forall f' :: f <= f' < g.value ==> !ReorderFits(s, clause, i, e, f')
    ensures g.None? ==> forall f' :: f <= f' ==> !ReorderFits(s, clause, i, e, f')
    decreases |s| + 1 - f
  {
    if f > |s| || s[f - 1] == '\n' then None
    else if KwAt(s, f, " from ") && f + 6 < |s| && IsWordChar(s[f + 6]) then Some(f)
    else FindCondEnd(s, clause, i, e, f + 1)
  }

  /** The lazy first group: the first end `e' >= e` for which the rest of
      the pattern fits, with the second group found for it. */
  function FindReorder(s: string, clause: string, i: nat, e: nat): (r: Option<(nat, nat)>)
    requires KwAt(s, i, "select ") && i + 7 < e <= |s| + 1 && NoNewline(s, i + 7, e - 1)
    ensures r.Some? ==> e <= r.value.0 && ReorderFits(s, clause, i, r.value.0, r.value.1)
    ensures r.Some? ==> forall e', f' :: e <= e' && ReorderFits(s, clause, i, e', f') ==>
      r.value.0 < e' || (r.value.0 == e' && r.value.1 <= f')
    ensures r.None? ==> forall e', f' :: e <= e' ==> !ReorderFits(s, clause, i, e', f')
    decreases |s| + 1 - e
  {
    if e > |s| || s[e - 1] == '\n' then None
    else
      var g := if KwAt(s, e, clause) then FindCondEnd(s, clause, i, e, e + |clause| + 1) else None;
      if g.Some? then Some((e, g.value)) else FindReorder(s, clause, i, e + 1)
  }

  /** The match of the pattern at `i`, if any. */
  function ReorderAt(s: string, clause: string, i: nat): (r: Option<Match>)
    requires i <= |s|
    ensures r.Some? ==> exists e, f :: ReorderFirst(s, clause, i, e, f) && r.value == ReorderMatch(s, clause, i, e, f)
    ensures r.None? ==> forall e, f :: !ReorderFits(s, clause, i, e, f)
  {
    if !KwAt(s, i, "select ") then None
    else match FindReorder(s, clause, i, i + 8)
      case Some((e, f)) => Some(ReorderMatch(s, clause, i, e, f))
      case None => None
  }

  // ---------------------------------------------------------------------
  // SELECT (.+?) WHERE (.+?)
  // ---------------------------------------------------------------------

  /** The pattern matches at `i` with the first group ending at `e`; the
      second group, lazy and last, is the one character after ` WHERE `. */
  predicate FallbackFits(s: string, i: int, e: int) {
    KwAt(s, i, "select ") && i + 7 < e && KwAt(s, e, " where ")
    && e + 7 < |s| && s[e + 7] != '\n' && NoNewline(s, i + 7, e)
  }

  /** The fit `re` tries first: the shortest first group. */
  ghost predicate FallbackFirst(s: string, i: int, e: int) {
    FallbackFits(s, i, e) && forall e' :: FallbackFits(s, i, e') ==> e <= e'
  }

  function FallbackMatch(s: string, i: int, e: int): (m: Match)
    requires FallbackFits(s, i, e)
    ensures i < m.end <= |s| && |m.groups| == 2 && SpansIn(m.groups, s)
  {
    Match(e + 8, [Span(i + 7, e), Span(e + 7, e + 8)])
  }

  /** The lazy first group: the first end `e' >= e` that fits. */
  function FindWhere(s: string, i: nat, e: nat): (r: Option<nat>)
    requires KwAt(s, i, "select ") && i + 7 < e <= |s| + 1 && NoNewline(s, i + 7, e - 1)
    ensures r.Some? ==> e <= r.value && FallbackFits(s, i, r.value)
    ensures r.Some? ==> forall e' :: e <= e' < r.value ==> !FallbackFits(s, i, e')
    ensures r.None? ==> forall e' :: e <= e' ==> !FallbackFits(s, i, e')
    decreases |s| + 1 - e
  {
    if e > |s| || s[e - 1] == '\n' then None
    else if KwAt(s, e, " where ") && e + 7 < |s| && s[e + 7] != '\n' then Some(e)
    else FindWhere(s, i, e + 1)
  }

  function FallbackAt(s: string, i: nat): (r: Option<Match>)
    requires i <= |s|
    ensures r.Some? ==> exists e :: FallbackFirst(s, i, e) && r.value == FallbackMatch(s, i, e)
    ensures r.None? ==> forall e :: !FallbackFits(s, i, e)
  {
    if !KwAt(s, i, "select ") then None
    else match FindWhere(s, i, i + 8)
      case Some(e) => Some(FallbackMatch(s, i, e))
      case None => None
  }

  // ---------------------------------------------------------------------
  // FROM\s+FROM
  // ---------------------------------------------------------------------

  /** The pattern matches at `i` with the second `FROM` at `r`. */
  predicate FromFromFits(s: string, i: int, r: int) {
    KwAt(s, i, "from") && i + 4 < r && KwAt(s, r, "from")
    && forall k :: i + 4 <= k < r ==> IsSpace(s[k])
  }

  /** The greedy `\s+` takes the whole whitespace run; giving characters
      back cannot help, since the second `FROM` must start with a letter. */
  function FromFromAt(s: string, i: nat): (m: Option<Match>)
    requires i <= |s|
    ensures m.Some? ==> exists r :: FromFromFits(s, i, r) && m.value == Match(r + 4, [])
    ensures m.None? ==> forall r :: !FromFromFits(s, i, r)
  {
    if KwAt(s, i, "from") && i + 4 < |s| && IsSpace(s[i + 4]) then
      var r := RunEnd(s, i + 4, IsSpace);
      if KwAt(s, r, "from") then
        assert FromFromFits(s, i, r);
        Some(Match(r + 4, []))
      else
        assert forall r' :: FromFromFits(s, i, r') ==> r' == r by {
          forall r' | FromFromFits(s, i, r') ensures r' == r {
            KwAtFirst(s, r', "from");
          }
        }
        None
    else None
  }

  // ---------------------------------------------------------------------
  // The re.sub scan
  // ---------------------------------------------------------------------

  function MatchAt(p: Pattern, s: string, i: nat): (m: Option<Match>)
    requires i <= |s|
    ensures m.Some? ==> i < m.value.end <= |s| && |m.value.groups| == GroupCount(p) && SpansIn(m.value.groups, s)
  {
    match p
    case Reorder(clause) => ReorderAt(s, clause, i)
    case SelectWhere => FallbackAt(s, i)
    case FromFrom => FromFromAt(s, i)
  }

  /** The match attempts `re` makes at every start position of `s`,
      `|s|` included. */
  function Attempts(p: Pattern, s: string): (ms: seq<Option<Match>>)
    ensures |ms| == |s| + 1
    ensures forall k :: 0 <= k <= |s| ==> ms[k] == MatchAt(p, s, k)
    ensures Advancing(ms, s, GroupCount(p))
  {
    seq(|s| + 1, k requires 0 <= k <= |s| => MatchAt(p, s, k))
  }

  /** One attempt per start position; every match ends after its start,
      inside `s`, with `n` groups inside `s`. */
  predicate Advancing(ms: seq<Option<Match>>, s: string, n: nat) {
    |ms| == |s| + 1
    && forall k :: 0 <= k < |ms| && ms[k].Some? ==>
      k < ms[k].value.end <= |s| && |ms[k].value.groups| == n && SpansIn(ms[k].value.groups, s)
  }

  /** `re.search` from position `i`: the leftmost start with a match. */
  function Search(ms: seq<Option<Match>>, i: nat): (r: Option<nat>)
    requires i < |ms|
    ensures r.Some? ==> i <= r.value < |ms| && ms[r.value].Some?
    ensures r.Some? ==> forall k :: i <= k < r.value ==> ms[k].None?
    ensures r.None? ==> forall k :: i <= k < |ms| ==> ms[k].None?
    decreases |ms| - i
  {
    if ms[i].Some? then Some(i)
    else if i + 1 == |ms| then None
    else Search(ms, i + 1)
  }

  /** The text one template piece stands for (`\n` is group n). */
  function PieceText(p: Piece, s: string, groups: seq<Span>): string
    requires SpansIn(groups, s) && (p.Group? ==> 1 <= p.n <= |groups|)
  {
    match p
    case Lit(x) => x
    case Group(n) => s[groups[n - 1].lo..groups[n - 1].hi]
  }

  /** The replacement text of the first `n` pieces of a template. */
  function ExpandPrefix(t: seq<Piece>, s: string, groups: seq<Span>, n: nat): string
    requires n <= |t| && SpansIn(groups, s) && TemplateFits(t, |groups|)
  {
    if n == 0 then []
    else if n == 1 then PieceText(t[0], s, groups)
    else ExpandPrefix(t, s, groups, n - 1) + PieceText(t[n - 1], s, groups)
  }

  /** The replacement text of a template for one match. */
  function Expand(t: seq<Piece>, s: string, groups: seq<Span>): string
    requires SpansIn(groups, s) && TemplateFits(t, |groups|)
  {
    ExpandPrefix(t, s, groups, |t|)
  }

  /** `re.sub` on `s[p..]`: copy up to the leftmost match, emit its
      replacement, carry on after it. Every pattern here matches at least
      one character, so the scan always advances. */
  function SubFrom(rule: Rule, s: string, ms: seq<Option<Match>>, p: nat): string
    requires ValidRule(rule) && Advancing(ms, s, GroupCount(rule.pattern)) && p <= |s|
    decreases |s| - p
  {
    match Search(ms, p)
    case None => s[p..]
    case Some(k) =>
      var m := ms[k].value;
      s[p..k] + Expand(rule.template, s, m.groups) + SubFrom(rule, s, ms, m.end)
  }

  function Substitute(rule: Rule, s: string): string
    requires ValidRule(rule)
  {
    SubFrom(rule, s, Attempts(rule.pattern, s), 0)
  }

  // ---------------------------------------------------------------------
  // The four rewrites and repair_sql
  // ---------------------------------------------------------------------

  /** `SELECT ... WHERE ... FROM t` becomes `SELECT ... FROM t WHERE ...`. */
  const WhereFirst: Rule := Rule(Reorder(" where "),
    [Lit("SELECT "), Group(1), Lit(" FROM "), Group(3), Lit(" WHERE "), Group(2)])

  /** `SELECT ... ORDER BY ... FROM t` becomes `SELECT ... FROM t ORDER BY ...`. */
  const OrderFirst: Rule := Rule(Reorder(" order by "),
    [Lit("SELECT "), Group(1), Lit(" FROM "), Group(3), Lit(" ORDER BY "), Group(2)])

  /** `SELECT c WHERE x` becomes `SELECT c FROM transactions WHERE x`. */
  const InsertFrom: Rule := Rule(SelectWhere,
    [Lit("SELECT "), Group(1), Lit(" " + FallbackFrom + " WHERE "), Group(2)])

  /** `FROM FROM` becomes `FROM`. */
  const DropDuplicateFrom: Rule := Rule(FromFrom, [Lit("FROM")])

  /** The statement after `strip()` and whitespace collapsing. */
  function Normalise(raw: string): string {
    CollapseSpaces(Strip(raw))
  }

  /** The four rewrites are well formed: each template names only groups
      its pattern has. */
  lemma RulesValid()
    ensures ValidRule(WhereFirst) && ValidRule(OrderFirst)
    ensures ValidRule(InsertFrom) && ValidRule(DropDuplicateFrom)
  {
    assert GroupCount(WhereFirst.pattern) == 3 && GroupCount(OrderFirst.pattern) == 3;
  }

  /** The four rewrites, in the order the source applies them. */
  function Rewrite(sql: string): string {
    RulesValid();
    Substitute(DropDuplicateFrom, Substitute(InsertFrom, Substitute(OrderFirst, Substitute(WhereFirst, sql))))
  }

  /** The end of `repair_sql`: fail when no whole-word `from` is left,
      otherwise return the statement stripped. */
  function RequireFrom(sql: string): (r: Result<string>)
    ensures r.Ok? <==> HasWord(Lower(sql), "from")
    ensures r.Err? ==> r.error == MissingFromMessage
    ensures r.Ok? ==> r.value == Strip(sql) && HasWord(Lower(r.value), "from") && IsTrimmed(r.value)
  {
    if !HasWord(Lower(sql), "from") then Err(MissingFromMessage)
    else
      assert IsWord("from");
      StripKeepsWord(sql, "from");
      StripIsTrimmed(sql);
      Ok(Strip(sql))
  }

  /** `repair_sql`. */
  function RepairSql(raw: string): (r: Result<string>)
    ensures r.Err? ==> r.error == MissingFromMessage
    ensures r.Ok? ==> HasWord(Lower(r.value), "from") && IsTrimmed(r.value)
  {
    RequireFrom(Rewrite(Normalise(raw)))
  }
}

