/** Character classes and string helpers shared by the repair and safety
    layers: the ASCII reading of Python's `str.isspace`, regex `\w`,
    `str.lower`/`str.upper`, `str.strip`/`str.rstrip(";")`, `str.split`,
    `sep.join`, the `in` test on substrings, and whole-word search (`re.search(r"\bword\b", text)`). */
module Text {

  /** Python's `str.isspace` (and regex `\s`), restricted to ASCII:
      tab, line feed, vertical tab, form feed, carriage return, the four
      separator controls 0x1C-0x1F, and space. */
  predicate IsSpace(c: char) {
    c == ' ' || c == '\t' || c == '\n' || c == '\r' || c == '\U{0B}' || c == '\U{0C}'
    || ('\U{1C}' <= c <= '\U{1F}')
  }

  /** Regex `\w` and the class `[a-zA-Z0-9_]`, restricted to ASCII. */
  predicate IsWordChar(c: char) {
    'a' <= c <= 'z' || 'A' <= c <= 'Z' || '0' <= c <= '9' || c == '_'
  }

  predicate IsDigit(c: char) {
    '0' <= c <= '9'
  }

  function LowerChar(c: char): (r: char)
    ensures IsWordChar(r) == IsWordChar(c) && IsSpace(r) == IsSpace(c)
    ensures !('A' <= r <= 'Z')
  {
    if 'A' <= c <= 'Z' then (c as int + 32) as char else c
  }

  function UpperChar(c: char): (r: char)
    ensures IsWordChar(r) == IsWordChar(c)
    ensures !('a' <= r <= 'z')
  {
    if 'a' <= c <= 'z' then (c as int - 32) as char else c
  }

  /** `s.lower()` on ASCII letters; every other character is kept. */
  function Lower(s: string): (r: string)
    ensures |r| == |s|
    ensures forall i :: 0 <= i < |s| ==> r[i] == LowerChar(s[i])
  {
    seq(|s|, i requires 0 <= i < |s| => LowerChar(s[i]))
  }

  /** `s.upper()` on ASCII letters; every other character is kept. */
  function Upper(s: string): (r: string)
    ensures |r| == |s|
    ensures forall i :: 0 <= i < |s| ==> r[i] == UpperChar(s[i])
  {
    seq(|s|, i requires 0 <= i < |s| => UpperChar(s[i]))
  }

  /** The end of the longest run of characters satisfying `keep` that starts
      at `i` (a greedy `[...]*` loop). */
  function RunEnd(s: string, i: nat, keep: char -> bool): (k: nat)
    requires i <= |s|
    ensures i <= k <= |s|
    ensures forall j :: i <= j < k ==> keep(s[j])
    ensures k == |s| || !keep(s[k])
    decreases |s| - i
  {
    if i == |s| || !keep(s[i]) then i else RunEnd(s, i + 1, keep)
  }

  /** The end of `s[..n]` once its trailing characters satisfying `drop`
      are removed. */
  function TrimEnd(s: string, n: nat, drop: char -> bool): (k: nat)
    requires n <= |s|
    ensures k <= n
    ensures forall j :: k <= j < n ==> drop(s[j])
    ensures k == 0 || !drop(s[k - 1])
  {
    if n == 0 || !drop(s[n - 1]) then n else TrimEnd(s, n - 1, drop)
  }

  /** `s.lstrip()`: the longest suffix of `s` that does not start with
      whitespace, every removed character being whitespace. */
  function LStrip(s: string): (r: string)
    ensures |r| <= |s| && r == s[|s| - |r|..]
    ensures forall i :: 0 <= i < |s| - |r| ==> IsSpace(s[i])
    ensures r == [] || !IsSpace(r[0])
  {
    s[RunEnd(s, 0, IsSpace)..]
  }

  /** `s.rstrip()`: the longest prefix of `s` that does not end with
      whitespace, every removed character being whitespace. */
  function RStrip(s: string): (r: string)
    ensures |r| <= |s| && r == s[..|r|]
    ensures forall i :: |r| <= i < |s| ==> IsSpace(s[i])
    ensures r == [] || !IsSpace(r[|r| - 1])
  {
    s[..TrimEnd(s, |s|, IsSpace)]
  }

  /** `s.strip()`. */
  function Strip(s: string): string {
    RStrip(LStrip(s))
  }

  /** `sep.join(parts)`. */
  function JoinWith(sep: string, parts: seq<string>): string
    decreases |parts|
  {
    if |parts| == 0 then ""
    else if |parts| == 1 then parts[0]
    else parts[0] + sep + JoinWith(sep, parts[1..])
  }

  predicate IsNonSpace(c: char) {
    !IsSpace(c)
  }

  /** `s.split()` with no argument: the maximal runs of non-whitespace
      characters, in order. */
  function Words(s: string): seq<string> {
    WordsFrom(s, 0)
  }

  /** `s[i..].split()` when `s[i]` does not continue a word. */
  function WordsFrom(s: string, i: nat): seq<string>
    requires i <= |s|
    decreases |s| - i
  {
    if i == |s| then []
    else if IsSpace(s[i]) then WordsFrom(s, i + 1)
    else var e := RunEnd(s, i, IsNonSpace); [s[i..e]] + WordsFrom(s, e)
  }

  /** `s.rstrip(c)` for a one-character argument: the longest prefix of `s`
      that does not end with `c`, every removed character being `c`. */
  function RStripChar(s: string, c: char): (r: string)
    ensures |r| <= |s| && r == s[..|r|]
    ensures forall i :: |r| <= i < |s| ==> s[i] == c
    ensures r == [] || r[|r| - 1] != c
  {
    s[..TrimEnd(s, |s|, x => x == c)]
  }

  /** The text has no leading and no trailing whitespace. */
  predicate IsTrimmed(s: string) {
    s == [] || (!IsSpace(s[0]) && !IsSpace(s[|s| - 1]))
  }

  /** `needle in text`: a plain substring test, no word boundaries. */
  predicate Contains(text: string, needle: string) {
    exists i :: 0 <= i <= |text| - |needle| && OccursAt(text, i, needle)
  }

  /** `needle` is the slice of `text` starting at `i`. */
  predicate OccursAt(text: string, i: int, needle: string) {
    0 <= i && i + |needle| <= |text| && text[i..i + |needle|] == needle
  }

  /** The lower-case keyword `kw` occurs at `i` in `s`, ignoring ASCII case
      (a literal of a pattern compiled with `re.I`). */
  predicate KwAt(s: string, i: int, kw: string) {
    0 <= i && i + |kw| <= |s| && forall j :: 0 <= j < |kw| ==> LowerChar(s[i + j]) == kw[j]
  }

  /** `w` occurs at `p` in `t` between two regex word boundaries: the
      character before and the character after (when there is one) are not
      word characters. */
  predicate WordAt(t: string, p: int, w: string) {
    0 <= p && p + |w| <= |t| && t[p..p + |w|] == w
    && (p == 0 || !IsWordChar(t[p - 1]))
    && (p + |w| == |t| || !IsWordChar(t[p + |w|]))
  }

  /** `re.search(rf"\b{w}\b", t)` succeeds. */
  predicate HasWord(t: string, w: string) {
    exists p :: 0 <= p <= |t| - |w| && WordAt(t, p, w)
  }

  /** A non-empty run of word characters: the shape of every keyword the
      pipeline searches for as a whole word. */
  predicate IsWord(w: string) {
    |w| > 0 && forall i :: 0 <= i < |w| ==> IsWordChar(w[i])
  }

  /** `str(n)` for a natural number: its decimal digits, most significant first. */
  function Decimal(n: nat): (r: string)
    ensures |r| > 0 && forall i :: 0 <= i < |r| ==> IsDigit(r[i])
    ensures r[0] == '0' ==> n == 0
  {
    if n < 10 then [('0' as int + n) as char] else Decimal(n / 10) + [('0' as int + n % 10) as char]
  }

  /** The value of a string of decimal digits. */
  function DecimalValue(s: string): nat
    requires forall i :: 0 <= i < |s| ==> IsDigit(s[i])
  {
    if s == [] then 0
    else assert IsDigit(s[|s| - 1]); 10 * DecimalValue(s[..|s| - 1]) + (s[|s| - 1] as int - '0' as int)
  }

  lemma {:induction false} DecimalRoundTrip(n: nat)
    ensures DecimalValue(Decimal(n)) == n
  {
    if n >= 10 {
      var d := Decimal(n);
      assert d[..|d| - 1] == Decimal(n / 10);
      DecimalRoundTrip(n / 10);
    }
  }

  // ---------------------------------------------------------------------
  // Whole-word occurrences and the characters around them
  // ---------------------------------------------------------------------

  /** The characters of a whole-word occurrence of a word are word characters. */
  lemma WordAtChars(t: string, p: int, w: string)
    requires IsWord(w) && WordAt(t, p, w)
    ensures forall i :: p <= i < p + |w| ==> IsWordChar(t[i])
  {
    forall i | p <= i < p + |w| ensures IsWordChar(t[i]) {
      assert t[i] == t[p..p + |w|][i - p];
    }
  }

  /** Cutting the text at a point followed by a non-word character keeps
      exactly the whole-word occurrences that end before the cut. */
  lemma WordAtPrefix(m: string, a: string, p: int, w: string)
    requires |a| <= |m| && a == m[..|a|]
    requires |a| == |m| || !IsWordChar(m[|a|])
    ensures WordAt(a, p, w) <==> WordAt(m, p, w) && p + |w| <= |a|
  {
    if 0 <= p && p + |w| <= |a| {
      assert a[p..p + |w|] == m[p..p + |w|];
    }
  }

  /** Dropping a leading part that ends with a non-word character keeps
      exactly the whole-word occurrences that start after it. */
  lemma WordAtSuffix(m: string, b: string, p: int, w: string)
    requires |b| <= |m| && b == m[|m| - |b|..]
    requires |b| == |m| || !IsWordChar(m[|m| - |b| - 1])
    ensures 0 <= p ==> (WordAt(b, p, w) <==> WordAt(m, p + |m| - |b|, w))
  {
    var k := |m| - |b|;
    if 0 <= p && p + |w| <= |b| {
      assert b[p..p + |w|] == m[p + k..p + k + |w|];
      assert p > 0 ==> b[p - 1] == m[p + k - 1];
      assert p + |w| < |b| ==> b[p + |w|] == m[p + k + |w|];
    }
  }

  /** Removing a trailing part made of non-word characters keeps every
      whole-word occurrence of a word. */
  lemma PrefixKeepsWord(m: string, a: string, w: string)
    requires IsWord(w)
    requires |a| <= |m| && a == m[..|a|]
    requires forall i :: |a| <= i < |m| ==> !IsWordChar(m[i])
    ensures HasWord(a, w) <==> HasWord(m, w)
  {
    if HasWord(m, w) {
      var p :| 0 <= p <= |m| - |w| && WordAt(m, p, w);
      WordAtChars(m, p, w);
      assert IsWordChar(m[p + |w| - 1]);
      WordAtPrefix(m, a, p, w);
    }
    if HasWord(a, w) {
      var p :| 0 <= p <= |a| - |w| && WordAt(a, p, w);
      WordAtPrefix(m, a, p, w);
    }
  }

  /** Removing a leading part made of non-word characters keeps every
      whole-word occurrence of a word. */
  lemma SuffixKeepsWord(m: string, b: string, w: string)
    requires IsWord(w)
    requires |b| <= |m| && b == m[|m| - |b|..]
    requires forall i :: 0 <= i < |m| - |b| ==> !IsWordChar(m[i])
    ensures HasWord(b, w) <==> HasWord(m, w)
  {
    var k := |m| - |b|;
    if HasWord(m, w) {
      var p :| 0 <= p <= |m| - |w| && WordAt(m, p, w);
      WordAtChars(m, p, w);
      assert IsWordChar(m[p]);
      WordAtSuffix(m, b, p - k, w);
    }
    if HasWord(b, w) {
      var p :| 0 <= p <= |b| - |w| && WordAt(b, p, w);
      WordAtSuffix(m, b, p, w);
    }
  }

  /** The three properties in the contract of `LStrip` determine its result. */
  lemma LStripUnique(s: string, r: string)
    requires |r| <= |s| && r == s[|s| - |r|..]
    requires forall i :: 0 <= i < |s| - |r| ==> IsSpace(s[i])
    requires r == [] || !IsSpace(r[0])
    ensures LStrip(s) == r
  {
    var q := LStrip(s);
    assert |r| > 0 ==> s[|s| - |r|] == r[0];
    assert |q| > 0 ==> s[|s| - |q|] == q[0];
  }

  /** The three properties in the contract of `RunEnd` determine its result. */
  lemma RunEndAt(s: string, i: nat, k: nat, keep: char -> bool)
    requires i <= k <= |s| && forall j :: i <= j < k ==> keep(s[j])
    requires k == |s| || !keep(s[k])
    ensures RunEnd(s, i, keep) == k
  {
  }

  /** A run stops at the latest at the first character it cannot take. */
  lemma {:induction false} RunEndBefore(s: string, i: nat, m: nat, keep: char -> bool)
    requires i <= m <= |s| && (m == |s| || !keep(s[m]))
    ensures RunEnd(s, i, keep) <= m
    decreases m - i
  {
    if i < m && keep(s[i]) {
      RunEndBefore(s, i + 1, m, keep);
    }
  }

  /** A whitespace run does not change the words. */
  lemma {:induction false} WordsSkipSpaces(s: string, i: nat, k: nat)
    requires i <= k <= |s| && forall j :: i <= j < k ==> IsSpace(s[j])
    ensures WordsFrom(s, i) == WordsFrom(s, k)
    decreases k - i
  {
    if i < k {
      WordsSkipSpaces(s, i + 1, k);
    }
  }

  /** The words of a suffix are the words from where it starts. */
  lemma {:induction false} WordsOfSuffix(s: string, a: nat, k: nat)
    requires a <= k <= |s|
    ensures WordsFrom(s[a..], k - a) == WordsFrom(s, k)
    decreases |s| - k
  {
    if k < |s| {
      if IsSpace(s[k]) {
        WordsOfSuffix(s, a, k + 1);
        SuffixSpace(s, a, k);
      } else {
        var e := RunEnd(s, k, IsNonSpace);
        WordsOfSuffix(s, a, e);
        SuffixWord(s, a, k, e);
      }
    }
  }

  /** The inductive step of `WordsOfSuffix` past one whitespace character. */
  lemma SuffixSpace(s: string, a: nat, k: nat)
    requires a <= k < |s| && IsSpace(s[k])
    requires WordsFrom(s[a..], k + 1 - a) == WordsFrom(s, k + 1)
    ensures WordsFrom(s[a..], k - a) == WordsFrom(s, k)
  {
    assert s[a..][k - a] == s[k];
  }

  /** The inductive step of `WordsOfSuffix` past one word. */
  lemma SuffixWord(s: string, a: nat, k: nat, e: nat)
    requires a <= k < |s| && !IsSpace(s[k]) && e == RunEnd(s, k, IsNonSpace)
    requires WordsFrom(s[a..], e - a) == WordsFrom(s, e)
    ensures WordsFrom(s[a..], k - a) == WordsFrom(s, k)
  {
    var t := s[a..];
    assert t[k - a] == s[k];
    RunEndShift(s, a, k, IsNonSpace);
    assert WordsFrom(t, k - a) == [t[k - a..e - a]] + WordsFrom(t, e - a);
    assert WordsFrom(s, k) == [s[k..e]] + WordsFrom(s, e);
    assert t[k - a..e - a] == s[k..e];
  }

  /** A run is the same in a suffix, counted from the suffix's start. */
  lemma RunEndShift(s: string, a: nat, k: nat, keep: char -> bool)
    requires a <= k <= |s|
    ensures RunEnd(s[a..], k - a, keep) == RunEnd(s, k, keep) - a
  {
    RunEndAt(s[a..], k - a, RunEnd(s, k, keep) - a, keep);
  }

  /** Trailing whitespace does not change the words. */
  lemma {:induction false} WordsOfPrefix(s: string, n: nat, j: nat)
    requires j <= n <= |s| && forall k :: n <= k < |s| ==> IsSpace(s[k])
    ensures WordsFrom(s[..n], j) == WordsFrom(s, j)
    decreases n - j
  {
    var t := s[..n];
    if j == n {
      WordsSkipSpaces(s, n, |s|);
    } else {
      assert t[j] == s[j];
      if IsSpace(s[j]) {
        WordsOfPrefix(s, n, j + 1);
      } else {
        var e := RunEnd(s, j, IsNonSpace);
        RunEndBefore(s, j, n, IsNonSpace);
        RunEndAt(t, j, e, IsNonSpace);
        WordsOfPrefix(s, n, e);
        assert t[j..e] == s[j..e];
      }
    }
  }

  /** `s.strip().split() == s.split()`. */
  lemma WordsStrip(s: string)
    ensures Words(Strip(s)) == Words(s)
  {
    var l := LStrip(s);
    var a := |s| - |l|;
    WordsSkipSpaces(s, 0, a);
    WordsOfSuffix(s, a, a);
    WordsOfPrefix(l, |RStrip(l)|, 0);
  }

  /** Joining one more part puts one separator before the rest. */
  lemma JoinCons(sep: string, x: string, rest: seq<string>)
    requires rest != []
    ensures JoinWith(sep, [x] + rest) == x + sep + JoinWith(sep, rest)
  {
    assert ([x] + rest)[1..] == rest;
  }

  /** `lstrip()` removes exactly a leading run of whitespace. */
  lemma LStripAfterSpaces(lead: string, y: string)
    requires forall i :: 0 <= i < |lead| ==> IsSpace(lead[i])
    requires y == [] || !IsSpace(y[0])
    ensures LStrip(lead + y) == y
  {
    var x := lead + y;
    assert x[|x| - |y|..] == y;
    assert forall i :: 0 <= i < |x| - |y| ==> x[i] == lead[i];
    LStripUnique(x, y);
  }

  /** A text is its part before a suffix followed by that suffix. */
  lemma SplitBeforeSuffix(s: string, r: string)
    requires |r| <= |s| && r == s[|s| - |r|..]
    ensures s == s[..|s| - |r|] + r
  {
  }

  /** Lower-casing and cutting commute. */
  lemma LowerSlice(s: string, i: int, j: int)
    requires 0 <= i <= j <= |s|
    ensures Lower(s[i..j]) == Lower(s)[i..j]
  {
  }

  /** When every character of `s` from `k` on is whitespace or a semicolon,
      none of the lower-cased text from `k` on is a word character. */
  lemma LowerTailNonWord(s: string, k: int)
    requires 0 <= k <= |s|
    requires forall i :: k <= i < |s| ==> IsSpace(s[i]) || s[i] == ';'
    ensures forall i :: k <= i < |s| ==> !IsWordChar(Lower(s)[i])
  {
  }

  /** A keyword occurrence is an occurrence in the lower-cased text. */
  lemma KwAtOccurs(s: string, i: int, kw: string)
    requires KwAt(s, i, kw)
    ensures OccursAt(Lower(s), i, kw) && Contains(Lower(s), kw)
  {
    assert Lower(s)[i..i + |kw|] == kw;
    assert OccursAt(Lower(s), i, kw);
    assert 0 <= i <= |Lower(s)| - |kw|;
  }

  /** A slice of a keyword occurs where that slice of the keyword falls. */
  lemma KwAtPart(s: string, i: int, kw: string, a: int, b: int)
    requires KwAt(s, i, kw) && 0 <= a <= b <= |kw|
    ensures KwAt(s, i + a, kw[a..b])
  {
    forall j | 0 <= j < b - a ensures LowerChar(s[i + a + j]) == kw[a..b][j] {
      assert LowerChar(s[i + (a + j)]) == kw[a + j];
    }
  }

  /** A whole-word occurrence is in particular a substring occurrence. */
  lemma HasWordContains(t: string, w: string)
    ensures HasWord(t, w) ==> Contains(t, w)
  {
    if HasWord(t, w) {
      var p :| 0 <= p <= |t| - |w| && WordAt(t, p, w);
      assert OccursAt(t, p, w);
    }
  }

  /** A character covered by a keyword occurrence. */
  lemma KwAtCovers(s: string, i: int, kw: string, q: int)
    requires KwAt(s, i, kw)
    ensures i <= q < i + |kw| ==> LowerChar(s[q]) == kw[q - i]
  {
    if i <= q < i + |kw| {
      assert LowerChar(s[i + (q - i)]) == kw[q - i];
    }
  }

  /** The first character of a keyword occurrence. */
  lemma KwAtFirst(s: string, i: int, kw: string)
    requires KwAt(s, i, kw) && |kw| > 0
    ensures LowerChar(s[i]) == kw[0]
  {
    assert LowerChar(s[i + 0]) == kw[0];
  }

  /** A text that starts with `needle` contains it after any prefix. */
  lemma ContainsAfter(a: string, b: string, needle: string)
    requires |needle| <= |b| && b[..|needle|] == needle
    ensures Contains(a + b, needle)
  {
    assert (a + b)[|a|..|a| + |needle|] == b[..|needle|];
    assert OccursAt(a + b, |a|, needle);
  }

  /** An occurrence inside the middle part of a concatenation. */
  lemma ContainsWithin(a: string, b: string, c: string, needle: string)
    requires Contains(b, needle)
    ensures Contains(a + b + c, needle)
  {
    var i :| 0 <= i <= |b| - |needle| && OccursAt(b, i, needle);
    assert (a + b + c)[|a| + i..|a| + i + |needle|] == b[i..i + |needle|];
    assert OccursAt(a + b + c, |a| + i, needle);
  }

  /** An occurrence in the second part of a concatenation. */
  lemma ContainsAfterPrefix(a: string, b: string, needle: string)
    requires Contains(b, needle)
    ensures Contains(a + b, needle)
  {
    ContainsWithin(a, b, [], needle);
    assert a + b + [] == a + b;
  }

  /** An occurrence in the first part of a concatenation. */
  lemma ContainsBefore(a: string, b: string, needle: string)
    requires Contains(a, needle)
    ensures Contains(a + b, needle)
  {
    var i :| 0 <= i <= |a| - |needle| && OccursAt(a, i, needle);
    assert (a + b)[i..i + |needle|] == a[i..i + |needle|];
    assert OccursAt(a + b, i, needle);
  }

  /** An occurrence that starts at or after `p` lies in `s[p..]`. */
  lemma OccursInSuffix(s: string, p: int, q: int, needle: string)
    requires 0 <= p <= q && OccursAt(s, q, needle)
    ensures Contains(s[p..], needle)
  {
    assert s[p..][q - p..q - p + |needle|] == s[q..q + |needle|];
    assert OccursAt(s[p..], q - p, needle);
  }

  /** An occurrence that ends by `k` lies in `s[p..k]`. */
  lemma OccursInSlice(s: string, p: int, k: int, q: int, needle: string)
    requires 0 <= p <= q && OccursAt(s, q, needle) && q + |needle| <= k <= |s|
    ensures Contains(s[p..k], needle)
  {
    var t := s[p..k];
    var u, v := t[q - p..q - p + |needle|], s[q..q + |needle|];
    forall j | 0 <= j < |needle| ensures u[j] == v[j] {
      assert u[j] == t[q - p + j] == s[q + j];
    }
    assert u == v;
    assert OccursAt(t, q - p, needle);
  }

  /** A slice of an occurrence occurs at the matching offset. */
  lemma OccursPart(t: string, q: int, needle: string, lo: int, hi: int)
    requires OccursAt(t, q, needle) && 0 <= lo <= hi <= |needle|
    ensures OccursAt(t, q + lo, needle[lo..hi])
  {
    var u, v := t[q + lo..q + hi], needle[lo..hi];
    forall j | 0 <= j < hi - lo ensures u[j] == v[j] {
      assert u[j] == t[q..q + |needle|][lo + j];
    }
    assert u == v;
  }

  lemma ContainsSelf(needle: string)
    ensures Contains(needle, needle)
  {
    assert OccursAt(needle, 0, needle);
  }

  /** Lower-casing distributes over concatenation. */
  lemma LowerConcat(a: string, b: string)
    ensures Lower(a + b) == Lower(a) + Lower(b)
  {
  }

  /** The three properties in the contract of `RStripChar` determine its result. */
  lemma RStripCharUnique(s: string, c: char, r: string)
    requires |r| <= |s| && r == s[..|r|]
    requires forall i :: |r| <= i < |s| ==> s[i] == c
    requires r == [] || r[|r| - 1] != c
    ensures RStripChar(s, c) == r
  {
    var q := RStripChar(s, c);
    assert |r| > 0 ==> s[|r| - 1] == r[|r| - 1];
    assert |q| > 0 ==> s[|q| - 1] == q[|q| - 1];
  }

  /** A whole-word occurrence in `a + b`, where `b` starts with a non-word
      character, lies either in `a` or after that character. */
  lemma WordInConcat(a: string, b: string, p: int, w: string)
    requires IsWord(w) && b != [] && !IsWordChar(b[0])
    ensures WordAt(a + b, p, w) ==> WordAt(a, p, w) || WordAt(b[1..], p - |a| - 1, w)
  {
    var t := a + b;
    if WordAt(t, p, w) {
      WordAtChars(t, p, w);
      assert t[|a|] == b[0];
      if p + |w| <= |a| {
        WordAtPrefix(t, a, p, w);
      } else {
        assert t[|a| + 1..] == b[1..];
        WordAtSuffix(t, b[1..], p - |a| - 1, w);
      }
    }
  }

  /** A word found in `a + b`, where `a` and `c` are two prefixes of one
      text `m` that are followed in `m` by non-word characters only, and
      `b` starts with a non-word character after which the word does not
      occur, is found in `c`. */
  lemma WordFromConcatOfPrefix(m: string, a: string, b: string, c: string, w: string)
    requires IsWord(w)
    requires |a| <= |m| && a == m[..|a|] && forall i :: |a| <= i < |m| ==> !IsWordChar(m[i])
    requires |c| <= |m| && c == m[..|c|] && forall i :: |c| <= i < |m| ==> !IsWordChar(m[i])
    requires b != [] && !IsWordChar(b[0]) && forall q :: !WordAt(b[1..], q, w)
    ensures HasWord(a + b, w) ==> HasWord(c, w)
  {
    PrefixKeepsWord(m, a, w);
    PrefixKeepsWord(m, c, w);
    forall p ensures WordAt(a + b, p, w) ==> WordAt(a, p, w) {
      WordInConcat(a, b, p, w);
    }
  }

  /** Where two texts meet at a non-word character, a whole word of
      their concatenation is a whole word of one of them. */
  lemma WordInParts(a: string, b: string, w: string)
    requires IsWord(w)
    requires (a != [] && !IsWordChar(a[|a| - 1])) || (b != [] && !IsWordChar(b[0]))
    ensures HasWord(a + b, w) ==> HasWord(a, w) || HasWord(b, w)
  {
    if HasWord(a + b, w) {
      var p :| 0 <= p <= |a + b| - |w| && WordAt(a + b, p, w);
      if p + |w| <= |a| {
        WordInLeft(a, b, p, w);
      } else if |a| <= p {
        WordInRight(a, b, p, w);
      } else {
        SeamInWord(a, b, p, w);
        assert false;
      }
    }
  }

  /** A whole-word occurrence that ends within the first text is one of it. */
  lemma WordInLeft(a: string, b: string, p: int, w: string)
    requires WordAt(a + b, p, w) && p + |w| <= |a|
    ensures WordAt(a, p, w)
  {
    var t := a + b;
    assert t[p..p + |w|] == a[p..p + |w|];
    assert p + |w| < |a| ==> t[p + |w|] == a[p + |w|];
  }

  /** A whole-word occurrence that starts within the second text is one of it. */
  lemma WordInRight(a: string, b: string, p: int, w: string)
    requires WordAt(a + b, p, w) && |a| <= p
    ensures WordAt(b, p - |a|, w)
  {
    var t := a + b;
    var q := p - |a|;
    assert t[p..p + |w|] == b[q..q + |w|];
    assert q > 0 ==> t[p - 1] == b[q - 1];
    assert q + |w| < |b| ==> t[p + |w|] == b[q + |w|];
  }

  /** A whole-word occurrence across the meeting point of two texts covers
      a word character on each side. */
  lemma SeamInWord(a: string, b: string, p: int, w: string)
    requires IsWord(w) && WordAt(a + b, p, w) && p < |a| < p + |w|
    ensures IsWordChar(a[|a| - 1]) && IsWordChar(b[0])
  {
    var t := a + b;
    WordAtChars(t, p, w);
    assert t[|a| - 1] == a[|a| - 1] && t[|a|] == b[0];
  }

  /** A run of word characters holds a word as a whole word only when it is
      that word. */
  lemma WordOfToken(t: string, w: string)
    requires IsWord(t)
    ensures HasWord(t, w) ==> t == w
  {
    if HasWord(t, w) {
      var p :| 0 <= p <= |t| - |w| && WordAt(t, p, w);
      assert p == 0 && p + |w| == |t|;
      assert t == t[p..p + |w|];
    }
  }

  /** A text without word characters holds no word. */
  lemma NoWordInSeparator(t: string, w: string)
    requires IsWord(w) && forall i :: 0 <= i < |t| ==> !IsWordChar(t[i])
    ensures !HasWord(t, w)
  {
    if HasWord(t, w) {
      var p :| 0 <= p <= |t| - |w| && WordAt(t, p, w);
      WordAtStart(t, p, w);
    }
  }

  /** A whole-word occurrence of a word starts with a word character. */
  lemma WordAtStart(t: string, p: int, w: string)
    requires IsWord(w) && WordAt(t, p, w)
    ensures IsWordChar(t[p])
  {
    assert t[p] == t[p..p + |w|][0];
  }

  /** Whole-word occurrences are the same in a text and in its `lstrip()`. */
  lemma LStripKeepsWord(s: string, w: string)
    requires IsWord(w)
    ensures HasWord(Lower(LStrip(s)), w) <==> HasWord(Lower(s), w)
  {
    var l := LStrip(s);
    var ls, ll := Lower(s), Lower(l);
    assert ll == ls[|s| - |l|..];
    SuffixKeepsWord(ls, ll, w);
  }

  /** Whole-word occurrences are the same in a text and in its `rstrip()`. */
  lemma RStripKeepsWord(s: string, w: string)
    requires IsWord(w)
    ensures HasWord(Lower(RStrip(s)), w) <==> HasWord(Lower(s), w)
  {
    var r := RStrip(s);
    var ls, lr := Lower(s), Lower(r);
    assert lr == ls[..|r|];
    PrefixKeepsWord(ls, lr, w);
  }

  /** Stripping removes only whitespace, which is not part of any word, so
      it keeps every whole-word occurrence of a word. */
  lemma StripKeepsWord(s: string, w: string)
    requires IsWord(w)
    ensures HasWord(Lower(Strip(s)), w) <==> HasWord(Lower(s), w)
  {
    LStripKeepsWord(s, w);
    RStripKeepsWord(LStrip(s), w);
  }

  /** Stripping keeps every occurrence of a text that neither starts nor
      ends with whitespace. */
  lemma StripKeepsOccurrence(s: string, needle: string)
    requires |needle| > 0 && !IsSpace(needle[0]) && !IsSpace(needle[|needle| - 1])
    requires Contains(s, needle)
    ensures Contains(Strip(s), needle)
  {
    var q :| 0 <= q <= |s| - |needle| && OccursAt(s, q, needle);
    var l := LStrip(s);
    var a := |s| - |l|;
    assert s[q] == needle[0];
    OccursInSuffix(s, a, q, needle);
    var q' :| 0 <= q' <= |l| - |needle| && OccursAt(l, q', needle);
    var b := |RStrip(l)|;
    assert l[q' + |needle| - 1] == needle[|needle| - 1];
    OccursInSlice(l, 0, b, q', needle);
    assert l[0..b] == RStrip(l);
  }

  /** `s.strip()` leaves no whitespace at either end. */
  lemma StripIsTrimmed(s: string)
    ensures IsTrimmed(Strip(s))
  {
    var l := LStrip(s);
    var r := RStrip(l);
    if r != [] {
      assert r[0] == l[0];
    }
  }

  /** Stripping a text that is already trimmed changes nothing. */
  lemma StripTrimmed(s: string)
    requires IsTrimmed(s)
    ensures Strip(s) == s
  {
  }

  /** An occurrence of the needle shows each of its characters. */
  lemma OccursChar(t: string, i: int, needle: string, j: int)
    requires 0 <= j < |needle|
    ensures OccursAt(t, i, needle) ==> t[i + j] == needle[j]
  {
    if OccursAt(t, i, needle) {
      assert t[i..i + |needle|][j] == needle[j];
    }
  }

  /** A text lacking one of the needle's characters does not contain it. */
  lemma MissingChar(t: string, needle: string, j: nat)
    requires j < |needle| && forall k :: 0 <= k < |t| ==> t[k] != needle[j]
    ensures !Contains(t, needle)
  {
    forall i | 0 <= i <= |t| - |needle| ensures !OccursAt(t, i, needle) {
      OccursChar(t, i, needle, j);
    }
  }

  /** No `x` in `t` has `y` exactly `d` places after it. */
  predicate NoGap(t: string, x: char, y: char, d: nat) {
    forall q :: 0 <= q < |t| - d ==> !(t[q] == x && t[q + d] == y)
  }

  /** Two texts without the pair, joined where no pair straddles the
      seam, are still without it. */
  lemma NoGapConcat(a: string, b: string, x: char, y: char, d: nat)
    requires NoGap(a, x, y, d) && NoGap(b, x, y, d)
    requires forall q :: 0 <= q < |a| <= q + d < |a| + |b| ==> !(a[q] == x && b[q + d - |a|] == y)
    ensures NoGap(a + b, x, y, d)
  {
    var t := a + b;
    forall q | 0 <= q < |t| - d ensures !(t[q] == x && t[q + d] == y) {
      if q + d < |a| {
        assert t[q] == a[q] && t[q + d] == a[q + d];
      } else if q < |a| {
        assert t[q] == a[q] && t[q + d] == b[q + d - |a|];
      } else {
        assert t[q] == b[q - |a|] && t[q + d] == b[q - |a| + d];
      }
    }
  }

  /** A text where two of the needle's characters never appear at the
      needle's distance from each other does not contain it. */
  lemma GapMissing(t: string, needle: string, a: nat, b: nat)
    requires a < b < |needle| && NoGap(t, needle[a], needle[b], b - a)
    ensures !Contains(t, needle)
  {
    forall i | 0 <= i <= |t| - |needle| ensures !OccursAt(t, i, needle) {
      OccursChar(t, i, needle, a);
      OccursChar(t, i, needle, b);
      assert (i + a) + (b - a) == i + b;
    }
  }

  /** A suffix is the slice up to `j` followed by the suffix from `j`. */
  lemma SuffixSplit(s: string, p: nat, j: nat)
    requires p <= j <= |s|
    ensures s[p..] == s[p..j] + s[j..]
  {
  }

  /** A slice is the slice up to `j` followed by the slice from `j`. */
  lemma SliceSplit(s: string, p: nat, j: nat, k: nat)
    requires p <= j <= k <= |s|
    ensures s[p..k] == s[p..j] + s[j..k]
  {
  }

  /** An empty slice in front changes nothing. */
  lemma EmptyFront(s: string, x: string)
    ensures s[0..0] + x == x
  {
  }

  /** Concatenation regrouped around a middle pair. */
  lemma MiddleAssoc(a: string, b: string, c: string, d: string)
    ensures a + b + (c + d) == a + (b + c) + d
  {
  }

  /** Concatenation regrouped. */
  lemma AppendAssoc(a: string, b: string, c: string, d: string)
    ensures a + b + c + d == a + (b + c + d)
  {
  }
}
