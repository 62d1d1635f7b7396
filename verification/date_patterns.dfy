/** The regular expressions of the extraction callback, each written out as
    the backtracking matcher of a JavaScript (non-unicode) regex would run
    it, next to a declarative description of the strings it accepts:

      /^\d{1,2}\/\d{1,2}/              StartsWithDayMonth
      /\b\d{1,2}\/\d{1,2}\s*\([^)]+\)/  Pattern.DatedParen
      /\b\d{1,2}\/\d{1,2}\b/            Pattern.DayMonth
      /\b20\d{2}\b/                     Pattern.Year
*/
module DatePatterns {
  import opened Wrappers
  import opened Text

  /** `\b` at position `i`: exactly one of the neighbouring characters is a word character. */
  predicate WordBoundary(s: string, i: nat)
    requires i <= |s|
  {
    (i > 0 && IsWordChar(s[i - 1])) != (i < |s| && IsWordChar(s[i]))
  }

  /** `n` digits start at `i`. */
  predicate DigitsAt(s: string, i: nat, n: nat) {
    i + n <= |s| && forall k :: i <= k < i + n ==> IsDigit(s[k])
  }

  /** `\d{1,2}` tried greedily at `i`: how many digits it takes first (0 when it cannot match). */
  function GreedyDigits(s: string, i: nat): (n: nat)
    ensures n <= 2 && (n == 0 || DigitsAt(s, i, n))
    ensures n < 2 ==> !(i + n < |s| && IsDigit(s[i + n]))
  {
    if i < |s| && IsDigit(s[i]) then
      if i + 1 < |s| && IsDigit(s[i + 1]) then 2 else 1
    else 0
  }

  /** `\d{1,2}\/` at `i`, with backtracking from two digits to one: the position after the slash. */
  function DigitsSlash(s: string, i: nat): Option<nat> {
    var d := GreedyDigits(s, i);
    if d == 2 && i + 2 < |s| && s[i + 2] == '/' then Some(i + 3)
    else if d >= 1 && i + 1 < |s| && s[i + 1] == '/' then Some(i + 2)
    else None
  }

  /** The strings `\d{1,2}\/` accepts at `i`, with `a` digits. */
  predicate DigitsSlashShape(s: string, i: nat, a: nat) {
    1 <= a <= 2 && DigitsAt(s, i, a) && i + a < |s| && s[i + a] == '/'
  }

  lemma DigitsSlashIff(s: string, i: nat)
    ensures forall a :: DigitsSlashShape(s, i, a) ==> DigitsSlash(s, i) == Some(i + a + 1)
    ensures DigitsSlash(s, i).Some? ==> exists a :: DigitsSlashShape(s, i, a) && DigitsSlash(s, i) == Some(i + a + 1)
  {
    if DigitsSlash(s, i).Some? {
      var a := DigitsSlash(s, i).value - i - 1;
      assert DigitsSlashShape(s, i, a);
    }
  }

  /** The backtracking matcher stops after the slash of any accepted string. */
  lemma DigitsSlashOfShape(s: string, i: nat, a: nat)
    requires DigitsSlashShape(s, i, a)
    ensures DigitsSlash(s, i) == Some(i + a + 1)
  {
  }

  /** `/^\d{1,2}\/\d{1,2}/.test(t)`: the line starts like a day/month date. */
  predicate StartsWithDayMonth(t: string) {
    match DigitsSlash(t, 0)
    case Some(j) => j < |t| && IsDigit(t[j])
    case None => false
  }

  /** The two spellings `StartsWithDayMonth` accepts, written out. */
  lemma StartsWithDayMonthIff(t: string)
    ensures StartsWithDayMonth(t) <==>
      || (|t| >= 3 && IsDigit(t[0]) && t[1] == '/' && IsDigit(t[2]))
      || (|t| >= 4 && IsDigit(t[0]) && IsDigit(t[1]) && t[2] == '/' && IsDigit(t[3]))
  {
  }

  /** Length of the run of `\s` characters at `i` (what greedy `\s*` takes). */
  function SpaceRun(s: string, i: nat): (n: nat)
    ensures i + n <= |s| || (i >= |s| && n == 0)
    ensures forall k :: i <= k < i + n ==> IsSpace(s[k])
    ensures i + n < |s| ==> !IsSpace(s[i + n])
    decreases |s| - i
  {
    if i < |s| && IsSpace(s[i]) then 1 + SpaceRun(s, i + 1) else 0
  }

  /** Length of the run of characters other than `)` at `i` (what greedy `[^)]+` takes). */
  function NonParenRun(s: string, i: nat): (n: nat)
    ensures i + n <= |s| || (i >= |s| && n == 0)
    ensures forall k :: i <= k < i + n ==> s[k] != ')'
    ensures i + n < |s| ==> s[i + n] == ')'
    decreases |s| - i
  {
    if i < |s| && s[i] != ')' then 1 + NonParenRun(s, i + 1) else 0
  }

  /** The three date-like patterns, in the order the callback tries them. */
  datatype Pattern = DatedParen | DayMonth | Year

  /** Where a match of `pat` that starts at `i` ends, as the regex engine finds it. */
  function MatchAt(pat: Pattern, s: string, i: nat): (r: Option<nat>)
    ensures r.Some? ==> i < r.value <= |s|
  {
    if i >= |s| || !WordBoundary(s, i) then None
    else match pat
      case Year =>
        if i + 4 <= |s| && s[i] == '2' && s[i + 1] == '0' && DigitsAt(s, i + 2, 2) && WordBoundary(s, i + 4)
        then Some(i + 4) else None
      case DayMonth =>
        (match DigitsSlash(s, i)
         case None => None
         case Some(j) =>
           var b := GreedyDigits(s, j);
           if b >= 1 && WordBoundary(s, j + b) then Some(j + b) else None)
      case DatedParen =>
        (match DigitsSlash(s, i)
         case None => None
         case Some(j) =>
           var b := GreedyDigits(s, j);
           var m := j + b + SpaceRun(s, j + b);
           if b >= 1 && m < |s| && s[m] == '(' then
             var p := NonParenRun(s, m + 1);
             if p >= 1 && m + 1 + p < |s| then Some(m + p + 2) else None
           else None)
  }

  /** `\b20\d{2}\b` accepts `s[i..i + 4]`. */
  predicate YearShape(s: string, i: nat) {
    i + 4 <= |s| && WordBoundary(s, i) && s[i] == '2' && s[i + 1] == '0'
    && DigitsAt(s, i + 2, 2) && WordBoundary(s, i + 4)
  }

  /** `\b\d{1,2}\/\d{1,2}\b` accepts `a` digits, a slash and `b` digits at `i`. */
  predicate DayMonthShape(s: string, i: nat, a: nat, b: nat) {
    && i <= |s| && WordBoundary(s, i) && DigitsSlashShape(s, i, a)
    && 1 <= b <= 2 && DigitsAt(s, i + a + 1, b) && WordBoundary(s, i + a + 1 + b)
  }

  /** `\b\d{1,2}\/\d{1,2}\s*\([^)]+\)` accepts `a` digits, a slash, `b`
      digits, `w` spaces, `(`, `p` characters other than `)`, and `)` at `i`. */
  predicate DatedParenShape(s: string, i: nat, a: nat, b: nat, w: nat, p: nat) {
    var m := i + a + 1 + b + w;
    && i <= |s| && WordBoundary(s, i) && DigitsSlashShape(s, i, a)
    && 1 <= b <= 2 && DigitsAt(s, i + a + 1, b)
    && m + p + 2 <= |s|
    && (forall k :: i + a + 1 + b <= k < m ==> IsSpace(s[k]))
    && s[m] == '('
    && p >= 1 && (forall k :: m + 1 <= k < m + 1 + p ==> s[k] != ')')
    && s[m + 1 + p] == ')'
  }

  /** The year matcher finds exactly the year shapes. */
  lemma YearMatchIff(s: string, i: nat)
    ensures MatchAt(Year, s, i).Some? <==> YearShape(s, i)
    ensures YearShape(s, i) ==> MatchAt(Year, s, i) == Some(i + 4)
  {
  }

  /** The day/month matcher finds exactly the day/month shapes, each with its one end. */
  lemma DayMonthMatchIff(s: string, i: nat)
    ensures forall a, b :: DayMonthShape(s, i, a, b) ==> MatchAt(DayMonth, s, i) == Some(i + a + 1 + b)
    ensures MatchAt(DayMonth, s, i).Some? ==>
      exists a, b :: DayMonthShape(s, i, a, b) && MatchAt(DayMonth, s, i) == Some(i + a + 1 + b)
  {
    DigitsSlashIff(s, i);
    forall a, b | DayMonthShape(s, i, a, b) ensures MatchAt(DayMonth, s, i) == Some(i + a + 1 + b) {
      var j := i + a + 1;
      assert DigitsSlash(s, i) == Some(j);
      assert GreedyDigits(s, j) == b;
    }
    if MatchAt(DayMonth, s, i).Some? {
      var j := DigitsSlash(s, i).value;
      var a := j - i - 1;
      var b := GreedyDigits(s, j);
      assert DayMonthShape(s, i, a, b);
    }
  }

  /** The dated-parenthesis matcher finds exactly those shapes, each with its one end. */
  lemma DatedParenMatchIff(s: string, i: nat)
    ensures forall a, b, w, p :: DatedParenShape(s, i, a, b, w, p) ==>
      MatchAt(DatedParen, s, i) == Some(i + a + 1 + b + w + p + 2)
    ensures MatchAt(DatedParen, s, i).Some? ==>
      exists a, b, w, p :: DatedParenShape(s, i, a, b, w, p) && MatchAt(DatedParen, s, i) == Some(i + a + 1 + b + w + p + 2)
  {
    DigitsSlashIff(s, i);
    forall a, b, w, p | DatedParenShape(s, i, a, b, w, p)
      ensures MatchAt(DatedParen, s, i) == Some(i + a + 1 + b + w + p + 2)
    {
      DatedParenShapeEnd(s, i, a, b, w, p);
    }
    if MatchAt(DatedParen, s, i).Some? {
      var j := DigitsSlash(s, i).value;
      var a := j - i - 1;
      var b := GreedyDigits(s, j);
      var w := SpaceRun(s, j + b);
      var p := NonParenRun(s, j + b + w + 1);
      assert DatedParenShape(s, i, a, b, w, p);
    }
  }

  lemma DatedParenShapeEnd(s: string, i: nat, a: nat, b: nat, w: nat, p: nat)
    requires DatedParenShape(s, i, a, b, w, p)
    ensures MatchAt(DatedParen, s, i) == Some(i + a + 1 + b + w + p + 2)
  {
    var j := i + a + 1;
    var m := j + b + w;
    DigitsSlashOfShape(s, i, a);
    assert !IsDigit(s[j + b]) by {
      if w > 0 {
        assert IsSpace(s[j + b]);
      }
    }
    SpaceRunIs(s, j + b, w);
    NonParenRunIs(s, m + 1, p);
    DatedParenEnd(s, i, j, b, w, p);
  }

  /** The dated-parenthesis matcher, once the lengths of its pieces are known. */
  lemma DatedParenEnd(s: string, i: nat, j: nat, b: nat, w: nat, p: nat)
    requires i < |s| && WordBoundary(s, i) && DigitsSlash(s, i) == Some(j)
    requires 1 <= b <= 2 && DigitsAt(s, j, b) && j + b < |s| && !IsDigit(s[j + b])
    requires SpaceRun(s, j + b) == w && j + b + w < |s| && s[j + b + w] == '('
    requires NonParenRun(s, j + b + w + 1) == p && p >= 1 && j + b + w + 1 + p < |s|
    ensures MatchAt(DatedParen, s, i) == Some(j + b + w + p + 2)
  {
    assert GreedyDigits(s, j) == b;
  }

  /** The run of `\s` at `i` stops at the first other character. */
  lemma SpaceRunIs(s: string, i: nat, w: nat)
    requires i + w < |s| && !IsSpace(s[i + w])
    requires forall k :: i <= k < i + w ==> IsSpace(s[k])
    ensures SpaceRun(s, i) == w
  {
  }

  /** The run of characters other than `)` at `i` stops at the first `)`. */
  lemma NonParenRunIs(s: string, i: nat, p: nat)
    requires i + p < |s| && s[i + p] == ')'
    requires forall k :: i <= k < i + p ==> s[k] != ')'
    ensures NonParenRun(s, i) == p
  {
  }

  /** Some start position admits a match of `pat`. */
  predicate HasMatch(pat: Pattern, s: string) {
    exists i: nat | i < |s| :: MatchAt(pat, s, i).Some?
  }

  /** `s.match(pat)`: the match at the leftmost start position from `from` on, as (start, end). */
  function Leftmost(pat: Pattern, s: string, from: nat): (r: Option<(nat, nat)>)
    ensures r.Some? ==> from <= r.value.0 && MatchAt(pat, s, r.value.0) == Some(r.value.1)
    ensures r.Some? ==> forall j :: from <= j < r.value.0 ==> MatchAt(pat, s, j).None?
    ensures r.None? ==> forall j :: from <= j ==> MatchAt(pat, s, j).None?
    decreases |s| - from
  {
    if from >= |s| then None
    else match MatchAt(pat, s, from)
      case Some(e) => Some((from, e))
      case None => Leftmost(pat, s, from + 1)
  }
}
