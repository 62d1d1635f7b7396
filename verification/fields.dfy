/** Steps 3 to 9 of the extraction callback: what it reads out of the card
    container once that is chosen — the thumbnail, the advertiser name, the
    headline, the schedule, the tag pills, the badge lines and the link. */
module Fields {
  import opened Wrappers
  import opened Text
  import opened Seqs
  import opened StableSort
  import opened Unique
  import opened DatePatterns
  import opened Dom
  import opened Container

  /** A label too common to name anything: "새소식" ("news"). */
  const NewsMark: string := "새소식"
  /** Leftover markup text the advertiser filter rejects. */
  const ImgWord: string := "img"

  // ---------------------------------------------------------------- image

  /** `container.querySelector("img") || anchor.querySelector("img") ||
      container.querySelector("img[src]")` */
  function ImageElem(container: Node, anchor: Node): (r: Option<Elem>)
    ensures r.Some? ==> r.value.tag == Img && (r.value in container.descendants || r.value in anchor.descendants)
  {
    var first := FirstImg(container.descendants, false);
    if first.Some? then first
    else
      var own := FirstImg(anchor.descendants, false);
      if own.Some? then own
      else FirstImg(container.descendants, true)
  }

  /** The last fallback never finds anything: an `img[src]` is an `img`, so
      when the container has no `img` at all it has no `img[src]` either. */
  lemma ImageThirdFallbackUnreachable(container: Node)
    ensures FirstImg(container.descendants, false).None? ==> FirstImg(container.descendants, true).None?
  {
  }

  /** `imgEl?.src || null` */
  function Image(container: Node, anchor: Node): (r: Option<string>)
    ensures r.Some? ==> r.value != ""
  {
    var e := ImageElem(container, anchor);
    if e.Some? && e.value.src != "" then Some(e.value.src) else None
  }

  /** The thumbnail is the source of the container's first image, or, when
      the container has none, of the link's first image; it is absent when
      that image has no source. */
  lemma ImageIsFirstImage(container: Node, anchor: Node)
    ensures FirstImg(container.descendants, false).Some? ==>
      Image(container, anchor) == var e := FirstImg(container.descendants, false).value; if e.src != "" then Some(e.src) else None
    ensures FirstImg(container.descendants, false).None? && FirstImg(anchor.descendants, false).Some? ==>
      Image(container, anchor) == var e := FirstImg(anchor.descendants, false).value; if e.src != "" then Some(e.src) else None
    ensures FirstImg(container.descendants, false).None? && FirstImg(anchor.descendants, false).None? ==>
      Image(container, anchor).None?
  {
  }

  // ----------------------------------------------------------- advertiser

  /** The selector `a,span,strong,em,div,p`. */
  const AdvertiserTags: set<Tag> := {A, Span, Strong, Em, Div, P}

  /** An element's text with the top-left corner of its bounding box. */
  datatype Block = Block(t: string, top: int, left: int)

  function ToBlock(e: Elem): Block {
    Block(PickText(e), e.top, e.left)
  }

  /** The `textBlocks` filter: non-empty, between 2 and 20 characters. */
  predicate ShortBlock(b: Block) {
    b.t != "" && 2 <= |b.t| <= 20
  }

  /** `textBlocks`: the short texts of the container, in document order. */
  function TextBlocks(container: Node): (r: seq<Block>)
    ensures forall i :: 0 <= i < |r| ==> ShortBlock(r[i]) && IsTrimmed(r[i].t)
  {
    Filter(Map(SelectAll(container, AdvertiserTags), ToBlock), ShortBlock)
  }

  /** The comparator `(a, b) => a.top - b.top || a.left - b.left`. */
  function ByPosition(a: Block, b: Block): int {
    var dy := a.top - b.top;
    if dy != 0 then dy else a.left - b.left
  }

  /** Reading order: higher on the page first, then further left. */
  predicate Above(a: Block, b: Block) {
    a.top < b.top || (a.top == b.top && a.left < b.left)
  }

  /** The comparator orders blocks by reading order. */
  lemma ByPositionIsReadingOrder(a: Block, b: Block)
    ensures Before(ByPosition, a, b) <==> Above(a, b)
  {
  }

  lemma ByPositionIsStrictWeakOrder()
    ensures StrictWeakOrder(ByPosition)
  {
  }

  /** The `filtered` predicate: none of the words "광고", "새소식" or "img",
      and at most 20 characters. */
  predicate AdvertiserOk(b: Block) {
    !Contains(b.t, AdMark) && !Contains(b.t, NewsMark) && !Contains(b.t, ImgWord) && |b.t| <= 20
  }

  /** The blocks that could name the advertiser, in document order. */
  function AdvertiserBlocks(container: Node): seq<Block> {
    Filter(TextBlocks(container), AdvertiserOk)
  }

  /** `filtered[0]?.t || null` after sorting `textBlocks` by position. */
  function Advertiser(container: Node): (r: Option<string>)
    ensures r.None? <==> |AdvertiserBlocks(container)| == 0
    ensures r.Some? ==> 2 <= |r.value| <= 20 && IsTrimmed(r.value)
    ensures r.Some? ==> !Contains(r.value, AdMark) && !Contains(r.value, NewsMark) && !Contains(r.value, ImgWord)
  {
    var sorted := SortBy(TextBlocks(container), ByPosition);
    var filtered := Filter(sorted, AdvertiserOk);
    ByPositionIsStrictWeakOrder();
    FilterSort(TextBlocks(container), ByPosition, AdvertiserOk);
    if |filtered| > 0 then
      AdvertiserPick(TextBlocks(container), filtered);
      Some(filtered[0].t)
    else None
  }

  /** The first surviving block is one of the blocks, and passes the filter. */
  lemma AdvertiserPick(blocks: seq<Block>, filtered: seq<Block>)
    requires filtered == Filter(SortBy(blocks, ByPosition), AdvertiserOk) && |filtered| > 0
    ensures filtered[0] in blocks && AdvertiserOk(filtered[0])
  {
    assert filtered[0] in multiset(SortBy(blocks, ByPosition));
  }

  /** `blocks[k]` is the top-left one: no block stands above it, and it
      stands above every block before it in document order. */
  predicate TopLeftAt(blocks: seq<Block>, k: nat) {
    && k < |blocks|
    && (forall j :: 0 <= j < |blocks| ==> !Above(blocks[j], blocks[k]))
    && (forall j :: 0 <= j < k ==> Above(blocks[k], blocks[j]))
  }

  /** The advertiser is the text of the top-left block among those that pass
      the filter, the first in document order among blocks at the same spot. */
  lemma AdvertiserIsTopLeft(container: Node)
    ensures Advertiser(container).Some? ==>
      exists k: nat :: TopLeftAt(AdvertiserBlocks(container), k) && Advertiser(container).value == AdvertiserBlocks(container)[k].t
  {
    var blocks := TextBlocks(container);
    var f := AdvertiserBlocks(container);
    if |f| > 0 {
      ByPositionIsStrictWeakOrder();
      FilterSort(blocks, ByPosition, AdvertiserOk);
      SortHead(f, ByPosition);
      var k: nat :| FirstBest(f, ByPosition, k) && SortBy(f, ByPosition)[0] == f[k];
      forall j | 0 <= j < |f| ensures !Above(f[j], f[k]) {
        ByPositionIsReadingOrder(f[j], f[k]);
      }
      forall j | 0 <= j < k ensures Above(f[k], f[j]) {
        ByPositionIsReadingOrder(f[k], f[j]);
      }
      assert TopLeftAt(f, k);
    }
  }

  // ------------------------------------------------------------- headline

  /** The selector `h3,strong,a,div,span`. */
  const HeadlineTags: set<Tag> := {H3, Strong, A, Div, Span}

  /** The three `candidates` filters: 6 to 80 characters, neither "광고" nor
      "새소식", and not starting like a day/month date. */
  predicate HeadlineOk(t: string) {
    && t != "" && 6 <= |t| <= 80
    && !Contains(t, AdMark) && !Contains(t, NewsMark)
    && !StartsWithDayMonth(t)
  }

  /** The headline `candidates`, in document order. */
  function HeadlineCandidates(container: Node): seq<string> {
    Filter(Map(SelectAll(container, HeadlineTags), PickText), HeadlineOk)
  }

  /** The comparator `(a, b) => b.length - a.length`. */
  function ByLengthDesc(a: string, b: string): int {
    |b| - |a|
  }

  lemma ByLengthDescIsStrictWeakOrder()
    ensures StrictWeakOrder(ByLengthDesc)
  {
  }

  /** `candidates.sort(byLengthDesc)[0] || null` */
  function Headline(container: Node): (r: Option<string>)
    ensures r.None? <==> |HeadlineCandidates(container)| == 0
    ensures r.Some? ==> HeadlineOk(r.value) && IsTrimmed(r.value)
  {
    var c := HeadlineCandidates(container);
    if |c| == 0 then None
    else
      var sorted := SortBy(c, ByLengthDesc);
      assert sorted[0] in multiset(c);
      Some(sorted[0])
  }

  /** `cands[k]` is the longest text, and every text before it is strictly shorter. */
  predicate LongestAt(cands: seq<string>, k: nat) {
    && k < |cands|
    && (forall j :: 0 <= j < |cands| ==> |cands[j]| <= |cands[k]|)
    && (forall j :: 0 <= j < k ==> |cands[j]| < |cands[k]|)
  }

  /** The headline is the longest candidate, the first in document order
      among candidates of that length. */
  lemma HeadlineIsLongest(container: Node)
    ensures Headline(container).Some? ==>
      exists k: nat :: LongestAt(HeadlineCandidates(container), k) && Headline(container).value == HeadlineCandidates(container)[k]
  {
    var c := HeadlineCandidates(container);
    if |c| > 0 {
      ByLengthDescIsStrictWeakOrder();
      SortHead(c, ByLengthDesc);
      var k: nat :| FirstBest(c, ByLengthDesc, k) && SortBy(c, ByLengthDesc)[0] == c[k];
      assert forall j :: 0 <= j < |c| ==> !Before(ByLengthDesc, c[j], c[k]);
      assert LongestAt(c, k);
    }
  }

  // ------------------------------------------------------------- schedule

  /** `s.match(pat)[0]`: the text of the leftmost match. */
  function FirstMatch(pat: Pattern, s: string): (r: Option<string>)
    ensures r.None? <==> !HasMatch(pat, s)
    ensures r.Some? ==> exists i: nat, e: nat :: LeftmostAt(pat, s, i, e) && r.value == s[i..e]
  {
    match Leftmost(pat, s, 0)
    case None => None
    case Some((i, e)) =>
      assert LeftmostAt(pat, s, i, e);
      Some(s[i..e])
  }

  /** A match of `pat` runs from `i` to `e`, and no match starts earlier. */
  predicate LeftmostAt(pat: Pattern, s: string, i: nat, e: nat) {
    && i < e <= |s| && MatchAt(pat, s, i) == Some(e)
    && forall j :: 0 <= j < i ==> MatchAt(pat, s, j).None?
  }

  /** `schedule` for the container text `t`: the first of the three patterns
      that matches anywhere decides, and its leftmost match is the schedule. */
  function ScheduleOf(t: string): (r: Option<string>)
    ensures r.None? <==> !HasMatch(DatedParen, t) && !HasMatch(DayMonth, t) && !HasMatch(Year, t)
    ensures r.Some? ==> exists i: nat :: OccursAt(t, r.value, i)
  {
    var m := FirstMatch(DatedParen, t);
    var m := if m.Some? then m else FirstMatch(DayMonth, t);
    var m := if m.Some? then m else FirstMatch(Year, t);
    if m.Some? then
      MatchOccurs(t, m.value);
      m
    else m
  }

  /** The text of a match occurs in the string it was found in. */
  lemma MatchOccurs(t: string, m: string)
    requires exists pat, i: nat, e: nat :: LeftmostAt(pat, t, i, e) && m == t[i..e]
    ensures exists i: nat :: OccursAt(t, m, i)
  {
    var pat, i: nat, e: nat :| LeftmostAt(pat, t, i, e) && m == t[i..e];
    assert OccursAt(t, m, i);
  }

  /** Pattern `pat` is the first of the three that matches `t` somewhere. */
  predicate FirstPatternToMatch(pat: Pattern, t: string) {
    && HasMatch(pat, t)
    && (pat != DatedParen ==> !HasMatch(DatedParen, t))
    && (pat == Year ==> !HasMatch(DayMonth, t))
  }

  /** The schedule is the leftmost match of the first pattern that matches. */
  lemma ScheduleIsLeftmostOfFirstPattern(t: string, pat: Pattern)
    requires FirstPatternToMatch(pat, t)
    ensures exists i: nat, e: nat :: LeftmostAt(pat, t, i, e) && ScheduleOf(t) == Some(t[i..e])
  {
    var m := FirstMatch(pat, t);
    assert ScheduleOf(t) == m;
    var i: nat, e: nat :| LeftmostAt(pat, t, i, e) && m.value == t[i..e];
  }

  /** `pickText(container)` run through the three patterns. */
  function Schedule(container: Node): (r: Option<string>)
    ensures r.Some? ==> exists i: nat :: OccursAt(PickText(container.elem), r.value, i)
  {
    ScheduleOf(PickText(container.elem))
  }

  // ----------------------------------------------------------------- tags

  /** The selector `a,button,span,em,div`. */
  const TagTags: set<Tag> := {A, Button, Span, Em, Div}
  /** `tags` keeps at most this many values. */
  const MaxTags: nat := 12

  /** The three `tagText` filters: 2 to 12 characters, neither "광고" nor
      "새소식", and not starting like a day/month date. */
  predicate TagOk(t: string) {
    && t != "" && 2 <= |t| <= 12
    && !Contains(t, AdMark) && !Contains(t, NewsMark)
    && !StartsWithDayMonth(t)
  }

  /** `tagText`, in document order. */
  function TagCandidates(container: Node): (r: seq<string>)
    ensures forall i :: 0 <= i < |r| ==> TagOk(r[i]) && IsTrimmed(r[i])
  {
    Filter(Map(SelectAll(container, TagTags), PickText), TagOk)
  }

  /** `uniq(tagText).slice(0, 12)` */
  function Tags(container: Node): (r: seq<string>)
    ensures |r| <= MaxTags && Distinct(r)
    ensures forall i :: 0 <= i < |r| ==> TagOk(r[i]) && r[i] in TagCandidates(container)
  {
    var c := TagCandidates(container);
    assert forall i :: 0 <= i < |c| ==> IsTrimmed(c[i]) && c[i] != "";
    UniqPrefixMembers(c, MaxTags);
    Take(Uniq(c), MaxTags)
  }

  /** The tags are the distinct candidates in order of first appearance; when
      fewer than twelve are kept, every candidate is among them. */
  lemma TagsFirstDistinct(container: Node)
    ensures IsSubseq(Tags(container), TagCandidates(container))
    ensures InFirstOccurrenceOrder(Tags(container), TagCandidates(container))
    ensures |Tags(container)| < MaxTags ==>
      forall j :: 0 <= j < |TagCandidates(container)| ==> TagCandidates(container)[j] in Tags(container)
  {
    var c := TagCandidates(container);
    assert forall i :: 0 <= i < |c| ==> IsTrimmed(c[i]) && c[i] != "";
    UniqPrefixFirstDistinct(c, MaxTags);
  }

  /** Even at twelve, the tags skip no candidate: every candidate ahead of the
      first occurrence of a kept tag is kept too. */
  lemma TagsNoSkip(container: Node)
    ensures forall k :: 0 <= k < |Tags(container)| ==> Tags(container)[k] in TagCandidates(container)
    ensures forall k, j :: 0 <= k < |Tags(container)| && 0 <= j < IndexOf(TagCandidates(container), Tags(container)[k]) ==>
      TagCandidates(container)[j] in Tags(container)
  {
    var c := TagCandidates(container);
    assert forall i :: 0 <= i < |c| ==> IsTrimmed(c[i]) && c[i] != "";
    UniqPrefixNoSkip(c, MaxTags);
  }

  // --------------------------------------------------------------- badges

  /** The alternatives of `/(예약|상담|환급|지원|패스|무료|체험|이벤트|합격|개강|설명회|특강|쿠폰)/`:
      booking, consultation, refund, support, pass, free, trial, event,
      acceptance, course opening, information session, special lecture, coupon. */
  const BadgeKeywords: seq<string> :=
    ["예약", "상담", "환급", "지원", "패스", "무료", "체험", "이벤트", "합격", "개강", "설명회", "특강", "쿠폰"]
  /** `badges` keeps at most this many lines. */
  const MaxBadges: nat := 10

  /** One badge box, `{ label, sub }`: its main line (`caption`, the `label`
      property) and a second line, which the callback never fills. */
  datatype Badge = Badge(caption: string, sub: Option<string>)

  /** `text.split("\n").map((s) => s.trim()).filter(Boolean)` */
  function Lines(text: string): (r: seq<string>)
    ensures forall i :: 0 <= i < |r| ==> r[i] != "" && IsTrimmed(r[i]) && '\n' !in r[i]
  {
    TrimmedLines(SplitLines(text))
  }

  /** Trims every piece and drops the empty ones, one piece at a time. */
  function TrimmedLines(pieces: seq<string>): (r: seq<string>)
    requires forall k :: 0 <= k < |pieces| ==> '\n' !in pieces[k]
    ensures forall i :: 0 <= i < |r| ==> r[i] != "" && IsTrimmed(r[i]) && '\n' !in r[i]
  {
    if |pieces| == 0 then []
    else
      var t := Trim(pieces[0]);
      TrimSubstring(pieces[0]);
      var rest := TrimmedLines(pieces[1..]);
      if t == "" then rest else [t] + rest
  }

  /** Piece by piece, the lines are what `map(trim)` followed by `filter(Boolean)` keeps. */
  lemma {:induction false} TrimmedLinesIsTrimThenFilter(pieces: seq<string>)
    requires forall k :: 0 <= k < |pieces| ==> '\n' !in pieces[k]
    ensures TrimmedLines(pieces) == Filter(Map(pieces, Trim), NonEmpty)
  {
    if |pieces| > 0 {
      TrimmedLinesIsTrimThenFilter(pieces[1..]);
      assert Map(pieces, Trim)[1..] == Map(pieces[1..], Trim);
    }
  }

  /** A trimmed string holds no character its source did not hold. */
  lemma TrimSubstring(s: string)
    ensures forall c :: c in Trim(s) ==> c in s
  {
    TrimSlice(s);
  }

  predicate IsBadgeLine(t: string) {
    ContainsAny(t, BadgeKeywords)
  }

  /** `uniq(badgeLines).slice(0, 10)` for the container text `text`. */
  function BadgeLabels(text: string): (r: seq<string>)
    ensures |r| <= MaxBadges && Distinct(r)
    ensures forall i :: 0 <= i < |r| ==> r[i] in Lines(text) && IsBadgeLine(r[i])
  {
    var lines := Filter(Lines(text), IsBadgeLine);
    assert forall i :: 0 <= i < |lines| ==> IsTrimmed(lines[i]) && lines[i] != "";
    UniqPrefixMembers(lines, MaxBadges);
    var r := Take(Uniq(lines), MaxBadges);
    assert forall i :: 0 <= i < |r| ==> r[i] in lines;
    r
  }

  /** The badge labels are the distinct keyword lines in order of first
      appearance; when fewer than ten are kept, every keyword line is among them. */
  lemma BadgeLabelsFirstDistinct(text: string)
    ensures IsSubseq(BadgeLabels(text), Filter(Lines(text), IsBadgeLine))
    ensures InFirstOccurrenceOrder(BadgeLabels(text), Filter(Lines(text), IsBadgeLine))
    ensures |BadgeLabels(text)| < MaxBadges ==>
      forall j :: 0 <= j < |Lines(text)| && IsBadgeLine(Lines(text)[j]) ==> Lines(text)[j] in BadgeLabels(text)
  {
    var lines := Filter(Lines(text), IsBadgeLine);
    UniqPrefixFirstDistinct(lines, MaxBadges);
    assert forall j :: 0 <= j < |Lines(text)| && IsBadgeLine(Lines(text)[j]) ==> Lines(text)[j] in lines;
  }

  /** Even at ten, the labels skip no keyword line: every keyword line ahead of
      the first occurrence of a kept label is kept too. */
  lemma BadgeLabelsNoSkip(text: string)
    ensures forall k :: 0 <= k < |BadgeLabels(text)| ==> BadgeLabels(text)[k] in Filter(Lines(text), IsBadgeLine)
    ensures forall k, j :: 0 <= k < |BadgeLabels(text)| && 0 <= j < IndexOf(Filter(Lines(text), IsBadgeLine), BadgeLabels(text)[k]) ==>
      Filter(Lines(text), IsBadgeLine)[j] in BadgeLabels(text)
  {
    var lines := Filter(Lines(text), IsBadgeLine);
    assert forall i :: 0 <= i < |lines| ==> IsTrimmed(lines[i]) && lines[i] != "";
    UniqPrefixNoSkip(lines, MaxBadges);
  }

  /** The labels follow the order of the lines of the container text. */
  lemma BadgeLabelsInLineOrder(text: string)
    ensures IsSubseq(BadgeLabels(text), Lines(text))
  {
    var lines := Filter(Lines(text), IsBadgeLine);
    assert forall i :: 0 <= i < |lines| ==> IsTrimmed(lines[i]) && lines[i] != "";
    UniqOfTrimmed(lines);
    SubseqOfPrefix(Uniq(lines), lines, |BadgeLabels(text)|);
    SubseqTrans(BadgeLabels(text), lines, Lines(text));
  }

  function ToBadge(line: string): Badge {
    Badge(line, None)
  }

  /** `cleaned.map((t) => ({ label: t, sub: null }))` over `pickText(container)`. */
  function Badges(container: Node): (r: seq<Badge>)
    ensures |r| <= MaxBadges
    ensures forall i :: 0 <= i < |r| ==> r[i].sub.None? && IsBadgeLine(r[i].caption) && r[i].caption in Lines(PickText(container.elem))
    ensures forall i, j :: 0 <= i < j < |r| ==> r[i].caption != r[j].caption
  {
    Map(BadgeLabels(PickText(container.elem)), ToBadge)
  }

  // ----------------------------------------------------------------- link

  /** `anchor.href || null` */
  function LinkOf(anchor: Link): (r: Option<string>)
    ensures r.None? <==> anchor.href == ""
    ensures r.Some? ==> r.value == anchor.href
  {
    if anchor.href != "" then Some(anchor.href) else None
  }
}
