/** The extraction callback as a whole: find the sponsor link, choose the
    card container around it, and read the card's fields out of it. */
module TopCardAd {
  import opened Wrappers
  import opened Text
  import opened Seqs
  import opened DatePatterns
  import opened Dom
  import opened Container
  import opened Fields

  /** The object the callback returns for a sponsored card. */
  datatype AdCard = AdCard(
    advertiser: Option<string>,
    headline: Option<string>,
    schedule: Option<string>,
    tags: seq<string>,
    badges: seq<Badge>,
    image: Option<string>,
    link: Option<string>)

  /** The card read out of `container` for the sponsor link `anchor`. */
  function CardOf(anchor: Link, container: Node): (r: AdCard)
    ensures |r.tags| <= MaxTags && |r.badges| <= MaxBadges
    ensures r.link.None? <==> anchor.href == ""
  {
    AdCard(Advertiser(container), Headline(container), Schedule(container),
           Tags(container), Badges(container), Image(container, anchor.node), LinkOf(anchor))
  }

  /** `container` is the element the callback settles on for `anchor`: the
      best candidate of the walk, or the link's parent when there is none. */
  ghost predicate IsContainer(anchor: Link, container: Node) {
    var w := Walk(anchor);
    if NoCandidate(w) then Parent(anchor) == Some(container)
    else exists d: nat :: IsBestStep(w, d) && container == w[d]
  }

  /** The container is determined by the link. */
  lemma ContainerUnique(anchor: Link, c1: Node, c2: Node)
    requires IsContainer(anchor, c1) && IsContainer(anchor, c2)
    ensures c1 == c2
  {
    var w := Walk(anchor);
    if !NoCandidate(w) {
      var d1: nat :| IsBestStep(w, d1) && c1 == w[d1];
      var d2: nat :| IsBestStep(w, d2) && c2 == w[d2];
      BestStepUnique(w, d1, d2);
    }
  }

  /** The callback returns `null` for the sponsor link `anchor`: the walk finds
      no candidate and the link has no parent. */
  predicate NoContainer(anchor: Link) {
    NoCandidate(Walk(anchor)) && |anchor.ancestors| == 0
  }

  /** `card` is what the callback returns for `anchor`. */
  ghost predicate Extracts(anchor: Link, card: AdCard) {
    exists container :: IsContainer(anchor, container) && card == CardOf(anchor, container)
  }

  /** The `page.evaluate` callback: `null` without a sponsor link or without a
      container; otherwise the card read from the container. */
  method ExtractTopAd(page: Page) returns (ad: Option<AdCard>)
    ensures FindSponsorAnchor(page.links).None? ==> ad.None?
    ensures FindSponsorAnchor(page.links).Some? ==>
      (ad.None? <==> NoContainer(FindSponsorAnchor(page.links).value))
    ensures ad.Some? ==> FindSponsorAnchor(page.links).Some? && Extracts(FindSponsorAnchor(page.links).value, ad.value)
  {
    var found := FindSponsorAnchor(page.links);
    if found.None? {
      return None;
    }
    var anchor := found.value;
    var container := SelectContainer(anchor);
    if container.None? {
      return None;
    }
    assert IsContainer(anchor, container.value);
    ad := Some(CardOf(anchor, container.value));
  }

  /** A short link text, "공무원 합격반" ("civil-service pass class"). */
  const SampleText: string := "공무원 합격반"

  /** The sample text is already trimmed, so `pickText` returns it as it is. */
  lemma SampleTextTrimmed()
    ensures Trim(SampleText) == SampleText
  {
    assert LeadingSpaces(SampleText) == 0;
    assert TrailingSpaces(SampleText) == 0;
  }

  /** The sample text does not start like a date. */
  lemma SampleTextNoDate()
    ensures !StartsWithDayMonth(SampleText)
  {
    assert GreedyDigits(SampleText, 0) == 0;
  }

  /** The sample text holds none of the excluded words. */
  lemma SampleTextNoExcludedWord()
    ensures !Contains(SampleText, AdMark) && !Contains(SampleText, NewsMark) && !Contains(SampleText, ImgWord)
  {
    NotContainsWithoutFirst(SampleText, AdMark);
    NotContainsWithoutFirst(SampleText, NewsMark);
    NotContainsWithoutFirst(SampleText, ImgWord);
  }

  /** A container whose only descendant is a link with the sample text. */
  const SampleContainer: Node :=
    Node(Elem(Div, SampleText, "", 0, 0, ""), [Elem(A, SampleText, "", 0, 0, "")])

  lemma SampleAdvertiser()
    ensures Advertiser(SampleContainer) == Some(SampleText)
  {
    var e := SampleContainer.descendants[0];
    var b := Block(SampleText, 0, 0);
    SampleTextTrimmed();
    SampleTextNoExcludedWord();
    assert SelectAll(SampleContainer, AdvertiserTags) == [e];
    assert Map([e], ToBlock) == [b];
    assert TextBlocks(SampleContainer) == [b];
    assert AdvertiserBlocks(SampleContainer) == [b];
    AdvertiserIsTopLeft(SampleContainer);
  }

  lemma SampleHeadline()
    ensures Headline(SampleContainer) == Some(SampleText)
  {
    var e := SampleContainer.descendants[0];
    SampleTextTrimmed();
    SampleTextNoExcludedWord();
    SampleTextNoDate();
    assert SelectAll(SampleContainer, HeadlineTags) == [e];
    assert Map([e], PickText) == [SampleText];
    assert HeadlineCandidates(SampleContainer) == [SampleText];
    HeadlineIsLongest(SampleContainer);
  }

  /** Nothing keeps the advertiser and the headline apart: one short link
      text can be both. */
  lemma AdvertiserMayEqualHeadline()
    ensures exists container :: Advertiser(container).Some? && Advertiser(container) == Headline(container)
  {
    SampleAdvertiser();
    SampleHeadline();
  }
}
