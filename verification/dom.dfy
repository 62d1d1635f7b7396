/** The rendered page, reduced to what the extraction callback reads from
    the DOM. Browser behaviour is supplied as data: `innerText` and
    `textContent` as strings, `getBoundingClientRect` as integer `top` and
    `left`, the resolved `img.src`, and the order of `querySelectorAll`
    (document order) as the order of each `descendants` sequence. */
module Dom {
  import opened Wrappers
  import opened Text
  import opened Seqs

  /** The element kinds the callback's selectors name; any other kind is `OtherTag`. */
  datatype Tag = A | Button | Div | Em | H3 | Img | P | Span | Strong | OtherTag

  /** One element as the callback sees it. `src` is the resolved image
      source (empty when the element has none). */
  datatype Elem = Elem(tag: Tag, innerText: string, textContent: string, top: int, left: int, src: string)

  /** An element together with all of its descendants, in document order. */
  datatype Node = Node(elem: Elem, descendants: seq<Elem>)

  /** An `a` element of the page: its raw `href` attribute (what `[href*=…]`
      tests), its resolved `href` property, the element itself, and its
      `parentElement` chain, nearest first. */
  datatype Link = Link(hrefAttr: string, href: string, node: Node, ancestors: seq<Node>)

  /** The page: all of its `a` elements in document order. */
  datatype Page = Page(links: seq<Link>)

  /** `pickText(el)`: the trimmed `innerText`, or the trimmed `textContent`
      when `innerText` is empty. */
  function PickText(e: Elem): (r: string)
    ensures IsTrimmed(r)
  {
    Trim(if e.innerText != "" then e.innerText else e.textContent)
  }

  /** `node.querySelectorAll(selector list)` for a list of tag selectors:
      the matching descendants, each once, in document order. */
  function SelectAll(n: Node, tags: set<Tag>): (r: seq<Elem>)
    ensures forall i :: 0 <= i < |r| ==> r[i].tag in tags && r[i] in n.descendants
    ensures forall i :: 0 <= i < |n.descendants| && n.descendants[i].tag in tags ==> n.descendants[i] in r
    ensures IsSubseq(r, n.descendants)
  {
    Filter(n.descendants, (e: Elem) => e.tag in tags)
  }

  /** Each descendant with one of the tags is selected as often as it occurs, and no other. */
  lemma SelectAllCount(n: Node, tags: set<Tag>)
    ensures forall e :: multiset(SelectAll(n, tags))[e] == if e.tag in tags then multiset(n.descendants)[e] else 0
  {
    var r := SelectAll(n, tags);
    FilterCount(n.descendants, (e: Elem) => e.tag in tags);
    forall e: Elem ensures multiset(r)[e] == if e.tag in tags then multiset(n.descendants)[e] else 0 {
      if e in n.descendants {
        var i :| 0 <= i < |n.descendants| && n.descendants[i] == e;
      }
    }
  }

  /** `!!node.querySelector("img")` */
  predicate HasImg(n: Node) {
    exists i :: 0 <= i < |n.descendants| && n.descendants[i].tag == Img
  }

  /** The host names whose links mark a sponsored result: the selector
      `a[href*='ad.search.naver.com'],a[href*='adcr.naver.com'],a[href*='ad.naver.com']`. */
  const SponsorHosts: seq<string> := ["ad.search.naver.com", "adcr.naver.com", "ad.naver.com"]

  predicate IsSponsorLink(l: Link) {
    ContainsAny(l.hrefAttr, SponsorHosts)
  }

  /** `document.querySelector(<sponsor selector>)`: the first sponsor link in document order. */
  function FindSponsorAnchor(links: seq<Link>): (r: Option<Link>)
    ensures r.None? <==> forall i :: 0 <= i < |links| ==> !IsSponsorLink(links[i])
    ensures r.Some? ==> exists k :: 0 <= k < |links| && links[k] == r.value && IsSponsorLink(r.value) &&
                                    forall j :: 0 <= j < k ==> !IsSponsorLink(links[j])
  {
    if |links| == 0 then None
    else if IsSponsorLink(links[0]) then Some(links[0])
    else
      var r := FindSponsorAnchor(links[1..]);
      assert forall i :: 1 <= i < |links| ==> links[i] == links[1..][i - 1];
      if r.Some? then
        var k :| 0 <= k < |links[1..]| && links[1..][k] == r.value && IsSponsorLink(r.value)
          && forall j :: 0 <= j < k ==> !IsSponsorLink(links[1..][j]);
        assert links[k + 1] == r.value;
        r
      else r
  }

  /** `node.querySelector(sel)` for `img` (`withSrc` false) or `img[src]`
      (`withSrc` true, reading a present `src` attribute as a non-empty
      resolved source): the first such element in document order. */
  function FirstImg(es: seq<Elem>, withSrc: bool): (r: Option<Elem>)
    ensures r.None? <==> forall i :: 0 <= i < |es| ==> !(es[i].tag == Img && (withSrc ==> es[i].src != ""))
    ensures r.Some? ==> exists k :: 0 <= k < |es| && es[k] == r.value && r.value.tag == Img &&
                                    (withSrc ==> r.value.src != "") &&
                                    forall j :: 0 <= j < k ==> !(es[j].tag == Img && (withSrc ==> es[j].src != ""))
  {
    if |es| == 0 then None
    else if es[0].tag == Img && (withSrc ==> es[0].src != "") then Some(es[0])
    else
      var r := FirstImg(es[1..], withSrc);
      assert forall i :: 1 <= i < |es| ==> es[i] == es[1..][i - 1];
      if r.Some? then
        var k :| 0 <= k < |es[1..]| && es[1..][k] == r.value && r.value.tag == Img
          && (withSrc ==> r.value.src != "")
          && forall j :: 0 <= j < k ==> !(es[1..][j].tag == Img && (withSrc ==> es[1..][j].src != ""));
        assert es[k + 1] == r.value;
        r
      else r
  }
}
