/**
 The article extractor of `PedagogyParser.parse_articles`: a structural pass
 over `div`/`article`/`section` containers, then a card pass over elements
 carrying one of six class tokens, both appending to one accumulator, which
 is finally cut to its first 15 records.

 `ParseSpec` states the result as a function of the tree; `ParseArticles`
 computes it with the nested loops of `parse_articles` and is proved equal
 to it; the lemmas at the end state what the result satisfies.
 */
module PedagogyParser {
  import opened Text
  import opened HtmlTree
  import opened Records

  /** The site the parser is configured for; every link is resolved against it. */
  const BaseUrl: string := "https://pedsovet.org"

  /** The number of records kept at the end. */
  const MaxArticles: nat := 15

  const ContainerTags: set<string> := {"div", "article", "section"}
  const Headings4: set<string> := {"h1", "h2", "h3", "h4"}
  const Headings6: set<string> := {"h1", "h2", "h3", "h4", "h5", "h6"}

  /** The class tokens of the card pass, in the order they are searched. */
  const CardClasses: seq<string> := ["card", "item", "post", "news", "article", "material"]

  /** `urljoin(base, href)`: reference resolution as section 5.2 of RFC 3986
      describes it, supplied by the caller. */
  type Resolver = (string, string) -> string

  /** `candidate.find('a')` */
  function FirstAnchor(c: Node): Option<Node>
  {
    Find(c, Tags({"a"}))
  }

  /** The href of the candidate's first `<a>`, when that anchor exists and its
      href is present and not empty (`link_tag and link_tag.get('href')`). */
  function AnchorHref(c: Node): (r: Option<string>)
    ensures r.Some? <==> FirstAnchor(c).Some? && Href(FirstAnchor(c).value).Some? && Href(FirstAnchor(c).value).value != ""
    ensures r.Some? ==> r.value != "" && Href(FirstAnchor(c).value) == r
  {
    match FirstAnchor(c)
    case None => None
    case Some(a) =>
      match Href(a)
      case None => None
      case Some(h) => if h != "" then Some(h) else None
  }

  /** The stripped text of the candidate's first `<a>`. */
  function AnchorTitle(c: Node): string
    requires FirstAnchor(c).Some?
  {
    Strip(TextOf(FirstAnchor(c).value))
  }

  /** Field extraction and validation of the structural pass. The title is the
      stripped text of the first `h1`..`h4` if there is one, even when that text
      is empty (such a candidate is then rejected, it does not fall back to the
      anchor), and the stripped anchor text otherwise; the title must be longer
      than 10 characters and the resolved link non-empty. */
  function StructuralExtract(c: Node, baseUrl: string, resolve: Resolver): (r: Option<Article>)
    ensures r.Some? ==> |r.value.title| > 10 && r.value.link != ""
    ensures r.Some? ==> AnchorHref(c).Some? && r.value.link == resolve(baseUrl, AnchorHref(c).value)
    ensures AnchorHref(c).None? ==> r.None?
    ensures Find(c, Tags(Headings4)).Some? && r.Some? ==>
      r.value.title == Strip(TextOf(Find(c, Tags(Headings4)).value))
    ensures Find(c, Tags(Headings4)).Some? && Strip(TextOf(Find(c, Tags(Headings4)).value)) == [] ==> r.None?
    ensures Find(c, Tags(Headings4)).None? && r.Some? ==> r.value.title == AnchorTitle(c)
    ensures AnchorHref(c).Some? && resolve(baseUrl, AnchorHref(c).value) != "" ==>
      var t := if Find(c, Tags(Headings4)).Some? then Strip(TextOf(Find(c, Tags(Headings4)).value)) else AnchorTitle(c);
      |t| > 10 ==> r == Some(Article(t, resolve(baseUrl, AnchorHref(c).value)))
  {
    match AnchorHref(c)
    case None => None
    case Some(href) =>
      var title := match Find(c, Tags(Headings4))
        case Some(h) => Strip(TextOf(h))
        case None => AnchorTitle(c);
      var link := resolve(baseUrl, href);
      if title != "" && |title| > 10 && link != "" then Some(Article(title, link)) else None
  }

  /** Field extraction and validation of the card pass. The title is the
      stripped anchor text, unless that is empty or shorter than 10 characters;
      then the stripped text of the first `h1`..`h6` replaces it if there is
      one. An anchor title of exactly 10 characters is kept, and so rejected by
      the length check. */
  function CardExtract(c: Node, baseUrl: string, resolve: Resolver): (r: Option<Article>)
    ensures r.Some? ==> |r.value.title| > 10 && r.value.link != ""
    ensures r.Some? ==> AnchorHref(c).Some? && r.value.link == resolve(baseUrl, AnchorHref(c).value)
    ensures AnchorHref(c).None? ==> r.None?
    ensures r.Some? && |AnchorTitle(c)| >= 10 ==> r.value.title == AnchorTitle(c)
    ensures r.Some? && |AnchorTitle(c)| < 10 ==>
      Find(c, Tags(Headings6)).Some? && r.value.title == Strip(TextOf(Find(c, Tags(Headings6)).value))
    ensures FirstAnchor(c).Some? && |AnchorTitle(c)| == 10 ==> r.None?
    ensures AnchorHref(c).Some? && resolve(baseUrl, AnchorHref(c).value) != "" ==>
      var link := resolve(baseUrl, AnchorHref(c).value);
      (|AnchorTitle(c)| > 10 ==> r == Some(Article(AnchorTitle(c), link))) &&
      (|AnchorTitle(c)| < 10 && Find(c, Tags(Headings6)).Some? &&
        |Strip(TextOf(Find(c, Tags(Headings6)).value))| > 10 ==>
        r == Some(Article(Strip(TextOf(Find(c, Tags(Headings6)).value)), link)))
  {
    match AnchorHref(c)
    case None => None
    case Some(href) =>
      var anchorTitle := AnchorTitle(c);
      var title :=
        if anchorTitle == "" || |anchorTitle| < 10 then
          match Find(c, Tags(Headings6))
          case Some(h) => Strip(TextOf(h))
          case None => anchorTitle
        else anchorTitle;
      var link := resolve(baseUrl, href);
      if title != "" && |title| > 10 && link != "" then Some(Article(title, link)) else None
  }

  /** The field extraction of one pass, as a value. */
  type Extractor = Node -> Option<Article>

  function StructuralRule(baseUrl: string, resolve: Resolver): Extractor
  {
    c => StructuralExtract(c, baseUrl, resolve)
  }

  function CardRule(baseUrl: string, resolve: Resolver): Extractor
  {
    c => CardExtract(c, baseUrl, resolve)
  }

  /** The records the first `n` candidates yield, in candidate order, before
      duplicates are removed. */
  function ExtractedPrefix(extract: Extractor, cands: seq<Node>, n: nat): (r: seq<Article>)
    requires n <= |cands|
    ensures |r| <= n
  {
    if n == 0 then []
    else
      ExtractedPrefix(extract, cands, n - 1) +
        match extract(cands[n - 1])
        case Some(a) => [a]
        case None => []
  }

  /** The records all the candidates yield. */
  function Extracted(extract: Extractor, cands: seq<Node>): seq<Article>
  {
    ExtractedPrefix(extract, cands, |cands|)
  }

  /** The candidates of the structural pass: `soup.find_all(['div', 'article', 'section'])`. */
  function Containers(soup: Node): seq<Node>
  {
    FindAll(soup, Tags(ContainerTags))
  }

  /** The candidates of the card pass for the first `k` class tokens of
      `classes`: `soup.find_all(class_=c)` for each of them in turn,
      concatenated. */
  function CardsUpTo(soup: Node, classes: seq<string>, k: nat): (r: seq<Node>)
    requires k <= |classes|
  {
    if k == 0 then []
    else CardsUpTo(soup, classes, k - 1) + FindAll(soup, HasClass(classes[k - 1]))
  }

  function Cards(soup: Node): seq<Node>
  {
    CardsUpTo(soup, CardClasses, |CardClasses|)
  }

  /** The card candidates are exactly the elements of the tree that carry one
      of the first `k` class tokens (an element carrying several appears once
      per token). */
  lemma {:induction false} CardsUpToSelects(soup: Node, classes: seq<string>, k: nat)
    requires k <= |classes|
    ensures forall c :: c in CardsUpTo(soup, classes, k) <==>
      c in Descendants(soup) && exists j :: 0 <= j < k && classes[j] in c.classes
  {
    if k > 0 {
      CardsUpToSelects(soup, classes, k - 1);
      FindAllIsFilteredDescendants(soup, HasClass(classes[k - 1]));
      FilterSelects(Descendants(soup), HasClass(classes[k - 1]));
    }
  }

  /** The accumulator after the structural pass. */
  function AfterStructural(soup: Node, baseUrl: string, resolve: Resolver): seq<Article>
  {
    Accumulate(ExactPair, [], Extracted(StructuralRule(baseUrl, resolve), Containers(soup)))
  }

  /** The accumulator after both passes, before truncation. */
  function AfterCards(soup: Node, baseUrl: string, resolve: Resolver): seq<Article>
  {
    Accumulate(EitherField, AfterStructural(soup, baseUrl, resolve),
      Extracted(CardRule(baseUrl, resolve), Cards(soup)))
  }

  /** What `parse_articles` returns for the tree `soup`. */
  function ParseSpec(soup: Node, baseUrl: string, resolve: Resolver): seq<Article>
  {
    Truncate(AfterCards(soup, baseUrl, resolve), MaxArticles)
  }

  /** Offering one candidate: its record, if it yields one, is admitted
      under the policy of the pass. */
  function Offer(p: Policy, extract: Extractor, acc: seq<Article>, c: Node): seq<Article>
  {
    match extract(c)
    case Some(a) => Admit(p, acc, a)
    case None => acc
  }

  /** Every extracted record comes from one of the candidates. */
  lemma {:induction false} ExtractedFrom(extract: Extractor, cands: seq<Node>, n: nat)
    requires n <= |cands|
    ensures forall a :: a in ExtractedPrefix(extract, cands, n) ==> exists c :: c in cands && extract(c) == Some(a)
  {
    if n > 0 {
      ExtractedFrom(extract, cands, n - 1);
      assert cands[n - 1] in cands;
    }
  }

  /** What the first `n` candidates yield depends on those candidates only. */
  lemma {:induction false} ExtractedPrefixAgree(extract: Extractor, xs: seq<Node>, ys: seq<Node>, n: nat)
    requires n <= |xs| && n <= |ys|
    requires forall k :: 0 <= k < n ==> xs[k] == ys[k]
    ensures ExtractedPrefix(extract, xs, n) == ExtractedPrefix(extract, ys, n)
  {
    if n > 0 {
      ExtractedPrefixAgree(extract, xs, ys, n - 1);
    }
  }

  /** Candidates that yield no record contribute nothing. */
  lemma {:induction false} ExtractedNothing(extract: Extractor, cands: seq<Node>, n: nat)
    requires n <= |cands|
    requires forall c :: c in cands ==> extract(c).None?
    ensures ExtractedPrefix(extract, cands, n) == []
  {
    if n > 0 {
      ExtractedNothing(extract, cands, n - 1);
      assert cands[n - 1] in cands;
    }
  }

  /** Extraction works candidate by candidate: extracting from `xs + ys` is
      extracting from `xs`, then from `ys`. */
  lemma {:induction false} ExtractedConcat(extract: Extractor, xs: seq<Node>, ys: seq<Node>, n: nat)
    requires n <= |ys|
    ensures ExtractedPrefix(extract, xs + ys, |xs| + n) == Extracted(extract, xs) + ExtractedPrefix(extract, ys, n)
  {
    if n == 0 {
      ExtractedPrefixAgree(extract, xs + ys, xs, |xs|);
    } else {
      ExtractedConcat(extract, xs, ys, n - 1);
      assert (xs + ys)[|xs| + n - 1] == ys[n - 1];
    }
  }

  /** Offering one more candidate offers its record after those of the ones before. */
  lemma AccumulateExtractedStep(p: Policy, extract: Extractor, acc: seq<Article>, cands: seq<Node>, i: nat)
    requires i < |cands|
    ensures Accumulate(p, acc, ExtractedPrefix(extract, cands, i + 1)) ==
      Offer(p, extract, Accumulate(p, acc, ExtractedPrefix(extract, cands, i)), cands[i])
  {
    var recs := ExtractedPrefix(extract, cands, i);
    match extract(cands[i])
    case Some(a) =>
      assert (recs + [a])[..|recs|] == recs;
    case None =>
      assert recs + [] == recs;
  }

  /** The card candidates of one more class follow those of the classes before it. */
  lemma CardClassStep(soup: Node, acc: seq<Article>, k: nat, extract: Extractor)
    requires k < |CardClasses|
    ensures Accumulate(EitherField, acc, Extracted(extract, CardsUpTo(soup, CardClasses, k + 1))) ==
      Accumulate(EitherField,
        Accumulate(EitherField, acc, Extracted(extract, CardsUpTo(soup, CardClasses, k))),
        Extracted(extract, FindAll(soup, HasClass(CardClasses[k]))))
  {
    var before := CardsUpTo(soup, CardClasses, k);
    var cards := FindAll(soup, HasClass(CardClasses[k]));
    assert CardsUpTo(soup, CardClasses, k + 1) == before + cards;
    ExtractedConcat(extract, before, cards, |cards|);
    AccumulateConcat(EitherField, acc, Extracted(extract, before), Extracted(extract, cards));
  }

  /** The duplicate scan of the card pass: is there a record with the same
      title or the same link? */
  method ScanForDuplicate(articles: seq<Article>, title: string, link: string) returns (isDuplicate: bool)
    ensures isDuplicate <==> exists e :: e in articles && (e.title == title || e.link == link)
  {
    isDuplicate := false;
    var i := 0;
    while i < |articles|
      invariant 0 <= i <= |articles|
      invariant forall k :: 0 <= k < i ==> articles[k].title != title && articles[k].link != link
    {
      var existing := articles[i];
      if existing.title == title || existing.link == link {
        isDuplicate := true;
        break;
      }
      i := i + 1;
    }
  }

  /** One iteration of the structural loop: offer `container` to the
      accumulator, which must not already hold the same (title, link) pair. */
  method OfferContainer(articles: seq<Article>, container: Node, baseUrl: string, resolve: Resolver)
    returns (next: seq<Article>)
    ensures next == Offer(ExactPair, StructuralRule(baseUrl, resolve), articles, container)
  {
    next := articles;
    var linkTag := Find(container, Tags({"a"}));
    if linkTag.Some? && Href(linkTag.value).Some? && Href(linkTag.value).value != "" {
      var titleTag := Find(container, Tags(Headings4));
      var title: string;
      if titleTag.Some? {
        title := Strip(TextOf(titleTag.value));
      } else {
        title := Strip(TextOf(linkTag.value));
      }
      var link := Href(linkTag.value).value;
      if link != "" {
        link := resolve(baseUrl, link);
      }
      if title != "" && |title| > 10 && link != "" {
        var articleData := Article(title, link);
        if articleData !in next {
          next := next + [articleData];
        }
      }
    }
  }

  /** One iteration of the card loop: offer `card` to the accumulator, which
      must hold no record with the same title or the same link. */
  method OfferCard(articles: seq<Article>, card: Node, baseUrl: string, resolve: Resolver)
    returns (next: seq<Article>)
    ensures next == Offer(EitherField, CardRule(baseUrl, resolve), articles, card)
  {
    next := articles;
    var linkTag := Find(card, Tags({"a"}));
    if linkTag.Some? && Href(linkTag.value).Some? && Href(linkTag.value).value != "" {
      var title := Strip(TextOf(linkTag.value));
      if title == "" || |title| < 10 {
        var header := Find(card, Tags(Headings6));
        if header.Some? {
          title := Strip(TextOf(header.value));
        }
      }
      var link := resolve(baseUrl, Href(linkTag.value).value);
      if title != "" && |title| > 10 && link != "" {
        var isDuplicate := ScanForDuplicate(next, title, link);
        if !isDuplicate {
          next := next + [Article(title, link)];
        }
      }
    }
  }

  /** The structural pass: every `div`, `article` and `section`, in document order. */
  method StructuralPass(soup: Node, baseUrl: string, resolve: Resolver) returns (articles: seq<Article>)
    ensures articles == AfterStructural(soup, baseUrl, resolve)
  {
    articles := [];
    var containers := FindAll(soup, Tags(ContainerTags));
    for i := 0 to |containers|
      invariant articles == Accumulate(ExactPair, [], ExtractedPrefix(StructuralRule(baseUrl, resolve), containers, i))
    {
      articles := OfferContainer(articles, containers[i], baseUrl, resolve);
      AccumulateExtractedStep(ExactPair, StructuralRule(baseUrl, resolve), [], containers, i);
    }
  }

  /** The card pass: for each card class in turn, every element carrying it,
      in document order, offered to the accumulator `acc` of the structural pass. */
  method CardsPass(soup: Node, acc: seq<Article>, baseUrl: string, resolve: Resolver) returns (articles: seq<Article>)
    ensures articles == Accumulate(EitherField, acc, Extracted(CardRule(baseUrl, resolve), Cards(soup)))
  {
    articles := acc;
    for k := 0 to |CardClasses|
      invariant articles == Accumulate(EitherField, acc, Extracted(CardRule(baseUrl, resolve), CardsUpTo(soup, CardClasses, k)))
    {
      var cards := FindAll(soup, HasClass(CardClasses[k]));
      ghost var start := articles;
      for j := 0 to |cards|
        invariant articles == Accumulate(EitherField, start, ExtractedPrefix(CardRule(baseUrl, resolve), cards, j))
      {
        articles := OfferCard(articles, cards[j], baseUrl, resolve);
        AccumulateExtractedStep(EitherField, CardRule(baseUrl, resolve), start, cards, j);
      }
      CardClassStep(soup, acc, k, CardRule(baseUrl, resolve));
    }
  }

  /** `parse_articles(soup)`, with `base_url` and `urljoin` passed in. */
  method ParseArticles(soup: Node, baseUrl: string, resolve: Resolver) returns (articles: seq<Article>)
    ensures articles == ParseSpec(soup, baseUrl, resolve)
    ensures |articles| <= MaxArticles
    ensures forall a :: a in articles ==> |a.title| > 10 && a.link != ""
    ensures Distinct(articles)
  {
    articles := StructuralPass(soup, baseUrl, resolve);
    articles := CardsPass(soup, articles, baseUrl, resolve);
    // Keep the first 15.
    articles := articles[..Min(MaxArticles, |articles|)];
    ResultRecordsSound(soup, baseUrl, resolve);
    ResultHasNoDuplicates(soup, baseUrl, resolve);
  }

  /** `run()`: no tree (the page could not be fetched) gives no records;
      otherwise the records of `parse_articles` for the configured site. */
  method Run(page: Option<Node>, resolve: Resolver) returns (articles: seq<Article>)
    ensures page.None? ==> articles == []
    ensures page.Some? ==> articles == ParseSpec(page.value, BaseUrl, resolve)
    ensures |articles| <= MaxArticles
  {
    if page.None? {
      return [];
    }
    articles := ParseArticles(page.value, BaseUrl, resolve);
  }

  /** The result is the first `min(15, n)` of the `n` accumulated records, in order. */
  lemma ResultIsCappedPrefix(soup: Node, baseUrl: string, resolve: Resolver)
    ensures var all := AfterCards(soup, baseUrl, resolve); var r := ParseSpec(soup, baseUrl, resolve);
      |r| <= MaxArticles && |r| == Min(MaxArticles, |all|) && r == all[..|r|]
  {
  }

  /** Every returned record was produced by one candidate of one pass: its title
      is longer than 10 characters and its link is the resolution of that
      candidate's first anchor's href. */
  lemma ResultRecordsSound(soup: Node, baseUrl: string, resolve: Resolver)
    ensures forall a :: a in ParseSpec(soup, baseUrl, resolve) ==>
      (exists c :: c in Containers(soup) && StructuralExtract(c, baseUrl, resolve) == Some(a)) ||
      (exists c :: c in Cards(soup) && CardExtract(c, baseUrl, resolve) == Some(a))
    ensures forall a :: a in ParseSpec(soup, baseUrl, resolve) ==>
      |a.title| > 10 && a.link != "" &&
      exists c :: c in Containers(soup) + Cards(soup) && AnchorHref(c).Some? &&
        a.link == resolve(baseUrl, AnchorHref(c).value)
  {
    var r := ParseSpec(soup, baseUrl, resolve);
    var all := AfterCards(soup, baseUrl, resolve);
    var p1 := AfterStructural(soup, baseUrl, resolve);
    var recs1 := Extracted(StructuralRule(baseUrl, resolve), Containers(soup));
    var recs2 := Extracted(CardRule(baseUrl, resolve), Cards(soup));
    AccumulateFrom(ExactPair, [], recs1);
    AccumulateFrom(EitherField, p1, recs2);
    ExtractedFrom(StructuralRule(baseUrl, resolve), Containers(soup), |Containers(soup)|);
    ExtractedFrom(CardRule(baseUrl, resolve), Cards(soup), |Cards(soup)|);
    forall a | a in r
      ensures (exists c :: c in Containers(soup) && StructuralExtract(c, baseUrl, resolve) == Some(a)) ||
              (exists c :: c in Cards(soup) && CardExtract(c, baseUrl, resolve) == Some(a))
      ensures |a.title| > 10 && a.link != "" &&
        exists c :: c in Containers(soup) + Cards(soup) && AnchorHref(c).Some? &&
          a.link == resolve(baseUrl, AnchorHref(c).value)
    {
      assert a in all;
      if a in p1 {
        assert a in recs1;
        var c :| c in Containers(soup) && StructuralRule(baseUrl, resolve)(c) == Some(a);
        assert c in Containers(soup) + Cards(soup);
      } else {
        assert a in recs2;
        var c :| c in Cards(soup) && CardRule(baseUrl, resolve)(c) == Some(a);
        assert c in Containers(soup) + Cards(soup);
      }
    }
  }

  /** No (title, link) pair occurs twice, neither after the structural pass nor
      in the result, and every record of the card pass differs in title and in
      link from every record before it. */
  lemma ResultHasNoDuplicates(soup: Node, baseUrl: string, resolve: Resolver)
    ensures Distinct(AfterStructural(soup, baseUrl, resolve))
    ensures Distinct(ParseSpec(soup, baseUrl, resolve))
    ensures FreshFrom(ParseSpec(soup, baseUrl, resolve), |AfterStructural(soup, baseUrl, resolve)|)
  {
    var p1 := AfterStructural(soup, baseUrl, resolve);
    var recs2 := Extracted(CardRule(baseUrl, resolve), Cards(soup));
    AccumulateKeepsDistinct(ExactPair, [], Extracted(StructuralRule(baseUrl, resolve), Containers(soup)));
    AccumulateKeepsDistinct(EitherField, p1, recs2);
    EitherFieldAdmitsFresh(p1, recs2, |p1|);
    TruncateKeeps(AfterCards(soup, baseUrl, resolve), MaxArticles, |p1|);
  }

  /** The accumulator is append-only: the structural records come first, in
      the document order of their containers; the card records follow, in the
      order of the card candidates (class list order, then document order). */
  lemma ResultKeepsPassOrder(soup: Node, baseUrl: string, resolve: Resolver)
    ensures var p1 := AfterStructural(soup, baseUrl, resolve); var all := AfterCards(soup, baseUrl, resolve);
      |p1| <= |all| && all[..|p1|] == p1 &&
      IsSubsequence(p1, Extracted(StructuralRule(baseUrl, resolve), Containers(soup))) &&
      IsSubsequence(all[|p1|..], Extracted(CardRule(baseUrl, resolve), Cards(soup)))
  {
    var recs1 := Extracted(StructuralRule(baseUrl, resolve), Containers(soup));
    AccumulateKeepsOrder(ExactPair, [], recs1);
    assert Accumulate(ExactPair, [], recs1)[0..] == Accumulate(ExactPair, [], recs1);
    AccumulateKeepsOrder(EitherField, AfterStructural(soup, baseUrl, resolve),
      Extracted(CardRule(baseUrl, resolve), Cards(soup)));
  }

  /** A tree none of whose candidates has a first anchor with a non-empty href
      (in particular, a tree with no candidates at all) yields no records. */
  lemma NoUsableAnchorNoRecords(soup: Node, baseUrl: string, resolve: Resolver)
    requires forall c :: c in Containers(soup) + Cards(soup) ==> AnchorHref(c).None?
    ensures ParseSpec(soup, baseUrl, resolve) == []
  {
    forall c | c in Containers(soup) ensures StructuralRule(baseUrl, resolve)(c).None? {
      assert c in Containers(soup) + Cards(soup);
    }
    forall c | c in Cards(soup) ensures CardRule(baseUrl, resolve)(c).None? {
      assert c in Containers(soup) + Cards(soup);
    }
    ExtractedNothing(StructuralRule(baseUrl, resolve), Containers(soup), |Containers(soup)|);
    ExtractedNothing(CardRule(baseUrl, resolve), Cards(soup), |Cards(soup)|);
  }
}
