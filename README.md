# Article extraction of the pedsovet.org parser

`PedagogyParser.parse_articles` takes a parsed HTML page and returns up to
15 article records, each with a title and an absolute link. It makes two
passes over the page and appends to a single list:

1. The **structural pass** visits every `div`, `article` and `section` in
   document order.
   - The candidate needs a first `<a>` that has a non-empty `href`.
   - Its title is the stripped text of its first `h1`..`h4` if it has one.
     Otherwise the title is the stripped text of the anchor.
   - The link is the `href` resolved against `https://pedsovet.org`.
   - The record is kept if the title is longer than 10 characters, the link
     is not empty, and the same (title, link) pair is not already in the list.
2. The **card pass** visits, for each of the class tokens `card`, `item`,
   `post`, `news`, `article` and `material` in turn, every element carrying
   that token, in document order.
   - The title is the stripped anchor text.
   - When that text is empty or shorter than 10 characters, the text of the
     first `h1`..`h6` replaces it, if there is such a heading.
   - The same length check and link check apply as in the structural pass.
   - The record is rejected when any earlier record has the same title or
     the same link.
3. The list is cut to its first 15 records.

The model has four modules:

- `Text` models Python's `str.strip()`, with the exact character set of
  `str.isspace()`.
- `HtmlTree` is the page as an immutable tree, with the BeautifulSoup queries
  the parser uses: `find`, `find_all`, `.text` and `.get('href')`.
- `Records` holds the article records, the two duplicate policies,
  append-only accumulation and truncation.
- `PedagogyParser` holds the extractor:
  - `ParseSpec` states the result as a function of the tree.
  - `ParseArticles` runs the nested loops of `parse_articles`, including the early-exit
    duplicate scan, and is proved equal to `ParseSpec`.
  - Lemmas state what every result satisfies.

`urljoin` is a parameter (`Resolver`); the caller supplies it. Strings are
sequences of Unicode scalar values, so `len` on a title and the length of the
Dafny string agree.

### Behaviour of `parse_articles` worth noting

- **Card-pass gate.** The code always runs the card pass. It is not skipped
  when the structural pass already found enough records.
- **Card-pass length threshold.** The card pass falls back to a heading when
  the anchor text is shorter than 10 characters. An anchor text of exactly
  10 characters is kept, and the length check then rejects the record
  (`CardExtract`).
- **Empty heading in the structural pass.** A candidate that has an
  `h1`..`h4` heading always takes its title from that heading, even when the
  heading's text is empty. Such a candidate is rejected; it does not fall
  back to the anchor text (`StructuralExtract`).
- **Where the cap of 15 applies.** The limit is applied once, to the final
  list, not when records are admitted (`ResultIsCappedPrefix`).
- **Two duplicate policies.** The structural pass only rejects an identical
  (title, link) pair. The card pass rejects a repeated title or a repeated
  link. So two structural records may share a title (`SameTitlePolicies`).

## Model

| member | source | states |
|---|---|---|
| Text.StripIsInfix | parser_ped.py:102 | `strip()` removes whitespace only, and only from the two ends. The result is the infix between the first and last non-space characters. It is empty exactly when the input is all whitespace. |
| HtmlTree.FindAllIsFilteredDescendants | parser_ped.py:91 | `find_all` returns exactly the descendants the matcher accepts, in document order. |
| HtmlTree.FilterSelects | parser_ped.py:130 | A filtered list contains an element if and only if the element is in the input and matches. |
| HtmlTree.FilterConcat | parser_ped.py:91 | Filtering distributes over concatenation. |
| HtmlTree.FindIsFirstOfFindAll | parser_ped.py:95 | `find` returns the first element of `find_all`, and returns nothing exactly when `find_all` is empty. |
| PedagogyParser.AnchorHref | parser_ped.py:95-97 | The candidate qualifies exactly when its first `<a>` exists and has a present, non-empty `href`. That `href` is then the value returned. |
| PedagogyParser.StructuralExtract | parser_ped.py:99-118 | A record is produced only for a qualifying anchor. Its link is the resolved `href`. Its title is the `h1`..`h4` text when a heading exists, otherwise the anchor text. An empty heading rejects the candidate. Accepted titles are longer than 10 characters and links are non-empty. Every candidate that passes these checks is accepted. |
| PedagogyParser.CardExtract | parser_ped.py:133-148 | The title is the anchor text when it has 10 or more characters, otherwise the `h1`..`h6` text. An anchor text of exactly 10 characters is rejected. Links and lengths are as in the structural pass, and every candidate that passes the checks is accepted. |
| PedagogyParser.CardsUpToSelects | parser_ped.py:127-130 | The card candidates are exactly the elements of the page that carry one of the card class tokens. |
| PedagogyParser.ExtractedFrom | parser_ped.py:93-122 | Every extracted record comes from some candidate of the pass. |
| PedagogyParser.ExtractedNothing | parser_ped.py:93-97 | Candidates that yield no record contribute no records. |
| PedagogyParser.ExtractedConcat | parser_ped.py:129-132 | Extracting from the candidates of several classes in turn is extracting from their concatenation. |
| PedagogyParser.ScanForDuplicate | parser_ped.py:151-156 | The scan with early exit reports a duplicate exactly when some stored record has the same title or the same link. |
| PedagogyParser.OfferContainer | parser_ped.py:95-122 | One structural iteration: the accumulator gains the candidate's record when it is valid and not already present as an identical pair. |
| PedagogyParser.OfferCard | parser_ped.py:133-159 | One card iteration: the accumulator gains the candidate's record when it is valid and neither its title nor its link is already present. |
| PedagogyParser.StructuralPass | parser_ped.py:85-122 | The loop over containers produces the exact-pair accumulation of their records, in document order. |
| PedagogyParser.CardsPass | parser_ped.py:127-159 | The nested loops over classes and cards produce the either-field accumulation of the card records, in class order and then document order, starting from the structural result. |
| PedagogyParser.ParseArticles | parser_ped.py:79-165 | The result equals `ParseSpec`. It has at most 15 records, every title is longer than 10 characters, every link is non-empty, and no record repeats. |
| PedagogyParser.Run | parser_ped.py:196-204 | A page that could not be fetched yields no records. Otherwise the result is `parse_articles` for the configured site. |
| PedagogyParser.ResultIsCappedPrefix | parser_ped.py:162 | The result is the first `min(15, n)` of the `n` accumulated records, in order. |
| PedagogyParser.ResultRecordsSound | parser_ped.py:107-114 | Every returned record comes from a container or a card. It has a title longer than 10 characters and a link that resolves some candidate's first `href`. |
| PedagogyParser.ResultHasNoDuplicates | parser_ped.py:121-159 | No (title, link) pair repeats after the structural pass or in the result. Every card record differs in title and in link from every record before it. |
| PedagogyParser.ResultKeepsPassOrder | parser_ped.py:85-159 | The structural records come first, in container order. The card records follow, in card order. Each pass keeps a subsequence of what it extracted. |
| PedagogyParser.NoUsableAnchorNoRecords | parser_ped.py:97 | A page with no candidate whose first anchor has a non-empty `href` yields no records. |
| Records.Accumulate | parser_ped.py:122 | The accumulation is append-only: the old records stay in front, and at most one record is added per offered record. |
| Records.AccumulateFrom | parser_ped.py:122 | Everything in the accumulator was there before or was offered. |
| Records.AccumulateConcat | parser_ped.py:129-159 | Offering two lists in turn is offering their concatenation. |
| Records.AccumulateKeepsDistinct | parser_ped.py:121-122 | Both policies keep the accumulator free of repeated records. |
| Records.EitherFieldAdmitsFresh | parser_ped.py:151-159 | Under the card policy, every record admitted differs in title and in link from every record before it. |
| Records.AccumulateKeepsOrder | parser_ped.py:122 | The added records are a subsequence of the offered ones, in offer order. |
| Records.SameTitlePolicies | parser_ped.py:121 | For two records with one title and two links, the structural policy keeps both and the card policy keeps only the first. |
| Records.Truncate | parser_ped.py:162 | `s[:n]` has length `min(n, len(s))` and is a prefix of `s`. |
| Records.TruncateKeeps | parser_ped.py:162 | Truncation preserves the absence of duplicates. |

## Left out

- Fetching the page (`get_page`, the HTTP session and its User-Agent header) is left out. The model starts from the parsed tree, and `Run` takes the fetch outcome as an `Option`.
- HTML parsing (BeautifulSoup's tree building) is left out. The page is given as an already-built `Node` tree.
- `urljoin` is not modelled. It is the `Resolver` parameter, reference resolution as section 5.2 of RFC 3986 describes it. The model therefore proves nothing about what a resolved link looks like, only that the parser accepts or rejects it as written.
- HtmlTree.TextOf: `.text` is an element's own text followed by its children's text. Text that BeautifulSoup places between or after child elements is represented by a leaf child with tag `""`, no classes and no attributes, carrying that text run. No query of the parser's matches such a leaf, so `TextOf` then gives the document-order text exactly. The model does not check that a given tree uses this encoding.
- HtmlTree.Matches: `find_all(class_=c)` is modelled as membership of `c` among the element's class tokens. BeautifulSoup's other ways of matching the full class string are not modelled.
- `find_all_elements_demo`, `display_results` and `save_to_json` are left out. They only print or write files and do not affect the records. The progress messages printed by `parse_articles` are left out for the same reason.
- Exceptions from the network or the filesystem are left out. `get_page` (parser_ped.py:32-34) catches the network errors and returns `None`; `run` models that outcome as `None`. `save_to_json` (parser_ped.py:185-187) catches the file errors. `run` itself catches nothing.
- PedagogyParser.StructuralExtract: `urljoin` raises `ValueError` for some hrefs, such as an unterminated IPv6 host (`http://[x`). The call at parser_ped.py:111 happens before the title check at :114, and nothing in `parse_articles` or `run` catches the error, so one such container ends the whole extraction with an exception. The model's `Resolver` is total, so this error path is not modelled and `ParseArticles` always returns a list.
- PedagogyParser.CardExtract: the same applies to the `urljoin` call at parser_ped.py:142, which happens before the title check at :144. One such card ends the whole extraction with an exception, and the model does not capture that.
