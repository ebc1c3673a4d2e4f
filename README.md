# Web scraper and summarizer: a verified model

This project models the core of a small web-scraping service. Given a seed URL, it
crawls pages breadth-first on the seed's domain, with limits on the number of pages, the
depth and the links taken per page. It extracts configurable sections from each page:
title, meta description, headings, paragraphs, tables, links and images. Beside the
crawler, a summarizer splits text into clean, good-quality sentences and picks an
executive summary and non-redundant highlights. A browser script then shows the results:
it escapes text for HTML, awards insight badges, picks preview links and images, and
filters and sorts the result list.

The model is written in Dafny, one module per source file, plus a few shared modules:

- `Wrappers`: `Option`.
- `Text`: the ASCII string operations the source uses from Python and JavaScript.
- `Dom`: a document tree in place of BeautifulSoup.
- `Sorting`: the stable sort behind `list.sort` and `Array.prototype.sort`.

The crawler, the filter and the loops of the summarizer and of the results script are
imperative: they are modelled as methods with loop invariants, and each is proved equal
to a specification function or to a stated invariant. The URL utilities, the sentence
rules and the display selections are pure: they are modelled as functions with lemmas.

Normalizing a normalized URL does not always give it back: the code is idempotent only
for a normalized URL with no surrounding whitespace that does not begin with lowercase `javascript:`
(`Urls.NormalizeIdempotent`). A link written `JavaScript:...` in mixed case passes the
case-sensitive skip test. It normalizes to a lowercase `javascript:` URL, which a second
normalization then drops (`Urls.NormalizeMixedCaseJavascript`). The crawl is
unaffected, because such a URL is not http(s) and is never followed. The model follows
the code.

The abbreviation set of the sentence splitter is all lowercase and Python's `replace` is
case-sensitive, so `Dr.` and `Mr.` at the start of a sentence are not protected
(`Sentences.AbbreviationsShaped` states the shape the protection relies on).

## Model

| member | source | states |
|---|---|---|
| Urls.ValidUrlPrefix | scraper/utils.py:4-12 | a valid URL begins, up to ASCII case, with `http://` or `https://` |
| Urls.ValidHasDomain | scraper/utils.py:4-12 | a valid URL has a non-empty domain |
| Urls.ValidUrlFirst | scraper/utils.py:4-12 | a valid URL begins with `h` or `H` |
| Urls.UnparseValid | scraper/utils.py:4-12 | every well-formed http(s) record with a netloc prints as a valid URL |
| Urls.ValidBase | scraper/utils.py:4-12 | a valid base splits into a well-formed record whose scheme both resolves relative references and takes a netloc |
| Urls.SchemeEnd | scraper/utils.py:9 | a scheme ends at a `:` preceded by a letter and then only scheme characters |
| Urls.NetlocEnd | scraper/utils.py:9 | the netloc after `//` runs up to the first `/`, `?` or `#` |
| Urls.RoundTrip | scraper/utils.py:32-33 | `urlsplit(urlunsplit(u)) == u` for every record `urlsplit` can produce |
| Urls.SplitWellFormed | scraper/utils.py:32 | every record `urlsplit` produces is well-formed, so the round trip applies to it |
| Urls.SplitUnparseCanon | scraper/utils.py:32-33 | `urlunsplit` adds the missing `/` between a netloc and a relative path, and splitting its output gives the repaired record |
| Urls.MergePathDotFree | scraper/utils.py:30 | the merged and dot-resolved path of `urljoin` has no `.` or `..` segment |
| Urls.MergePathAvoids | scraper/utils.py:30 | merging paths introduces no character other than `/` |
| Urls.JoinParsedSplits | scraper/utils.py:30-32 | joining a parsed reference to a valid base gives a URL that splits into a well-formed record with a scheme and, unless the scheme changed, a netloc |
| Urls.ResolveSplits | scraper/utils.py:30-32 | a reference resolved against a base keeps the reference's scheme and the base's netloc, and splits back to a well-formed record |
| Urls.DropFragmentOf | scraper/utils.py:32-33 | `_replace(fragment='').geturl()` prints the record without its fragment, and that output splits back to the record |
| Urls.NormalizeUrl | scraper/utils.py:14-35 | None for an empty link, and None when the stripped link starts with `#` or `javascript:` |
| Urls.NormalizeDropsFragment | scraper/utils.py:30-33 | every normalized URL parses and has an empty fragment |
| Urls.NormalizeBlankLink | scraper/utils.py:19-33 | a whitespace-only link passes the emptiness test, is stripped to "" and resolves to the base without its fragment |
| Urls.NormalizeAbsoluteIgnoresBase | scraper/utils.py:29-33 | a link with a scheme and a netloc normalizes the same way against any base, and against none |
| Urls.NormalizeAbsolute | scraper/utils.py:19-33 | an absolute link normalizes to itself stripped and without its fragment, unless it is skipped |
| Urls.NormalizeSettled | scraper/utils.py:29-33 | against a valid base, a normalized URL splits into a well-formed record with a scheme, no fragment, and a netloc unless it changed scheme |
| Urls.NormalizeIdempotent | scraper/utils.py:14-35 | normalizing a normalized URL again gives it back, when it has no surrounding whitespace and is not a lowercase `javascript:` URL |
| Urls.NormalizeMixedCaseJavascript | scraper/utils.py:26-33 | a `JavaScript:` link escapes the case-sensitive skip test and comes out as a `javascript:` URL, which the skip test does reject |
| Urls.GetDomain | scraper/utils.py:37-44 | the netloc, or "" when parsing raises; it never holds `/`, `?` or `#` |
| Urls.GetDomainOfUnparse | scraper/utils.py:37-44 | the domain of a printed well-formed record is its netloc |
| Urls.GetDomainRelative | scraper/utils.py:37-44 | a reference without a scheme that does not start with `//` has domain "" |
| Urls.SchemeNoNetloc | scraper/utils.py:37-44 | a URL `scheme:rest` whose rest does not start with `//` has domain "" |
| Dom.Forest | scraper/filters.py:66 | the pre-order listing below a node has at least one position per child |
| Dom.ForestAncestors | scraper/filters.py:162 | a node's ancestors are listed nearest first, ending with the ancestors of the subtree's root |
| Dom.Select | scraper/filters.py:66 | `find_all(tags)` keeps exactly the nodes with one of the tags, and no more nodes than it was given |
| Dom.SelectConcat | scraper/filters.py:66 | `find_all` keeps document order: selecting from two stretches of nodes gives the selection from the first followed by the selection from the second |
| Dom.SelectOne | scraper/filters.py:66 | a single node is kept exactly when it has one of the tags |
| Dom.SelectFirst | scraper/filters.py:34 | the first node `find_all` keeps is a node with one of the tags that has no such node before it |
| Dom.Find | scraper/filters.py:29-34 | `find` (and `soup.title`) gives the first descendant in document order with one of the tags, and None exactly when `find_all` is empty |
| Dom.FirstNamed | scraper/filters.py:162-167 | the ancestor search of `find_parent`: the nearest ancestor element with the tag, with none nearer, and None exactly when no ancestor has it |
| Dom.ParentTagsFindParent | scraper/filters.py:162-167 | a tag is among `[p.name for p in a.parents]` exactly when `find_parent(tag)` finds an element |
| Dom.Stripped | scraper/filters.py:67 | with `strip=True` every text piece is non-empty and trimmed |
| Dom.StrippedEmpty | scraper/filters.py:67 | no text pieces remain exactly when every string strips to nothing |
| Dom.GetTextEmpty | scraper/filters.py:67-68 | `get_text(sep, strip=True)` is "" exactly when every string of the node is blank |
| Dom.JoinNonEmpty | scraper/filters.py:67 | joining non-empty pieces gives "" only for no pieces |
| Dom.JoinStrippedEnds | scraper/filters.py:67 | joining trimmed pieces gives a trimmed text |
| Dom.GetTextTrimmed | scraper/filters.py:67 | `get_text(" ", strip=True)` has no leading or trailing whitespace |
| Parser.Parse | scraper/parser.py:9-20 | None exactly for empty input; otherwise the lxml tree, or the html.parser tree when lxml fails |
| Parser.Anchors | scraper/parser.py:31 | `find_all('a', href=True)`: exactly the anchors of the document that have an href |
| Parser.AnchorsOf | scraper/parser.py:31 | exactly the anchors with an href among the given nodes |
| Parser.ExtractLinks | scraper/parser.py:23-35 | no document gives the empty set; otherwise the set holds exactly the verbatim hrefs of the anchors that have one |
| Filters.TitleCases | scraper/filters.py:27-39 | the title text with whitespace collapsed if it has text, else the first `h1`'s text collapsed, else "No Title"; a non-default title is single-spaced |
| Filters.FirstWithAttr | scraper/filters.py:45 | `find('meta', attrs=...)` gives the first element with the attribute value, None when there is none |
| Filters.MetaContent | scraper/filters.py:45-47 | a meta content value is stripped |
| Filters.MetaDescriptionPriority | scraper/filters.py:41-61 | the first non-empty of `name=description`, `property=og:description` and `name=twitter:description`, stripped; "" exactly when all three are empty |
| Filters.TextsOf | scraper/filters.py:67 | one text per element |
| Filters.Longer | scraper/filters.py:78 | every kept text is longer than the bound |
| Filters.LongerMembers | scraper/filters.py:78-79 | a text is kept exactly when it is longer than the bound |
| Filters.KeptTextsMembers | scraper/filters.py:63-80 | headings (bound 0) and paragraphs (bound 20) are exactly the texts of the selected elements longer than the bound |
| Filters.CellTexts | scraper/filters.py:96 | one text per `th` or `td` cell |
| Filters.StartIndex | scraper/filters.py:115-120 | the row scan starts at 0 or 1, within the rows |
| Filters.RowsOf | scraper/filters.py:122-130 | every kept row has a non-empty cell |
| Filters.RowsFromBody | scraper/filters.py:122-130 | every kept row is the cell texts of a `tr` outside any `thead`, with a non-empty cell |
| Filters.FirstRowDropped | scraper/filters.py:114-122 | the first `tr` is skipped exactly when there are headers, no `thead`, the row has cells and its cell texts equal the headers |
| Filters.TablesOf | scraper/filters.py:134-136 | every kept table has rows or more than one header |
| Filters.TablesFromOuter | scraper/filters.py:85-88 | every kept table comes from a table that is not nested in another table |
| Filters.ContextByAncestors | scraper/filters.py:160-168 | the context is `nav` under a nav or header, else `footer` under a footer, else `sidebar` under an aside or a widget div, else `content` |
| Filters.KindWithoutSite | scraper/filters.py:170-176 | with no configured domain, an href whose domain differs from the page's is judged by its prefix alone |
| Filters.KindByPrefix | scraper/filters.py:170-176 | an href that is not root-relative and not on the site is `email` for `mailto:`, `phone` for `tel:`, else `external` |
| Filters.OpaqueHrefOffSite | scraper/filters.py:170-176 | on a page with a domain, a `mailto:`-like href without an authority is never internal by domain, and so is classified by prefix |
| Filters.ForeignHrefExternal | scraper/filters.py:170-176 | with no configured domain, a valid URL on another domain is `external` |
| Filters.LinkTarget | scraper/filters.py:145-156 | an anchor is recorded under a non-empty href |
| Filters.LinkOf | scraper/filters.py:178-183 | a link records its href, its context, and its text or, when that is empty, the href |
| Filters.LinksOf | scraper/filters.py:141-184 | the seen set is exactly the set of emitted hrefs, and no href is emitted twice |
| Filters.LinksCover | scraper/filters.py:144-158 | an href is emitted exactly when some anchor has it as target |
| Filters.LinkStepSeen | scraper/filters.py:155-158 | after one anchor the seen set gains exactly that anchor's target |
| Filters.SrcsetUrls | scraper/filters.py:197-209 | every `srcset` candidate is non-empty |
| Filters.FirstWord | scraper/filters.py:207 | `part.split()[0]` is a non-empty word without whitespace |
| Filters.FreshSource | scraper/filters.py:216-225 | a usable candidate normalizes to a non-empty URL not yet seen |
| Filters.ChooseSource | scraper/filters.py:214-228 | the chosen source is the first usable candidate; None exactly when no candidate is usable |
| Filters.ImageOf | scraper/filters.py:232-247 | an image keeps its source, width and height; its alt is the stripped alt text, or "Image" when that is empty |
| Filters.ImagesOf | scraper/filters.py:187-248 | emitted sources are distinct and all recorded as seen |
| Filters.IconBlocksSource | scraper/filters.py:214-240 | for any page URL, an image dropped as an icon by its width or its height adds nothing but its source to `seen_src`, so a later image whose candidates all resolve to that source is dropped too |
| Filters.ExtractKeys | scraper/filters.py:21-27 | no document gives the empty dictionary; otherwise a section is present exactly when its flag is set |
| Filters.ContentFilter.constructor | scraper/filters.py:8-19 | the filter holds the `sections` configuration |
| Filters.ContentFilter.Extract | scraper/filters.py:21-250 | the dictionary it builds section by section equals the extraction function of the document |
| Filters.ContentFilter.CollectTexts | scraper/filters.py:63-80 | the heading and paragraph loops build exactly the kept texts |
| Filters.ContentFilter.CollectTables | scraper/filters.py:83-137 | the tables loop builds exactly the kept tables |
| Filters.ContentFilter.ReadTable | scraper/filters.py:90-132 | headers and rows as the table rules give them |
| Filters.ContentFilter.ReadRows | scraper/filters.py:122-130 | the row loop keeps exactly the rows with text outside `thead` |
| Filters.ContentFilter.CollectLinks | scraper/filters.py:139-184 | the loop over anchors with its `seen_links` set builds exactly the specified links |
| Filters.ContentFilter.CollectImages | scraper/filters.py:186-248 | the loop over images with its `seen_src` set builds exactly the specified images |
| Filters.ContentFilter.FirstFreshSource | scraper/filters.py:214-225 | the candidate loop stops at the first usable candidate |
| Crawler.TakeLinks | scraper/scraper.py:60-74 | for any normalization and test: only kept normalizations, as many as there are kept hrefs up to the cap, and all of them when fewer than the cap are taken |
| Crawler.QueueAdds | scraper/scraper.py:143-145 | appending an unscheduled URL keeps queue entries distinct and at their recorded depths |
| Crawler.QueueDrop | scraper/scraper.py:107 | what is left after popping entries from the front keeps distinct URLs at their recorded depths |
| Crawler.QueueTake | scraper/scraper.py:107 | the popped entries keep distinct URLs at their recorded depths |
| Crawler.QueueSnoc | scraper/scraper.py:114 | a batch built from popped entries keeps the invariant |
| Crawler.BeforeApart | scraper/scraper.py:104-114 | every batch entry comes from the queue, and no URL in the batch is still in the queue |
| Crawler.UnvisitedCovers | scraper/scraper.py:107-114 | every popped entry is either already visited or in the batch, and the batch holds only popped, unvisited entries |
| Crawler.UnvisitedOk | scraper/scraper.py:107-114 | the batch kept from a well-formed queue has distinct URLs at their recorded depths |
| Crawler.UnvisitedUrls | scraper/scraper.py:107-114 | the URL of every popped entry is visited or in the batch |
| Crawler.CoverWave | scraper/scraper.py:93-145 | a wave keeps every scheduled URL visited or still queued |
| Crawler.QueueUrlsCard | scraper/scraper.py:99 | a queue holds no more URLs than entries |
| Crawler.NextUnvisited | scraper/scraper.py:126-133 | the next batch entry's URL is not among those visited earlier in the batch loop |
| Crawler.ScraperEngine.constructor | scraper/scraper.py:13-31 | the defaults are 10 pages, depth 2 and 5 links per page; the domain is the seed's; nothing is visited and there are no results |
| Crawler.ScraperEngine.HarvestLinks | scraper/scraper.py:60-74 | at most `links_per_page` links, each a normalized, valid, same-domain URL; all qualifying links when fewer than the cap are taken |
| Crawler.ScraperEngine.HarvestKept | scraper/scraper.py:66-69 | the loop's test is exactly the engine's qualifying test |
| Crawler.ScraperEngine.ScrapePage | scraper/scraper.py:33-76 | the URL joins `visited`; a visited URL gives `(None, [])`; data exactly when the page fetches and parses, with its `url` key set and the filter's extraction; no links at or past the depth limit; below it, on a fresh URL that parses, as many links as there are qualifying hrefs up to the cap, each a crawl edge, and every qualifying href's link when fewer than the cap are taken |
| Crawler.ScraperEngine.TreeGrows | scraper/scraper.py:93-145 | visiting a page keeps every crawl-tree edge |
| Crawler.ScraperEngine.TreeHarvest | scraper/scraper.py:136-145 | recording a first scrape's links keeps the crawl tree |
| Crawler.ScraperEngine.TreeAdds | scraper/scraper.py:141-145 | an enqueued link sits one level below the page that yielded it, and that page was above the depth limit |
| Crawler.ScraperEngine.ScrapesAdd | scraper/scraper.py:136-138 | a recorded scrape outcome is the page's expected data |
| Crawler.ScraperEngine.ResultsGrow | scraper/scraper.py:136-138 | appending a first scrape's data keeps result URLs distinct and in step with the scrapes |
| Crawler.ScraperEngine.HarvestAdd | scraper/scraper.py:136-145 | recording links that a page can yield keeps every recorded link a crawl edge |
| Crawler.ScraperEngine.NextBatch | scraper/scraper.py:97-114 | the queue loses exactly a prefix, and the batch is exactly the unvisited entries of that prefix in queue order, none still queued; a non-empty batch keeps visited plus batch within `max_pages`; the loop stops only with the queue empty, the scheduled count at `max_pages` plus the queue length, or visited plus batch at `max_pages` |
| Crawler.ScraperEngine.PopStep | scraper/scraper.py:104-114 | popping one entry adds it to the batch exactly when it is unvisited |
| Crawler.ScraperEngine.PoppedFacts | scraper/scraper.py:104-114 | the remaining queue and the batch have distinct URLs at their recorded depths; batch entries are unvisited, come from the queue and are no longer queued |
| Crawler.ScraperEngine.EnqueueLinks | scraper/scraper.py:141-145 | every link ends up scheduled; nothing already scheduled moves; the queue only grows at its end and keeps distinct entries; every newly scheduled URL is queued |
| Crawler.ScraperEngine.RunBatch | scraper/scraper.py:126-145 | `visited` gains exactly the batch's URLs, one page per entry; the crawl tree, the scrape outcomes and the results stay in step; the queue only grows at its end and every newly scheduled URL is queued |
| Crawler.ScraperEngine.VisitEntry | scraper/scraper.py:133-145 | `visited` gains exactly the entry's URL; its outcome is recorded and its data appended; below the depth limit all the links it yielded are scheduled; the queue only grows at its end and nothing scheduled moves |
| Crawler.ScraperEngine.VisitBooks | scraper/scraper.py:133-145 | one visit keeps the crawl tree, scrape outcomes, results and queue in step |
| Crawler.ScraperEngine.ClosedAfterVisit | scraper/scraper.py:140-145 | after a visit, every page scraped above the depth limit has had all its links scheduled |
| Crawler.ScraperEngine.Wave | scraper/scraper.py:93-145 | an empty batch stops the crawl with nothing new visited and the inner loop's stopping condition; otherwise at least one page is visited and the budget is kept; every scheduled URL stays visited or queued |
| Crawler.ScraperEngine.SeedAncestor | scraper/scraper.py:86-90 | following parent links from any URL scheduled below the seed reaches the seed, so the seed was scraped |
| Crawler.ScraperEngine.SeedScraped | scraper/scraper.py:86-105 | on a fresh engine with a positive budget, a stopped crawl has scraped the seed |
| Crawler.ScraperEngine.NothingScraped | scraper/scraper.py:136-138 | a crawl that visited no new page has no results |
| Crawler.ScraperEngine.Run | scraper/scraper.py:78-150 | an invalid seed gives the error and visits nothing; otherwise the results are exactly the data of the pages scraped, with distinct URLs; every scheduled URL is the seed or on a crawl edge; at most `max_pages` pages are visited; the crawl stops only with the queue empty, the budget spent or the scheduled count at the budget plus the queue; every scheduled URL is then visited or queued, every page scraped above the depth limit has had all its links scheduled, and on a fresh engine with a positive budget the seed is scraped |
| Sorting.Insert | static/js/script.js:325-337 | inserting into a sorted sequence keeps it sorted and adds exactly the element |
| Sorting.InsertBehind | static/js/script.js:325-337 | the head of a sorted sequence stays in front of the tail's insertion |
| Sorting.ConsSorted | static/js/script.js:325-337 | a head no larger than a sorted tail keeps it sorted |
| Sorting.HeadBelow | static/js/script.js:325-337 | the head of a sorted sequence has the smallest key |
| Sorting.SortBy | scraper/summarizer.py:317 | the stable sort is sorted and a permutation of its input |
| Sorting.SortByStable | scraper/summarizer.py:317 | elements with equal keys keep their input order |
| Sorting.SortBySorted | static/js/script.js:325-337 | a sorted sequence is its own sort |
| Sorting.InsertWithKey | static/js/script.js:325-337 | an inserted element lands behind every element with its key |
| Sorting.WithKeyAppend | static/js/script.js:325-337 | the elements with a key, taken from a concatenation, are those of each part |
| Summarizer.DigitRun | scraper/summarizer.py:45 | the longest run of digits at the start of a text |
| Summarizer.MarkerLen | scraper/summarizer.py:45 | 0, or the length of the `[digits]` marker at the start of a text |
| Summarizer.StripCitations | scraper/summarizer.py:45 | removing `[digits]` markers only deletes characters |
| Summarizer.CitationRemoved | scraper/summarizer.py:45 | a `[digits]` marker between two texts is removed |
| Summarizer.NoBracketUnchanged | scraper/summarizer.py:45 | a text without `[` is unchanged |
| Summarizer.DropBullet | scraper/summarizer.py:47 | at most one leading bullet character is removed, with the whitespace after it |
| Summarizer.SquashSpaces | scraper/summarizer.py:49 | every whitespace run becomes a single space |
| Summarizer.SquashSpacesUnchanged | scraper/summarizer.py:49 | a single-spaced text is unchanged |
| Summarizer.StripSquashedCollapsed | scraper/summarizer.py:49-50 | stripping a squashed text leaves single spaces between words and none at the ends |
| Summarizer.Squashed | scraper/summarizer.py:45-50 | the cleaned text before capitalisation has single inner spaces and no outer whitespace |
| Summarizer.Capitalise | scraper/summarizer.py:55-56 | a lowercase first letter becomes uppercase and nothing else changes |
| Summarizer.Terminate | scraper/summarizer.py:59-60 | a `.` is appended exactly when the text does not end in `.`, `!` or `?` |
| Summarizer.CleanSentence | scraper/summarizer.py:43-62 | "" exactly when nothing is left after cleanup; otherwise single-spaced, trimmed, not starting lowercase and ending in `.`, `!` or `?` |
| Summarizer.CleanBlank | scraper/summarizer.py:52 | a blank text cleans to "" |
| Summarizer.CleanSentenceFixed | scraper/summarizer.py:43-62 | an already clean sentence is its own cleanup |
| Summarizer.CapCount | scraper/summarizer.py:105 | the number of capitalised words is at most the number of words |
| Summarizer.IsHighQuality | scraper/summarizer.py:86-119 | an accepted sentence has 15 characters and 4 words, no junk phrase, no bad start word, at most 60% capitalised words when it has more than 6, is not short ASCII junk and has a glue word |
| Summarizer.ShortSentenceRejected | scraper/summarizer.py:110-111 | a text of at most 30 characters inside the junk character class is rejected |
| Summarizer.JunkClassChars | scraper/summarizer.py:110 | the class `[\d\s\Wa-zA-Z]` is every ASCII character except `_`, plus whitespace |
| Summarizer.DropPunct | scraper/summarizer.py:67-68 | removing punctuation keeps only word characters and whitespace |
| Summarizer.SignificantWords | scraper/summarizer.py:73-74 | the word sets hold no stopword and no empty word |
| Summarizer.Similarity | scraper/summarizer.py:64-84 | 0 when either word set is empty; otherwise the Jaccard ratio, between 0 and 1, positive exactly when the sets meet and 1 exactly when they are equal |
| Summarizer.JaccardBounds | scraper/summarizer.py:78-84 | the intersection is no larger than the union, equal exactly when the sets are equal |
| Summarizer.SimilaritySymmetric | scraper/summarizer.py:64-84 | similarity is symmetric |
| Summarizer.TooSimilarFacts | scraper/summarizer.py:308 | the `> 0.6` test is symmetric, and a sentence is too similar to itself exactly when it has a significant word |
| Sentences.AbbreviationsShaped | scraper/summarizer.py:11 | every abbreviation starts with a lowercase letter, has no whitespace or `<`, and ends in `.` |
| Sentences.RestoreProtected | scraper/summarizer.py:27-36 | for any order of the abbreviation set, restoring the placeholders gives back a text without `<` |
| Sentences.ProtectAbbreviations | scraper/summarizer.py:27-28 | the protection loop replaces each abbreviation in turn, in some enumeration of the set |
| Sentences.BreakEnd | scraper/summarizer.py:31 | a split point consumes at least one character |
| Sentences.SplitFrom | scraper/summarizer.py:31 | every piece of `re.split` holds no split point and no newline |
| Sentences.SplitPieces | scraper/summarizer.py:31 | `re.split` gives at least one piece, none holding a split point or a newline |
| Sentences.PieceUnbroken | scraper/summarizer.py:31 | the text between two split points holds no split point |
| Sentences.NoBreakOnePiece | scraper/summarizer.py:31 | a text with no split point is one piece |
| Sentences.SentenceThenSpace | scraper/summarizer.py:31 | a sentence end followed by a space splits there |
| Sentences.AbbreviationNoBreak | scraper/summarizer.py:27-31 | a protected abbreviation holds no split point and does not end one |
| Sentences.FilterMapExactly | scraper/summarizer.py:34-39 | the loop keeps exactly the cleaned pieces that pass the test |
| Sentences.KeptClean | scraper/summarizer.py:34-39 | every kept sentence is cleaned and of good quality |
| Sentences.CleanedHighQuality | scraper/summarizer.py:37-38 | a cleaned piece that passes the quality test is a clean sentence |
| Sentences.SplitIntoSentences | scraper/summarizer.py:21-41 | the result is the filtered cleanup of the pieces of the protected text; every sentence passes the quality test and is clean |
| Sentences.CleanPieces | scraper/summarizer.py:34-39 | the loop builds exactly the filtered cleanups |
| Summary.CountsFor | scraper/summarizer.py:262-270 | `short` gives (1, 3), `medium` (2, 5) and anything else (3, 8) |
| Summary.UniqueFromFacts | scraper/summarizer.py:289-294 | the dedup loop keeps the first occurrence of each unseen element, with no repeats |
| Summary.UniqueFromDistinct | scraper/summarizer.py:289-294 | a list without repeats is unchanged by the dedup |
| Summary.Dedup | scraper/summarizer.py:289-294 | the loop with its `seen_exec` set builds the dedup |
| Summary.ExecutiveSummary | scraper/summarizer.py:277-294 | the list starts with the lead sentence, has no repeats, and holds the top sentence exactly when it is the lead or more than one sentence is allowed |
| Summary.CheckDuplicate | scraper/summarizer.py:306-310 | the scan over the seen set reports a duplicate exactly when some seen sentence is too similar |
| Summary.PickLoop | scraper/summarizer.py:301-314 | the greedy loop builds the specified choice |
| Summary.SelectHighlights | scraper/summarizer.py:297-318 | the highlights are the greedy choice sorted by original index |
| Summary.PickBounds | scraper/summarizer.py:301-303 | at most the allowed number of picks, each from the ranked list |
| Summary.PickApart | scraper/summarizer.py:306-314 | no pick is too similar to a seen sentence or to an earlier pick |
| Summary.PickComplete | scraper/summarizer.py:301-314 | when the count is not reached, every ranked sentence was picked or is a duplicate |
| Summary.SortedPickFacts | scraper/summarizer.py:317 | sorting keeps the picks apart from each other and from the executive sentences |
| Summary.HighlightsFacts | scraper/summarizer.py:297-318 | at most `highlight_count` highlights, sorted by index, none too similar to an executive sentence or to another highlight |
| Summary.ReadTime | scraper/summarizer.py:330 | the reading time is at least one minute, and is otherwise the word count divided by 200 |
| Summary.Outline | scraper/summarizer.py:262-330 | the executive text joins the executive list and starts with the lead sentence; at most the allowed highlights; reading time at least 1 |
| Text.Lower | static/js/script.js:311 | the result has the input's length and no ASCII capital; every other character is kept and each capital becomes its lowercase letter |
| Text.LowerIdempotent | static/js/script.js:311-319 | lowering a lowered text changes nothing |
| Text.LowerNoCapitals | scraper/summarizer.py:73-74 | a text without ASCII capitals is its own lower case |
| Text.LowerEqualIff | static/js/script.js:311-319 | two texts lower to the same text exactly when they agree up to the case of ASCII letters |
| Text.Strip | scraper/utils.py:23 | the result is the input with exactly its leading and trailing whitespace removed, and empty exactly for a blank input |
| Text.JsTrim | static/js/script.js:311 | `trim()` removes exactly the leading and trailing JavaScript whitespace, and gives "" exactly for a blank input |
| Text.Words | scraper/summarizer.py:88 | `split()` gives non-empty words without whitespace, and none exactly for a blank text |
| Text.WordsAround | scraper/summarizer.py:88 | the words of a text split at a whitespace character are the words of the part before it followed by those of the part after |
| Text.WordsOfWord | scraper/summarizer.py:88 | a non-empty text without whitespace is its only word |
| Text.CollapseSpaces | scraper/filters.py:31 | `" ".join(s.split())` is single-spaced and empty exactly for a blank text |
| Text.JoinedWordsCollapsed | scraper/filters.py:31 | joining words with single spaces gives a single-spaced text that starts with the first word |
| Text.JoinSplitOn | scraper/utils.py:30 | joining the pieces of a split gives back the string |
| Text.SplitOnJoin | scraper/utils.py:30 | splitting a join of pieces without the separator gives back the pieces |
| ResultsView.Where | static/js/script.js:212-213 | `filter` keeps exactly the elements passing the test |
| ResultsView.Take | static/js/script.js:218 | `slice(0, n)` is the first `n` elements, or all of them |
| ResultsView.EscapeHtml | static/js/script.js:521-529 | "" for a missing text; otherwise the five replacements applied in order |
| ResultsView.ChainIsEscapeChars | static/js/script.js:523-528 | the five chained global replacements equal escaping each character on its own |
| ResultsView.UnescapeEscapeChars | static/js/script.js:523-528 | decoding the five entities gives back the input |
| ResultsView.EscapedSafeChars | static/js/script.js:523-528 | the output holds no `<`, `>`, `"` or `'` |
| ResultsView.EscapedAmpersandsChars | static/js/script.js:524 | every `&` of the output begins one of the five entities |
| ResultsView.EscapePlainChars | static/js/script.js:523-528 | a text without special characters is unchanged |
| ResultsView.EscapeHtmlFacts | static/js/script.js:521-529 | escaping decodes back to the input, holds no `<`, `>`, `"` or `'`, has only entity ampersands and leaves plain text alone |
| ResultsView.Insights | static/js/script.js:116-121 | Data-Rich iff tables > 0, Visual Gallery iff images > 5, Resource Hub iff links > 20, Long-Form iff paragraphs > 10, Well-Structured iff headings > 10, in that order |
| ResultsView.BadgesDetermined | static/js/script.js:116-121 | two badge lists in the fixed order with the same badges are equal |
| ResultsView.FirstRanksLowest | static/js/script.js:116-121 | the first badge comes first in the fixed order |
| ResultsView.PreviewLinksMembers | static/js/script.js:212-218 | the preview holds up to 6 content-context internal or external links of the page |
| ResultsView.PreviewLinksOrder | static/js/script.js:212-218 | internal content links come before external ones |
| ResultsView.PreviewLinksComplete | static/js/script.js:212-218 | with at most 6 such links, all of them are shown |
| ResultsView.PreviewLinksInternalFirst | static/js/script.js:212-218 | with 6 or more internal content links the preview is the first 6 of them; otherwise it starts with all of them |
| ResultsView.PreviewImagesFacts | static/js/script.js:252-259 | at most 4 of the page's images; none logo-like when some image is not; the first 4 when all are logo-like |
| ResultsView.SortKeyOf | static/js/script.js:323-335 | any value other than `headings`, `paragraphs` or `url` sorts by title |
| ResultsView.BlankNeedle | static/js/script.js:311-312 | the query is switched off exactly when it is blank |
| ResultsView.FilterSortFacts | static/js/script.js:307-339 | the result is a permutation of the matching items, all items for a blank query, exactly those whose joined fields contain the lowercased trimmed query; counts sort descending, ties in their original order |
| ResultsView.FromSeq | static/js/script.js:313 | `filter` returns a fresh array of the kept items |
| ResultsView.SortInPlace | static/js/script.js:325-337 | the array's contents become their stable sort |
| ResultsView.ApplyFiltersSort | static/js/script.js:307-339 | the returned array holds the stable sort of the matching items; for a blank query it is the caller's array, sorted in place, and otherwise a fresh array with the caller's left alone |

## Left out

- The fetcher is not part of this model. The HTTP client, its retries, back-off and user agents become the engine's `fetch` parameter, which returns a page body or nothing.
- BeautifulSoup, lxml and html.parser become the `Dom` tree and two parser parameters. Tree building, entity decoding and malformed markup are not modelled.
- The thread pool, the lock and the completion order of futures are left out. Each wave is processed sequentially in batch order. Within a wave the source appends results in completion order; the model appends them in batch order.
- `print` logging and the `except` around `future.result()` are left out. A scrape in the model does not raise.
- TextRank scoring, position weights, floating-point scores and `reduction_rate` are left out. `original_word_count` is left out with them: it counts the words of the page text that the unmodelled DOM surgery produces, and only `reduction_rate` and the returned stats use it. The ranked sentence list is an input to `Summary`.
- The DOM surgery of `generate_summary`, its main-content choice, the image-alt fallback and the random `variation_id` are left out. They depend on the parser library and on randomness.
- Python's `str.isupper`/`islower`/`lower` and JavaScript's `toLowerCase` are modelled for ASCII only.
- Summarizer.IsWordChar: Python's `\s` (and `str.isspace`) is modelled over the full Unicode whitespace set, but `\w` is approximated: ASCII letters, digits and `_`, plus every non-ASCII character that is not whitespace. Non-ASCII punctuation such as curly quotes, dashes and the ellipsis is therefore a word character in the model and not in Python. It survives `[^\w\s]` in `Summarizer.DropPunct`, and it does not count as `\W` in the junk pattern of `Summarizer.IsHighQuality`, so the junk pattern matches a text such as "It is a cat — yes." in Python and does not match it in the model.
- Text.IsDigits: `str.isdigit` (the width and height test) and the `\d` of the citation pattern are modelled for the ASCII digits only; Python also accepts other Unicode digits.
- `localeCompare` in the title and url sorts becomes an integer rank given by the caller (`collate`). Locale rules are not modelled.
- Urls.Split: does not remove tab, carriage return and line feed characters from inside a URL, and does not strip leading C0 control characters and spaces, as `urlsplit` does. An href such as `/a` + newline + `b` resolves to `http://h/ab` in Python, and the model keeps the newline.
- Urls.Split: does not split `;params` off the last path segment, as `urlparse` does. The params stay in the path. `geturl` then drops a trailing `;` with empty params (`http://h/a;` gives `http://h/a`), and the model keeps it.
- Urls.NormalizeUrl: inherits both gaps of `Urls.Split`, so it agrees with `normalize_url` only on links and bases without tab, carriage return, line feed, leading control characters or leading spaces, and without a `;` that ends the path. `Urls.IsValidUrl` and `Urls.GetDomain` agree with `is_valid_url` and `get_domain` when no such character comes before the end of the netloc, and the URL does not start with a space or a control character.
- Urls.ValidUrlPrefix: states the prefix of a URL that `Urls.IsValidUrl` accepts. A URL with leading spaces or C0 controls, such as " http://x.com", is valid in Python once `urlsplit` strips them, but the model rejects it, so the lemma says nothing about such URLs.
- Urls.ValidUrlFirst: for the same reason, it says nothing about a URL that Python accepts only after stripping leading spaces or control characters.
- Urls.GetDomain: gives "" for a URL with leading spaces or C0 controls, such as " http://x.com", where `get_domain` returns the netloc `x.com`.
- Urls.GetDomainRelative: a reference that starts with spaces or control characters followed by `//`, such as " //x.com", has domain "" in the model and `x.com` in Python.
- Crawler.ScraperEngine.Run: a seed URL with leading spaces or control characters is rejected with the error result, while the source, whose seed reaches the engine unstripped, accepts it after `urlsplit` strips them and crawls it. The engine's domain for such a seed is "" in the model.
- `Urls.Join` follows Python's `urljoin` on the records `Urls.Split` produces. Bracketed IPv6 validation beyond bracket balance and the NFKC check of the netloc are not modelled.
- The test file's concrete examples (the noisy text and the three similarity sentences) are not evaluated. Their general properties are stated instead (`Summarizer.ShortSentenceRejected`, `Summarizer.IsHighQuality`, `Summarizer.Similarity`).
- User interface code is left out: card and modal HTML, the lightbox and `downloadJSON`.
- Flask routing and JSON marshalling of the application are left out.
- ResultsView.SortInPlace: writes the stable-sorted contents back into the array, instead of modelling the engine's own in-place sorting algorithm.
- Sentences.CleanPieces, Summary.PickLoop and Crawler.TakeLinks are written over function parameters (the cleanup, the duplicate test, the normalization); the engine methods instantiate them with the source's functions.
- Urls.NormalizeIdempotent: requires the normalized URL to have no surrounding whitespace and not to begin with lowercase `javascript:`, because without those conditions the source is not idempotent.
- Filters.KindByPrefix and the other link-type lemmas assume no `domain` key in the `sections` configuration. The application never sets that key.
- Crawler.ScraperEngine.Run: results are in scraping order, with the batch order fixing the order within a wave; the source's order within a wave is not fixed.
