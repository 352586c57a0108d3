# HongYiXun backend — crawl-and-serve core in Dafny

HongYiXun's backend collects articles from the Huawei developer blog and serves them from memory. Three crawlers feed it:

- **`HuaweiBlogAPICrawler`** (`api_crawler.dfy`). It calls the blog-list API, maps each `resultList` item to a normalized article and filters by a case-sensitive keyword. It pages the list in memory, then fills in each paged article's body from its browser-rendered detail page: images first, then distinct texts.
- **`HuaweiBlogCrawler`** (`blog_crawler.dfy`). It walks the cards of the "Latest" tab by index and clicks each card, retrying stale elements up to three times. It turns the detail page's `div.blog-content` into text and image blocks once the `div.operations` bars are gone, and it hands captured articles to a callback in fixed-size batches.
- **`HuaweiDeveloperBlogCrawler`** (`developer_crawler.dfy`). It scrolls the recommended list up to five times and harvests blog links, completing relative ones. For each link it reads the title, the date and the content blocks through selector fallback chains. It cuts off the operations bar and everything after it, then writes a placeholder or a 200-character summary.

`NewsCache` (`cache.dfy`) holds the article list with its service status, error message and load time. It answers paged, filtered and searched queries, and it enriches one article with detail content on demand.

Shared modules:

- `strings.dfy`: Python's `strip`, `lower`, `in`, slicing and `join`.
- `seqs.dfy`: list comprehensions with `if`, Python slices and the pagination window.
- `dom.dfy`: a parsed document as a tree of text nodes and elements, with BeautifulSoup's `descendants`, `get_text`, `find_all` and `select_one`.
- `records.dfy`: the article and block records.
- `timestamps.dfy`: the two publish-time formatters.

Anything that talks to the outside world is a parameter of the model:

- the browser, as oracles giving per-index or per-URL outcomes;
- the API reply;
- `md5`, `urljoin`, the clock and calendar arithmetic, `strftime`.

Everything else is modelled as the code states it, except where "Left out" says otherwise.

## Model

| member | source | states |
|---|---|---|
| Cache.StatusValue | core/cache.py:12-15 | each status has its own string value: "preparing", "ready", "error", in both directions |
| Cache.NewsCache.constructor | core/cache.py:18-48 | a new cache runs a load at once and is never left preparing: its status is ready iff the load raised nothing and error otherwise; its articles, error message and load time are those of that load |
| Cache.NewsCache.LoadInitialData | core/cache.py:25-48 | fault before the reset: status is error with the message, articles and load time untouched. Fault from the inner handler: status is error with the message, the list is empty or the mapped API items (as far as the inner block got), the load time untouched. Otherwise the list is rebuilt from empty as the mapped API items and the load time is `now`; then status is ready with the old error message kept, or error with the new message if the closing step raised |
| Cache.GetHuaweiArticlesBasic | core/cache.py:50-100 | one article per API item when every item has a `blogId`; `[]` when the request fails or an item lacks its id |
| Cache.NewsCache.GetNews | core/cache.py:121-166 | preparing: an empty page, total 0, no next or previous page, page and size echoed. Otherwise: total is the filtered count before slicing, articles are the `(page-1)*size` window of the filtered list, has_next iff `page*size < total`, has_prev iff `page > 1` |
| Cache.FilteredExact | core/cache.py:135-148 | the category filter followed by the search keeps exactly the articles passing both, in their original order |
| Cache.SearchIgnoresCase | core/cache.py:143-148 | searching for a term or for its lower-case form selects the same articles |
| Cache.ServedPage | core/cache.py:150-154 | for page >= 1 and size >= 0 a served page has at most `size` articles, is the consecutive run of the filtered list from `(page-1)*size` (empty past the end), and each article matches the category and the search |
| Cache.ConsecutivePages | core/cache.py:151-154 | page p followed by everything after `p*size` is the filtered list from `(p-1)*size`: consecutive pages tile the list |
| Cache.FirstWithId | core/cache.py:170-171 | the position found holds the id and no earlier position does |
| Cache.NewsCache.GetArticleDetail | core/cache.py:168-176 | None exactly when no article has the id, and then nothing changes; otherwise only the first matching article's content is replaced by the detail content a new crawler fetches (so with no browser open before its one launch attempt), and that article is returned |
| Cache.NewsCache.GetStatus | core/cache.py:178-185 | the status string is the status's own value ("preparing", "ready" or "error"), last_update is present iff the cache was loaded and is then the ISO text of the load time, the error message is passed through, and total_articles is the list length |
| Cache.NewsCache.RefreshData | core/cache.py:187-190 | the same outcomes as a load; the intermediate preparing status is never left behind |
| Cache.NewsCache.AppendToCache | core/cache.py:192-195 | articles become the old list followed by the new ones; status, error message and load time are unchanged |
| Timestamps.CompactTimeFields | core/cache.py:102-119 | a publish time of at least 14 characters after stripping becomes `YYYY-MM-DD HH:MM:SS`, whose digits with separators removed are its first 14 characters |
| Timestamps.FormatCompactTime | services/huawei_blog_api_crawler.py:204-221 | an empty or stripped-too-short publish time gives the current time |
| Timestamps.CanonicalFields | services/huawei_blog_api_crawler.py:210-217 | six fields of widths 4,2,2,2,2,2 give a 19-character timestamp with `-`, ` ` and `:` in place, carrying the fields in order |
| ApiCrawler.TopicUrlRoundTrip | services/huawei_blog_api_crawler.py:93 | the article URL is the topic prefix followed by the item's `blogId`, which can be read back from it |
| ApiCrawler.MappedItems | services/huawei_blog_api_crawler.py:89-100 | mapping fails exactly when some item lacks `blogId`; otherwise there is one article per item |
| ApiCrawler.MappedItemsPointwise | services/huawei_blog_api_crawler.py:89-100 | the i-th mapped article is the i-th item's article: id is the hash of its blogId, title and summary copied, constant source and category, one text block holding the summary |
| ApiCrawler.MapItems | services/huawei_blog_api_crawler.py:87-100 | the item loop gives the mapped articles in order, or none when an item lacks its id |
| ApiCrawler.MappedConstants | services/huawei_blog_api_crawler.py:95-97 | every mapped article has source "Huawei Developer Blog" and category "Huawei Developer" |
| ApiCrawler.KeywordFilter | services/huawei_blog_api_crawler.py:103-108 | an empty keyword keeps the whole list; otherwise the keyword-mentioning articles are kept in order |
| ApiCrawler.KeywordFilterExact | services/huawei_blog_api_crawler.py:106 | the filter keeps an article iff its title or summary contains the keyword (case-sensitive) |
| ApiCrawler.FetchSize | services/huawei_blog_api_crawler.py:68 | the requested size is at least each of max_articles, page*page_size and 50, and equals one of them |
| ApiCrawler.ListingBounds | services/huawei_blog_api_crawler.py:103-113 | for page >= 1 and size >= 0 a listed page holds at most `size` articles, each with the constant source and category, each mentioning a non-empty keyword |
| ApiCrawler.FirstLongest | services/huawei_blog_api_crawler.py:166-168 | the div chosen has the longest text, and every earlier div has strictly shorter text, as Python's `max` keeps the first maximum |
| ApiCrawler.AbsoluteImageUrl | services/huawei_blog_api_crawler.py:181-184 | a `//` source becomes `https:` followed by the source; any other `/` source becomes the site root followed by the source; both then start with `https://`; any other source is unchanged |
| ApiCrawler.ImageBlocks | services/huawei_blog_api_crawler.py:177-185 | one image block per `img` that has a non-empty `src` or `data-src`, in document order: the i-th block holds the absolute URL of the i-th such image's source |
| ApiCrawler.FreshTexts | services/huawei_blog_api_crawler.py:189-195 | kept texts are longer than 2 characters and pairwise distinct |
| ApiCrawler.FreshTextsExact | services/huawei_blog_api_crawler.py:189-195 | a text is kept iff it occurs among the stripped texts and is longer than 2 characters |
| ApiCrawler.ImagesThenTexts | services/huawei_blog_api_crawler.py:174-195 | image blocks followed by distinct long texts are well formed: every image precedes every text, texts are distinct and longer than 2 characters |
| ApiCrawler.AssembledWellFormed | services/huawei_blog_api_crawler.py:174-195 | the blocks assembled from any content element are well formed |
| ApiCrawler.ContentWellFormed | services/huawei_blog_api_crawler.py:129-202 | detail content is never empty and always well formed, whether the browser fails, the page raises, no content area is found or blocks are assembled |
| ApiCrawler.EmptyContentPlaceholder | services/huawei_blog_api_crawler.py:197 | a content area with no sourced image and no text longer than 2 characters gives exactly the "文章内容为空" placeholder |
| ApiCrawler.Crawler.constructor | services/huawei_blog_api_crawler.py:21-22 | a new crawler has no browser open |
| ApiCrawler.Crawler.GetDriver | services/huawei_blog_api_crawler.py:24-44 | an open browser is reused and reported; otherwise one launch is tried: if `uc.Chrome` raises, nothing is kept and failure is reported; if `execute_script` raises, the driver is kept yet failure is reported; otherwise the driver is kept and reported |
| ApiCrawler.OpenAfterSome | services/huawei_blog_api_crawler.py:26-44 | after the attempts of the first n articles a browser is kept iff one was at the start or some attempt among them did not fail at `uc.Chrome` |
| ApiCrawler.OpenStays | services/huawei_blog_api_crawler.py:26-44 | a kept browser stays kept and serves every later article |
| ApiCrawler.HalfStartedServesNext | services/huawei_blog_api_crawler.py:37-43 | with no browser kept, a half-started launch fails its own article with "浏览器初始化失败" but serves the next one; a launch that fails outright also fails its article, and the next article is served iff its own launch starts |
| ApiCrawler.Crawler.CollectImages | services/huawei_blog_api_crawler.py:177-185 | the image loop gives one absolute-URL image block per image that has `src` or `data-src`, in document order |
| ApiCrawler.Crawler.CollectTexts | services/huawei_blog_api_crawler.py:188-195 | the loop with its `seen_texts` set gives one text block per kept text, in first-appearance order |
| ApiCrawler.Crawler.AssembleBlocks | services/huawei_blog_api_crawler.py:174-197 | the blocks are the images followed by the distinct long texts |
| ApiCrawler.Crawler.FetchArticleContent | services/huawei_blog_api_crawler.py:129-202 | one `_get_driver` call with this article's launch outcome; content is the browser-failure text unless that call returned a browser, else the error text, the no-area text, the assembled blocks or the empty placeholder, as the page dictates |
| ApiCrawler.Crawler.FillContents | services/huawei_blog_api_crawler.py:116-121 | each paged article, in order, gets the content of its own detail page, fetched with the browser as the launch attempts of the articles before it left it; the browser is kept afterwards iff it was, or some attempt kept one |
| ApiCrawler.WithContentsAt | services/huawei_blog_api_crawler.py:116-123 | the i-th result is the i-th listed article with the content of its own URL, fetched with a browser exactly when one was kept by an earlier article or the i-th launch starts one |
| ApiCrawler.Crawler.CrawlLatestArticles | services/huawei_blog_api_crawler.py:46-127 | one result per article of the page of the keyword-filtered listing, each with its detail content as its own launch attempt and the earlier ones leave the browser; `[]` when the request fails or an item lacks its id; the browser ends kept iff it was or an attempt kept one |
| BlogCrawler.OpenCardAndCollect | services/huawei_blog_crawler.py:223-280 | the result is the article of the first attempt that opens the card after stale attempts only; missing cards, a recovered timeout or three stale attempts skip the card; an unrecovered timeout or any other fault raises to the caller |
| BlogCrawler.ThreeStaleSkips | services/huawei_blog_crawler.py:224-280 | three stale attempts in a row give up on the card without raising |
| BlogCrawler.AttemptsBounded | services/huawei_blog_crawler.py:225 | a card's outcome depends on its first three attempts only |
| BlogCrawler.ReachedFromOpened | services/huawei_blog_crawler.py:225-263 | a detail page is reached only through an attempt that opened it, preceded only by stale attempts |
| BlogCrawler.PrunedHasNoOps | services/huawei_blog_crawler.py:310-313 | after the operations bars are removed, no element at any depth is a `div.operations` |
| BlogCrawler.ImageBlocksOf | services/huawei_blog_crawler.py:336-345 | one block per nested image that has `src`, `data-src` or `data-original`, in order: the i-th block is the resolved source of the i-th such image |
| BlogCrawler.NodeBlocks | services/huawei_blog_crawler.py:318-349 | a text node gives its stripped text iff that is non-blank, else nothing; an `img` gives one resolved image block iff it has a source, else nothing; any other element gives the blocks of its nested images in order, then one text block of its newline-joined text iff it holds non-blank text |
| BlogCrawler.BlocksOf | services/huawei_blog_crawler.py:315-351 | no emitted text block is empty |
| BlogCrawler.ParseContentBlocks | services/huawei_blog_crawler.py:315-351 | the loop over top-level nodes gives the blocks of each node in order |
| BlogCrawler.ElementBlocks | services/huawei_blog_crawler.py:319-349 | the loop body gives exactly that node's blocks |
| BlogCrawler.NestedImageBlocks | services/huawei_blog_crawler.py:336-345 | the inner loop gives one resolved image block per nested image that has `src`, `data-src` or `data-original` |
| BlogCrawler.SummaryOf | services/huawei_blog_crawler.py:292-294 | a non-empty card summary is used as it is; otherwise the first min(120, length) characters of the first block when that is text, and "" when the content is empty or opens with an image |
| BlogCrawler.SummaryEmpty | services/huawei_blog_crawler.py:292-294 | the summary is empty iff the card has none and the content is empty or opens with an image |
| BlogCrawler.IdFollowsUrl | services/huawei_blog_crawler.py:296-299 | the id depends on the address alone, and the url is that address |
| BlogCrawler.ExtractArticleFromDetail | services/huawei_blog_crawler.py:282-305 | the article is built from the content with the operations bars removed; its id is the hash of the url, its url the address reached, and no text block is empty |
| BlogCrawler.Crawled | services/huawei_blog_crawler.py:90-110 | after n indices at most n cards are captured |
| BlogCrawler.CapturedCards | services/huawei_blog_crawler.py:90-109 | captured cards are below the index reached, in increasing order, and each of them reached its detail page |
| BlogCrawler.StepCaptures | services/huawei_blog_crawler.py:98-100 | a turn adds at most its own index, and only for a card that reached its page |
| BlogCrawler.StoppedStays | services/huawei_blog_crawler.py:94-96 | once the loop breaks or raises, nothing more is captured |
| BlogCrawler.CapturedOnlyReached | services/huawei_blog_crawler.py:98-101 | a card that is skipped, fails or finds no list contributes no article |
| BlogCrawler.ReachedIsCaptured | services/huawei_blog_crawler.py:90-101 | a card reached before the loop stops, with enough cards listed and its detail page reached, is captured, whatever happens after it |
| BlogCrawler.StopsAt | services/huawei_blog_crawler.py:91-96 | a failed wait for the cards, an index at or past the card count, or a card raising ends the loop there with nothing more captured |
| BlogCrawler.CapturedArticleKept | services/huawei_blog_crawler.py:98-100 | each captured card's article is among the articles collected |
| BlogCrawler.ArticlesAt | services/huawei_blog_crawler.py:98-100 | no more articles than captured indices |
| BlogCrawler.ArticlesAtSnoc | services/huawei_blog_crawler.py:99-100 | capturing one more card appends exactly its article |
| BlogCrawler.CrawlResult | services/huawei_blog_crawler.py:81-118 | a crawl returns at most max_articles articles (none for a negative max) |
| BlogCrawler.ReachedIsReturned | services/huawei_blog_crawler.py:88-101 | a card below max_articles reached before the loop stops, with its detail page reached, has its article among those the crawl returns |
| BlogCrawler.BatchStep | services/huawei_blog_crawler.py:102-107 | appending an article starts a new batch of the last `batch_size` articles exactly when the count becomes a multiple of the batch size |
| BlogCrawler.Record | services/huawei_blog_crawler.py:99-107 | the article is appended; with a callback the batches handed over stay the full-size cut of the list |
| BlogCrawler.Turn | services/huawei_blog_crawler.py:91-110 | one loop turn matches the loop's step function: stop on a failed wait, too few cards, a raised fault or a lost tab; a captured article is appended at its index |
| BlogCrawler.Advance | services/huawei_blog_crawler.py:91-110 | one iteration keeps the loop state: captured indices, articles and batches agree with the index reached |
| BlogCrawler.CrawlLatestArticles | services/huawei_blog_crawler.py:75-118 | the articles of the captured cards in index order, at most max_articles; batches concatenate to the first `(n / batch_size) * batch_size` articles when a callback is set, none otherwise; a started browser is quit exactly once; an exception inside the loop is caught and ends the crawl |
| Timestamps.NormalizeStripped | services/huawei_blog_crawler.py:363 | normalizing an already stripped label gives the same result |
| Timestamps.NormalizeBlank | services/huawei_blog_crawler.py:363-365 | an empty or all-whitespace label gives the formatted current time |
| Timestamps.DigitRun | services/huawei_blog_crawler.py:368 | the run read at the start of the label is all digits and maximal |
| Timestamps.FirstNumberOfShown | services/huawei_blog_crawler.py:368 | the number written before a unit is the number the label is read with |
| Timestamps.NormalizeRelative | services/huawei_blog_crawler.py:371-379 | "N分钟前", "N小时前" and "N天前" give now minus N minutes, hours or days, or the label itself when that overflows |
| Timestamps.FindClock | services/huawei_blog_crawler.py:381-388 | the leftmost position where H:MM or HH:MM starts gives the time read; None iff no position starts one |
| Timestamps.NormalizeDaysBack | services/huawei_blog_crawler.py:371-392 | a stripped label opening with "昨天" or "前天" that no relative-unit branch takes is now minus one or two days, at the leftmost H:MM or HH:MM when there is one and at now's own time otherwise; the label itself where the subtraction overflows or the time of day is invalid |
| Timestamps.DayClockNotRelative | services/huawei_blog_crawler.py:371-379 | "昨天"/"前天", an optional space and H:MM or HH:MM match none of the relative-unit branches |
| Timestamps.DayClockFound | services/huawei_blog_crawler.py:381-388 | in "昨天"/"前天", an optional space and H:MM or HH:MM, the clock search finds that hour and minute |
| Timestamps.NormalizeDayClock | services/huawei_blog_crawler.py:380-392 | such a label ("昨天 09:30", "前天9:30") is one or two days before now at that hour and minute with zero seconds, or the label itself when the time of day is invalid or the subtraction overflows |
| Timestamps.NormalizeBareDay | services/huawei_blog_crawler.py:380-392 | a bare "昨天" or "前天" is now minus one or two days at now's own time |
| Timestamps.DateLabelNotRelative | services/huawei_blog_crawler.py:371-393 | a bare date matches none of the relative or yesterday branches |
| Timestamps.DateLabelIsAbsolute | services/huawei_blog_crawler.py:371-398 | a label that, once stripped, opens with YYYY?MM?DD and names no relative unit takes the absolute-date branch whatever follows the date: separators turned into `-`, midnight appended only to a bare date |
| Timestamps.AbsoluteDateFields | services/huawei_blog_crawler.py:395-397 | a bare date with its separators turned into `-` and midnight appended is the canonical timestamp of its fields |
| Timestamps.NormalizeDateOnly | services/huawei_blog_crawler.py:394-398 | "YYYY?MM?DD" becomes a canonical timestamp of the date at midnight, with the date's digits in order |
| Timestamps.NormalizeUnrecognized | services/huawei_blog_crawler.py:399-402 | a label of no recognized form is returned stripped and otherwise unchanged |
| DeveloperCrawler.DeveloperBlogCrawler.constructor | services/huawei_developer_blog_crawler.py:47-56 | the crawler keeps the base URL, and its list URL is the base followed by the recommended-list path |
| DeveloperCrawler.Completed | services/huawei_developer_blog_crawler.py:226-231 | a `/` href becomes the base followed by the href; a href starting with neither `/` nor `http` becomes the base, `/` and the href; an `http` href stays; the result always ends with the href |
| DeveloperCrawler.CompletedBlogLink | services/huawei_developer_blog_crawler.py:222-233 | completing a blog link keeps it a blog link |
| DeveloperCrawler.CompletedAbsolute | services/huawei_developer_blog_crawler.py:230-231 | an `http` href is stored unchanged |
| DeveloperCrawler.Admit | services/huawei_developer_blog_crawler.py:203-233 | the list changes iff the element yields a non-empty blog href not yet stored, and then exactly that href, completed, is appended |
| DeveloperCrawler.AbsoluteLinkStoredOnce | services/huawei_developer_blog_crawler.py:220 | an `http` href already stored is not stored again |
| DeveloperCrawler.RelativeLinkStoredTwice | services/huawei_developer_blog_crawler.py:220-233 | the duplicate check compares the raw href with completed URLs, so a site-relative link met twice is stored twice |
| DeveloperCrawler.ScanCapped | services/huawei_developer_blog_crawler.py:198-200 | once the cap is reached, the remaining elements change nothing |
| DeveloperCrawler.ScanBounded | services/huawei_developer_blog_crawler.py:198-237 | the inner loop only extends the list, never past the cap, and keeps every link a blog link |
| DeveloperCrawler.CollectBounded | services/huawei_developer_blog_crawler.py:165-240 | the scrolling loop never passes the cap and stores only blog links |
| DeveloperCrawler.UrlsBounded | services/huawei_developer_blog_crawler.py:111-249 | at most max_articles links come back, each containing `/blog/` or `/blogDetail` |
| DeveloperCrawler.DeveloperBlogCrawler.FetchArticleUrls | services/huawei_developer_blog_crawler.py:111-249 | the links stored over at most five scrolls, cut to max_articles (none when the browser fails); fewer than five scrolls only when the cap was reached |
| DeveloperCrawler.DeveloperBlogCrawler.Scroll | services/huawei_developer_blog_crawler.py:165-240 | one scroll advances the count and keeps the loop on course to the same final list |
| DeveloperCrawler.DeveloperBlogCrawler.FindArticles | services/huawei_developer_blog_crawler.py:183-196 | the elements of the first article selector that finds any, none when none does |
| DeveloperCrawler.DeveloperBlogCrawler.ScanArticles | services/huawei_developer_blog_crawler.py:198-237 | the inner loop stores the new completed blog links of the elements in order, up to the cap |
| DeveloperCrawler.DeveloperBlogCrawler.SelectFirst | services/huawei_developer_blog_crawler.py:332-335 | the chain loop gives the first selector's first match |
| Dom.FirstHit | services/huawei_developer_blog_crawler.py:291-295 | the hit is the first match of the first selector that finds anything, every earlier selector finding nothing; none iff no selector matches |
| DeveloperCrawler.TitleOf | services/huawei_developer_blog_crawler.py:284-299 | the title is never empty: the stripped text of the first title selector's element when some selector matches and that text is non-blank, "无标题" otherwise |
| DeveloperCrawler.DeveloperBlogCrawler.ReadTitle | services/huawei_developer_blog_crawler.py:284-299 | the title loop with its fallback gives that title |
| DeveloperCrawler.DateAt | services/huawei_developer_blog_crawler.py:314 | a date match is 8 to 10 characters long and lies within the text |
| DeveloperCrawler.DateAtMatchesPattern | services/huawei_developer_blog_crawler.py:314 | what is matched has the shape `\d{4}[-/]\d{1,2}[-/]\d{1,2}` and no longer prefix has it (the match is greedy), and a text starting with that shape is matched |
| DeveloperCrawler.FirstDate | services/huawei_developer_blog_crawler.py:314 | the leftmost match: the text at the first position where a date starts, as long as the match there; none iff no position starts a date |
| DeveloperCrawler.DateAtDashed | services/huawei_developer_blog_crawler.py:316 | turning `/` into `-` keeps a match a match |
| DeveloperCrawler.DateFrom | services/huawei_developer_blog_crawler.py:302-317 | the date is today's, or a whole date match with no `/` left |
| DeveloperCrawler.DateFromFirstMatch | services/huawei_developer_blog_crawler.py:302-317 | the date comes from the first selector whose element's text holds a date, with `/` turned into `-`; today's date when no selector gives one |
| DeveloperCrawler.DeveloperBlogCrawler.ReadDate | services/huawei_developer_blog_crawler.py:302-317 | the date loop gives that date |
| DeveloperCrawler.TextsOnly | services/huawei_developer_blog_crawler.py:342 | what survives after the bar holds text nodes only |
| DeveloperCrawler.CutFindsOperations | services/huawei_developer_blog_crawler.py:339-344 | a bar is cut iff the area has one; an area without a bar is left as it is |
| DeveloperCrawler.CutAtTopLevel | services/huawei_developer_blog_crawler.py:339-344 | a top-level bar goes with every element after it; earlier nodes and later text nodes stay |
| DeveloperCrawler.OperationsGiveNothing | services/huawei_developer_blog_crawler.py:337-367 | no block comes from the bar or from anything after it: the content is that of the nodes before the bar |
| DeveloperCrawler.CutNested | services/huawei_developer_blog_crawler.py:338-344 | a bar nested in an element, with no bar before that element, is cut within the element's children; the nodes before and after the element stay |
| DeveloperCrawler.OperationsNestedGiveNothing | services/huawei_developer_blog_crawler.py:337-367 | with a nested bar the content is the blocks before the enclosing element, those of the element and of its children as cut, then those after it |
| DeveloperCrawler.NodeBlocks | services/huawei_developer_blog_crawler.py:348-367 | a `p` or `div` gives one text block of its stripped text iff that is longer than 10 characters; an `img` gives one image block of its completed `src` iff `src` is non-empty; any other node gives nothing |
| DeveloperCrawler.BlocksWellFormed | services/huawei_developer_blog_crawler.py:347-367 | every block of the traversal is well formed |
| DeveloperCrawler.DeveloperBlogCrawler.BlocksOfNode | services/huawei_developer_blog_crawler.py:348-367 | the loop body gives that node's blocks |
| DeveloperCrawler.DeveloperBlogCrawler.CollectBlocks | services/huawei_developer_blog_crawler.py:347-367 | the traversal loop gives the blocks of every descendant in document order |
| DeveloperCrawler.ContentOf | services/huawei_developer_blog_crawler.py:369-375 | content is never empty |
| DeveloperCrawler.PlaceholderExactlyWhenEmpty | services/huawei_developer_blog_crawler.py:369-375 | the placeholder appears iff nothing was extracted; otherwise every block is well formed |
| DeveloperCrawler.DeveloperBlogCrawler.ReadContent | services/huawei_developer_blog_crawler.py:320-375 | the content area, cut and traversed, or the placeholder |
| DeveloperCrawler.SummaryOf | services/huawei_developer_blog_crawler.py:377-382 | the summary has at most 200 characters |
| DeveloperCrawler.SummaryOpensFirstText | services/huawei_developer_blog_crawler.py:378-382 | the summary is the first 200 characters of the first text block, and "" when every block is an image |
| DeveloperCrawler.SummaryEmptyIffNoText | services/huawei_developer_blog_crawler.py:377-382 | a post's summary is empty iff its content holds no text block |
| DeveloperCrawler.FirstText | services/huawei_developer_blog_crawler.py:379-382 | the index found holds a text block and only images precede it |
| DeveloperCrawler.DeveloperBlogCrawler.Summarize | services/huawei_developer_blog_crawler.py:377-382 | the summary loop gives that summary |
| DeveloperCrawler.PostOf | services/huawei_developer_blog_crawler.py:384-392 | a post carries its URL, a non-empty title, non-empty content and the constant category and source "Huawei Developer" |
| DeveloperCrawler.PostAt | services/huawei_developer_blog_crawler.py:251-401 | a post comes back iff the page loads, with its URL, a non-empty title and non-empty content |
| DeveloperCrawler.DeveloperBlogCrawler.FetchArticleContent | services/huawei_developer_blog_crawler.py:251-401 | the post of the loaded page, None when the driver fails or the page times out |
| DeveloperCrawler.PostsFollowLinks | services/huawei_developer_blog_crawler.py:423-430 | every post comes from one of the links and carries it; when every page loads there is one post per link |
| DeveloperCrawler.CrawlResult | services/huawei_developer_blog_crawler.py:403-436 | a crawl returns at most max_articles posts |
| DeveloperCrawler.DeveloperBlogCrawler.CrawlAll | services/huawei_developer_blog_crawler.py:403-436 | the posts of the harvested links whose pages load, in link order |
| DeveloperCrawler.CrawlHuaweiDeveloperBlog | services/huawei_developer_blog_crawler.py:440-451 | a crawl of the default site |
| Dom.FirstAttr | services/huawei_blog_crawler.py:326-330 | the first present and non-empty attribute; none iff every listed attribute is missing or empty |
| Dom.GetText | services/huawei_blog_crawler.py:347 | the joined text is non-empty iff some text string is non-blank |
| Dom.FindAll | services/huawei_blog_crawler.py:336 | an element is found iff it is a descendant of the forest with the tag asked for |

## Left out

- Browser automation is not modelled: driver creation and options, waits, clicks, scrolling, window handles, `back`, `page_source`. Each crawler gets an oracle value instead. `BlogCrawler.Browser` gives per-index listings, attempts and tab outcomes; `DeveloperCrawler.Site` gives per-scroll selector results and per-URL detail pages; `ApiCrawler` gets the outcome of each article's launch attempt, per-URL pages and the rendered text of an element.
- The `driver` field of `HuaweiDeveloperBlogCrawler` and its `_init_driver`/`_close_driver` are not fields of the model. Every operation starts a new driver first, so only whether that succeeds (`Site.starts`, `Detail.Unavailable`) affects the result.
- HTTP requests and JSON decoding are not modelled. The blog-list reply is a parameter: a failure, or the decoded `resultList`. Fields whose JSON value is not a string are not modelled.
- `md5`, `urljoin`, `timedelta` arithmetic, `strftime` and `isoformat` are function parameters. Only their determinism is assumed.
- `datetime.now` is read once per crawl or per load: `ApiCrawler.MappedItems` and `Cache` take one `nowText`, `DeveloperCrawler.CrawlAll` one `today`, and `Timestamps.NormalizeTime` one `Clock`. The source reads the clock again for each item without a usable publish time (services/huawei_blog_api_crawler.py:207, 219, 221), for each article (services/huawei_developer_blog_crawler.py:302) and for each card label, so across a crawl that runs past a second or midnight its values can differ.
- Random sleeps, logging and printing are not modelled, nor the debug link dump in `fetch_article_urls`.
- In `fetch_article_urls`, exceptions raised outside a single element are not modelled. Examples are the scroll script failing or the page being lost mid-loop. Per-element failures are: a detached element, failing ancestor and child lookups.
- `get_attribute('href')` (services/huawei_developer_blog_crawler.py:204-216) and `get_attribute('src')`/`get_attribute('data-src')` (services/huawei_blog_api_crawler.py:179) are modelled as the raw attributes. Selenium may return them already resolved to absolute URLs, in which case the relative-link and relative-image cases never arise.
- HTML parsing is not modelled: detail pages arrive parsed as trees of text nodes and elements. Comment nodes and other non-element, non-text nodes are not modelled. Neither are the strings inside `<script>`, `<style>` and `<template>`, which BeautifulSoup's `get_text` skips: a tree given to the model is taken to have none, since `TextPieces` would count them as text.
- CSS selectors are modelled only in the compound forms the crawlers use: tag, id, class, attribute presence, attribute substring. The descendant combinators `.title-text a`, `.blog-item a` and `.article-item a` are folded into the `Site.found` oracle together with the other article selectors.
- `\d`, `isdigit` and `lower` are modelled on ASCII only; Python also accepts other Unicode digits and cased letters. `strip` uses Python's whitespace set.
- `DeveloperCrawler.CutOperations`: `decompose` is modelled as building the pruned tree as a new value, not as in-place mutation of the parsed document. `HuaweiBlogCrawler._remove_operations_blocks` likewise runs on the parsed content (`BlogCrawler.PruneOps`) rather than through JavaScript in the live page.
- `BlogCrawler.CrawlLatestArticles`: `driver.quit()` in the `finally` block (services/huawei_blog_crawler.py:115-116) is outside any `try`, so an exception it raises reaches the caller and the collected articles are lost. The model treats quitting as always succeeding.
- `BlogCrawler.CrawlLatestArticles`: an exception raised by the batch callback is not modelled. The callback's arguments are returned as `batches` instead.
- `BannerCache`, the singleton getters and `init_cache` are not part of this model. They hold no logic beyond lazy global initialization. The `templates/` scaffolding and the test and server scripts are not part of this model either.
- `Cache.NewsCache.LoadInitialData`: logging is not modelled. The logging calls are what can raise outside the inner `try`, so where an exception escapes is a parameter (`LoadFault`): the opening log call, the inner handler's log call after the inner block failed (with the articles added already or not), or the closing log call.
- `ApiCrawler.Crawler`: `__del__` quitting the browser is not modelled, since it depends on garbage collection.
- Where the code and its own documentation differ, the model follows the code:
  - The module docstring of `HuaweiBlogCrawler` (services/huawei_blog_crawler.py:20-21) promises to remove everything below the operations section. The code removes only the `div.operations` elements themselves, and it has no placeholder for empty content.
  - `HuaweiDeveloperBlogCrawler` removes the first operations bar and only its following element siblings. Text siblings stay, because `find_next_siblings()` yields elements only.
- `DeveloperCrawler.Admit`: relative links are not deduplicated, because the duplicate check compares the raw href with the completed URLs. This is stated as `DeveloperCrawler.RelativeLinkStoredTwice`. It is not listed as a defect: Selenium's resolved hrefs make it latent.
