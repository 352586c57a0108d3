/**
 * The blog-list API crawler (`HuaweiBlogAPICrawler`): API items are mapped to
 * articles, filtered by a case-sensitive keyword, paged in memory, and each
 * article of the page gets its body from a browser-rendered detail page.
 *
 * The network and the browser are parameters: `api` is the reply to the
 * blog-list request for a given page size, `pages` the detail page a URL
 * loads, `rendered` Selenium's visible text of an element, and `launches`
 * what the attempt to start Chrome made for the `i`-th article does. `hash` is `md5(...).hexdigest()`.
 */
module ApiCrawler {
  import opened Wrappers
  import opened Strings
  import opened Seqs
  import opened Dom
  import opened Records
  import opened Timestamps

  // ---------------------------------------------------------------------
  // Items of the blog-list reply
  // ---------------------------------------------------------------------

  /** One element of `resultList`; a field the JSON lacks is None. */
  datatype Item = Item(blogId: Option<string>, title: Option<string>, publishTime: Option<string>, summary: Option<string>)

  /** The reply to the blog-list request: a transport or HTTP failure, or the decoded `resultList` (None when absent). */
  datatype ApiReply = Failed | Reply(resultList: Option<seq<Item>>)

  const TopicUrlPrefix := "https://developer.huawei.com/consumer/cn/blog/topic/"

  /** The article one API item becomes, for an item that carries a `blogId`. */
  function ItemArticle(item: Item, blogId: string, hash: string -> string, nowText: string): Article {
    var summary := item.summary.GetOr("");
    Article(hash(blogId), item.title.GetOr(""), TopicUrlPrefix + blogId,
            FormatCompactTime(item.publishTime.GetOr(""), nowText),
            BlogSource, summary, HuaweiDeveloper, [Text(summary)])
  }

  /** The item's id can be read back from the article's URL. */
  lemma TopicUrlRoundTrip(item: Item, blogId: string, hash: string -> string, nowText: string)
    ensures var a := ItemArticle(item, blogId, hash, nowText);
      StartsWith(a.url, TopicUrlPrefix) && a.url[|TopicUrlPrefix|..] == blogId
  {
  }

  predicate AllHaveIds(items: seq<Item>) {
    forall i :: 0 <= i < |items| ==> items[i].blogId.Some?
  }

  /** The articles of a run of items, one per item in order; None when some item lacks `blogId`. */
  function MappedItems(items: seq<Item>, hash: string -> string, nowText: string): (r: Option<seq<Article>>)
    ensures r.None? <==> !AllHaveIds(items)
    ensures r.Some? ==> |r.value| == |items|
  {
    if items == [] then Some([])
    else
      var init := items[..|items| - 1];
      var last := items[|items| - 1];
      assert forall i :: 0 <= i < |init| ==> init[i] == items[i];
      match MappedItems(init, hash, nowText)
      case None => None
      case Some(front) =>
        match last.blogId
        case None => None
        case Some(id) => Some(front + [ItemArticle(last, id, hash, nowText)])
  }

  /** Each mapped article is the one its item becomes. */
  lemma {:induction false} MappedItemsPointwise(items: seq<Item>, hash: string -> string, nowText: string, i: nat)
    requires AllHaveIds(items) && i < |items|
    ensures MappedItems(items, hash, nowText).value[i] == ItemArticle(items[i], items[i].blogId.value, hash, nowText)
  {
    var init := items[..|items| - 1];
    assert forall k :: 0 <= k < |init| ==> init[k] == items[k];
    if i < |items| - 1 {
      MappedItemsPointwise(init, hash, nowText, i);
    }
  }

  /**
   * The `for item in result_list` loop: one article per item, in order. An
   * item without `blogId` raises `KeyError`, which abandons the whole list.
   */
  method MapItems(items: seq<Item>, hash: string -> string, nowText: string) returns (r: Option<seq<Article>>)
    ensures r == MappedItems(items, hash, nowText)
  {
    var articles: seq<Article> := [];
    var i := 0;
    while i < |items|
      invariant 0 <= i <= |items|
      invariant MappedItems(items[..i], hash, nowText) == Some(articles)
    {
      assert items[..i + 1][..i] == items[..i];
      match items[i].blogId
      case None =>
        assert !AllHaveIds(items);
        return None;
      case Some(id) =>
        articles := articles + [ItemArticle(items[i], id, hash, nowText)];
        i := i + 1;
    }
    assert items[..i] == items;
    return Some(articles);
  }

  // ---------------------------------------------------------------------
  // Keyword filter and paging
  // ---------------------------------------------------------------------

  /** `keyword in title or keyword in summary`, case-sensitive. */
  predicate MentionsKeyword(a: Article, keyword: string) {
    Contains(a.title, keyword) || Contains(a.summary, keyword)
  }

  /**
   * The keyword filter: with a non-empty keyword, exactly the articles that
   * mention it, in their original order; with an empty keyword, all of them.
   */
  method KeywordFilter(articles: seq<Article>, keyword: string) returns (r: seq<Article>)
    ensures keyword == "" ==> r == articles
    ensures keyword != "" ==> r == Filter(articles, a => MentionsKeyword(a, keyword))
  {
    if keyword == "" {
      return articles;
    }
    var keep := a => MentionsKeyword(a, keyword);
    r := [];
    var i := 0;
    while i < |articles|
      invariant 0 <= i <= |articles|
      invariant r == Filter(articles[..i], keep)
    {
      var a := articles[i];
      assert articles[..i + 1] == articles[..i] + [a];
      FilterAppend(articles[..i], [a], keep);
      assert Filter([a], keep) == if MentionsKeyword(a, keyword) then [a] else [] by {
        assert [a][1..] == [];
      }
      if MentionsKeyword(a, keyword) {
        r := r + [a];
      }
      i := i + 1;
    }
    assert articles[..i] == articles;
  }

  /** Every article the filter keeps mentions the keyword, and every article that mentions it is kept. */
  lemma KeywordFilterExact(articles: seq<Article>, keyword: string)
    ensures var r := Filter(articles, a => MentionsKeyword(a, keyword));
      && (forall i :: 0 <= i < |r| ==> MentionsKeyword(r[i], keyword))
      && (forall i :: 0 <= i < |articles| && MentionsKeyword(articles[i], keyword) ==> articles[i] in r)
  {
  }

  /** The number of items requested: `max(max_articles, page * page_size, 50)`. */
  function FetchSize(maxArticles: int, page: int, pageSize: int): (n: nat)
    ensures n >= maxArticles && n >= page * pageSize && n >= 50
    ensures n == maxArticles || n == page * pageSize || n == 50
  {
    var m := if maxArticles >= page * pageSize then maxArticles else page * pageSize;
    if m >= 50 then m else 50
  }

  // ---------------------------------------------------------------------
  // Detail content
  // ---------------------------------------------------------------------

  /** What loading a detail page gives: an exception with its message, or the rendered document. */
  datatype DetailPage = Unreachable(error: string) | Loaded(doc: seq<Node>)

  const BrowserFailed := "浏览器初始化失败"
  const NoContentArea := "无法找到文章内容区域"
  const EmptyContent := "文章内容为空"
  const FetchFailedPrefix := "内容抓取失败: "
  const SiteRoot := "https://developer.huawei.com"

  /** The content-area selectors, in the order they are waited for. */
  const ContentSelectors: seq<Selector> := [
    [Tag("div"), Id("blogContent")],
    [Tag("div"), Class("blog-content")],
    [Tag("div"), Class("article-content")],
    [Tag("div"), Class("post-content")],
    [Tag("article")],
    [Tag("div"), Class("content")],
    [Tag("div"), Class("main-content")]
  ]

  /** `xs[k]` has the longest rendered text, and every earlier element a strictly shorter one. */
  predicate IsFirstLongest(xs: seq<Node>, k: nat, rendered: Node -> string) {
    && k < |xs|
    && (forall j :: 0 <= j < |xs| ==> |rendered(xs[j])| <= |rendered(xs[k])|)
    && (forall j :: 0 <= j < k ==> |rendered(xs[j])| < |rendered(xs[k])|)
  }

  /** `max(xs, key=lambda x: len(x.text))`: Python's `max` keeps the first of equal maxima. */
  function FirstLongest(xs: seq<Node>, rendered: Node -> string): (k: nat)
    requires xs != []
    ensures IsFirstLongest(xs, k, rendered)
  {
    if |xs| == 1 then 0
    else
      var init := xs[..|xs| - 1];
      var k := FirstLongest(init, rendered);
      assert forall j :: 0 <= j < |init| ==> init[j] == xs[j];
      if |rendered(xs[|xs| - 1])| > |rendered(xs[k])| then |xs| - 1 else k
  }

  /** The first content selector present, else the div with the longest text, else none. */
  function ContentElement(doc: seq<Node>, rendered: Node -> string): Option<Node> {
    match FirstHit(doc, ContentSelectors)
    case Some(n) => Some(n)
    case None =>
      var divs := FindAll(doc, "div");
      if divs == [] then None else Some(divs[FirstLongest(divs, rendered)])
  }

  /** A scheme-relative source gets `https:`, a root-relative one the site root, anything else is kept. */
  function AbsoluteImageUrl(src: string): (r: string)
    ensures StartsWith(src, "//") ==> r == "https:" + src
    ensures StartsWith(src, "/") && !StartsWith(src, "//") ==> r == SiteRoot + src
    ensures StartsWith(src, "/") ==> StartsWith(r, "https://")
    ensures !StartsWith(src, "/") ==> r == src
    ensures |r| >= |src| && r[|r| - |src|..] == src
  {
    if StartsWith(src, "//") then "https:" + src
    else if StartsWith(src, "/") then SiteRoot + src
    else src
  }

  /** `img.get_attribute('src') or img.get_attribute('data-src')`. */
  function ImageSource(img: Node): Option<string> {
    FirstAttr(img, ["src", "data-src"])
  }

  predicate HasImageSource(img: Node) {
    ImageSource(img).Some?
  }

  /** The block one `img` gives: its source made absolute, when it has one. */
  function ImageBlockOf(img: Node): Option<Block> {
    match ImageSource(img)
    case Some(src) => Some(Image(AbsoluteImageUrl(src)))
    case None => None
  }

  /** The image blocks of a run of `img` elements: one per image with a source, in order, its URL made absolute. */
  function ImageBlocks(imgs: seq<Node>): (bs: seq<Block>)
    ensures forall i :: 0 <= i < |bs| ==> bs[i].Image?
    ensures var sourced := Filter(imgs, HasImageSource);
      |bs| == |sourced| && forall i :: 0 <= i < |bs| ==> bs[i] == Image(AbsoluteImageUrl(ImageSource(sourced[i]).value))
  {
    SomesFiltered(imgs, ImageBlockOf, HasImageSource);
    Somes(imgs, ImageBlockOf)
  }

  predicate IsTextTag(n: Node) {
    n.Element? && n.name in {"p", "h1", "h2", "h3", "h4", "h5", "h6", "div"}
  }

  /** `.//p | .//h1 | ... | .//h6 | .//div`: the text-bearing descendants in document order. */
  function TextElements(ns: seq<Node>): seq<Node> {
    Filter(Descendants(ns), IsTextTag)
  }

  /** Texts longer than two characters, each kept only the first time it appears (the `seen_texts` set). */
  function FreshTexts(ts: seq<string>): (d: seq<string>)
    ensures |d| <= |ts|
    ensures forall i :: 0 <= i < |d| ==> |d[i]| > 2
    ensures forall i, j :: 0 <= i < j < |d| ==> d[i] != d[j]
  {
    if ts == [] then []
    else
      var d := FreshTexts(ts[..|ts| - 1]);
      var t := ts[|ts| - 1];
      if |t| > 2 && t !in d then d + [t] else d
  }

  /** Nothing is invented and nothing long is lost: the kept texts are exactly the long ones, without repeats. */
  lemma {:induction false} FreshTextsExact(ts: seq<string>)
    ensures forall t :: t in FreshTexts(ts) <==> t in ts && |t| > 2
  {
    if ts != [] {
      var init := ts[..|ts| - 1];
      FreshTextsExact(init);
      assert ts == init + [ts[|ts| - 1]];
    }
  }

  function TextBlocks(texts: seq<string>): (bs: seq<Block>)
    ensures |bs| == |texts|
    ensures forall i :: 0 <= i < |bs| ==> bs[i] == Text(texts[i])
  {
    seq(|texts|, i requires 0 <= i < |texts| => Text(texts[i]))
  }

  lemma TextBlocksSnoc(texts: seq<string>, t: string)
    ensures TextBlocks(texts + [t]) == TextBlocks(texts) + [Text(t)]
  {
    assert forall i :: 0 <= i < |texts| ==> (texts + [t])[i] == texts[i];
  }

  /** The stripped rendered texts of the text-bearing elements. */
  function StrippedTexts(elems: seq<Node>, rendered: Node -> string): (ts: seq<string>)
    ensures |ts| == |elems|
  {
    seq(|elems|, i requires 0 <= i < |elems| => Strip(rendered(elems[i])))
  }

  /** The blocks of a content element: its images first, then its distinct texts. */
  function AssembledBlocks(content: Node, rendered: Node -> string): seq<Block> {
    ImageBlocks(FindAll(Children(content), "img")) +
      TextBlocks(FreshTexts(StrippedTexts(TextElements(Children(content)), rendered)))
  }

  /** Images precede texts, texts are pairwise distinct and longer than two characters. */
  ghost predicate WellFormedContent(bs: seq<Block>) {
    && (forall i, j :: 0 <= i < j < |bs| && bs[i].Text? ==> bs[j].Text?)
    && (forall i, j :: 0 <= i < j < |bs| && bs[i].Text? && bs[j].Text? ==> bs[i].value != bs[j].value)
    && (forall i :: 0 <= i < |bs| && bs[i].Text? ==> |bs[i].value| > 2)
  }

  /**
   * What one attempt to start Chrome in `_get_driver` does: `uc.Chrome`
   * raises; or it returns and `execute_script` raises, so the driver is kept
   * but the call still reports failure; or both succeed.
   */
  datatype Launch = LaunchFails | HalfStarted | Starts

  /** Whether a browser is kept after the attempts of the first `n` articles, from the state `open`. */
  function OpenAfter(open: bool, launches: nat -> Launch, n: nat): bool {
    if n == 0 then open else OpenAfter(open, launches, n - 1) || !launches(n - 1).LaunchFails?
  }

  /** A browser is kept iff one was open at the start or some attempt got past `uc.Chrome`. */
  lemma {:induction false} OpenAfterSome(open: bool, launches: nat -> Launch, n: nat)
    ensures OpenAfter(open, launches, n) <==> open || exists j :: 0 <= j < n && !launches(j).LaunchFails?
  {
    if n > 0 {
      OpenAfterSome(open, launches, n - 1);
      assert !launches(n - 1).LaunchFails? ==> exists j :: 0 <= j < n && !launches(j).LaunchFails?;
    }
  }

  /** Whether `_get_driver` hands a browser to the `i`-th article. */
  predicate UsableAt(open: bool, launches: nat -> Launch, i: nat) {
    OpenAfter(open, launches, i) || launches(i).Starts?
  }

  /** A kept browser stays kept, and every later article is served by it. */
  lemma {:induction false} OpenStays(open: bool, launches: nat -> Launch, i: nat, j: nat)
    requires i <= j && OpenAfter(open, launches, i)
    ensures OpenAfter(open, launches, j) && UsableAt(open, launches, j)
    decreases j - i
  {
    if i < j {
      assert OpenAfter(open, launches, i + 1);
      OpenStays(open, launches, i + 1, j);
    }
  }

  /**
   * A half-started browser fails its own article with the browser message,
   * yet serves the next one; a launch that fails outright is retried for the
   * next article.
   */
  lemma HalfStartedServesNext(open: bool, launches: nat -> Launch, i: nat, page: DetailPage, rendered: Node -> string)
    requires !OpenAfter(open, launches, i)
    ensures launches(i).HalfStarted? ==>
      ContentOf(UsableAt(open, launches, i), page, rendered) == [Text(BrowserFailed)] && UsableAt(open, launches, i + 1)
    ensures launches(i).LaunchFails? ==>
      ContentOf(UsableAt(open, launches, i), page, rendered) == [Text(BrowserFailed)]
      && (UsableAt(open, launches, i + 1) <==> launches(i + 1).Starts?)
  {
  }

  /** `_fetch_article_content` for a browser that is (or is not) available and a page it loads. */
  function ContentOf(available: bool, page: DetailPage, rendered: Node -> string): seq<Block> {
    if !available then [Text(BrowserFailed)]
    else match page
      case Unreachable(e) => [Text(FetchFailedPrefix + e)]
      case Loaded(doc) =>
        match ContentElement(doc, rendered)
        case None => [Text(NoContentArea)]
        case Some(c) =>
          var bs := AssembledBlocks(c, rendered);
          if bs == [] then [Text(EmptyContent)] else bs
  }

  /** Image blocks followed by the text blocks of distinct long texts are well formed. */
  lemma ImagesThenTexts(imgs: seq<Block>, d: seq<string>)
    requires forall i :: 0 <= i < |imgs| ==> imgs[i].Image?
    requires forall i :: 0 <= i < |d| ==> |d[i]| > 2
    requires forall i, j :: 0 <= i < j < |d| ==> d[i] != d[j]
    ensures WellFormedContent(imgs + TextBlocks(d))
  {
    var txt := TextBlocks(d);
    var bs := imgs + txt;
    forall i, j | 0 <= i < j < |bs| && bs[i].Text? ensures bs[j].Text? {
      assert i >= |imgs|;
    }
    forall i, j | 0 <= i < j < |bs| && bs[i].Text? && bs[j].Text? ensures bs[i].value != bs[j].value {
      assert i >= |imgs| && bs[i] == txt[i - |imgs|] && bs[j] == txt[j - |imgs|];
    }
    forall i | 0 <= i < |bs| && bs[i].Text? ensures |bs[i].value| > 2 {
      assert i >= |imgs| && bs[i] == txt[i - |imgs|];
    }
  }

  lemma AssembledWellFormed(content: Node, rendered: Node -> string)
    ensures WellFormedContent(AssembledBlocks(content, rendered))
  {
    var imgs := ImageBlocks(FindAll(Children(content), "img"));
    var d := FreshTexts(StrippedTexts(TextElements(Children(content)), rendered));
    ImagesThenTexts(imgs, d);
  }

  /**
   * The detail content is never empty, keeps every image before every text,
   * and has no text block twice or of two characters or fewer.
   */
  lemma {:induction false} ContentWellFormed(available: bool, page: DetailPage, rendered: Node -> string)
    ensures ContentOf(available, page, rendered) != []
    ensures WellFormedContent(ContentOf(available, page, rendered))
  {
    if available && page.Loaded? {
      match ContentElement(page.doc, rendered)
      case None =>
      case Some(c) => AssembledWellFormed(c, rendered);
    }
  }

  /** A detail page whose content area has neither an image with a source nor a text longer than two characters gives the placeholder. */
  lemma EmptyContentPlaceholder(doc: seq<Node>, rendered: Node -> string, c: Node)
    requires ContentElement(doc, rendered) == Some(c)
    requires forall i :: 0 <= i < |FindAll(Children(c), "img")| ==> ImageSource(FindAll(Children(c), "img")[i]).None?
    requires forall t :: t in StrippedTexts(TextElements(Children(c)), rendered) ==> |t| <= 2
    ensures ContentOf(true, Loaded(doc), rendered) == [Text(EmptyContent)]
  {
    NothingAssembled(c, rendered);
    PlaceholderWhenNothingAssembled(doc, rendered, c);
  }

  lemma PlaceholderWhenNothingAssembled(doc: seq<Node>, rendered: Node -> string, c: Node)
    requires ContentElement(doc, rendered) == Some(c)
    requires AssembledBlocks(c, rendered) == []
    ensures ContentOf(true, Loaded(doc), rendered) == [Text(EmptyContent)]
  {
  }

  lemma NothingAssembled(c: Node, rendered: Node -> string)
    requires forall i :: 0 <= i < |FindAll(Children(c), "img")| ==> ImageSource(FindAll(Children(c), "img")[i]).None?
    requires forall t :: t in StrippedTexts(TextElements(Children(c)), rendered) ==> |t| <= 2
    ensures AssembledBlocks(c, rendered) == []
  {
    NoImageBlocks(FindAll(Children(c), "img"));
    NoFreshTexts(StrippedTexts(TextElements(Children(c)), rendered));
  }

  lemma {:induction false} NoFreshTexts(ts: seq<string>)
    requires forall t :: t in ts ==> |t| <= 2
    ensures FreshTexts(ts) == []
  {
    if ts != [] {
      assert ts[|ts| - 1] in ts;
      NoFreshTexts(ts[..|ts| - 1]);
    }
  }

  lemma {:induction false} NoImageBlocks(imgs: seq<Node>)
    requires forall i :: 0 <= i < |imgs| ==> ImageSource(imgs[i]).None?
    ensures ImageBlocks(imgs) == []
  {
    if imgs != [] {
      var init := imgs[..|imgs| - 1];
      assert forall i :: 0 <= i < |init| ==> init[i] == imgs[i];
      NoImageBlocks(init);
      assert ImageBlockOf(imgs[|imgs| - 1]).None?;
    }
  }

  /** The blog-list crawler's state: the lazily started browser. */
  class Crawler {
    var driverOpen: bool

    constructor()
      ensures !driverOpen
    {
      driverOpen := false;
    }

    /**
     * `_get_driver`: reuse the open browser, or try to start one. A start
     * whose `execute_script` raises keeps the driver yet reports failure.
     */
    method GetDriver(launch: Launch) returns (ok: bool)
      modifies this
      ensures driverOpen == (old(driverOpen) || !launch.LaunchFails?)
      ensures ok == (old(driverOpen) || launch.Starts?)
      ensures ok ==> driverOpen
    {
      if driverOpen {
        return true;
      }
      match launch
      case LaunchFails =>
        ok := false;
      case HalfStarted =>
        driverOpen := true;
        ok := false;
      case Starts =>
        driverOpen := true;
        ok := true;
    }

    /**
     * The blocks of the content element: images first, then each stripped
     * text longer than two characters that has not been seen before.
     */
    static method AssembleBlocks(content: Node, rendered: Node -> string) returns (blocks: seq<Block>)
      ensures blocks == AssembledBlocks(content, rendered)
    {
      var images := CollectImages(FindAll(Children(content), "img"));
      var texts := CollectTexts(TextElements(Children(content)), rendered);
      blocks := images + texts;
    }

    /** The image loop: one block per image that has a source, with its URL made absolute. */
    static method CollectImages(imgs: seq<Node>) returns (blocks: seq<Block>)
      ensures blocks == ImageBlocks(imgs)
    {
      blocks := [];
      var i := 0;
      while i < |imgs|
        invariant 0 <= i <= |imgs|
        invariant blocks == ImageBlocks(imgs[..i])
      {
        assert imgs[..i + 1] == imgs[..i] + [imgs[i]];
        SomesSnoc(imgs[..i], imgs[i], ImageBlockOf);
        var src := ImageSource(imgs[i]);
        if src.Some? {
          blocks := blocks + [Image(AbsoluteImageUrl(src.value))];
        }
        i := i + 1;
      }
      assert imgs[..i] == imgs;
    }

    /** The text loop with its `seen_texts` set: each long stripped text once, at its first appearance. */
    static method CollectTexts(elems: seq<Node>, rendered: Node -> string) returns (blocks: seq<Block>)
      ensures blocks == TextBlocks(FreshTexts(StrippedTexts(elems, rendered)))
    {
      var texts := StrippedTexts(elems, rendered);
      var seen: set<string> := {};
      ghost var kept: seq<string> := [];
      blocks := [];
      var j := 0;
      while j < |elems|
        invariant 0 <= j <= |elems|
        invariant kept == FreshTexts(texts[..j])
        invariant forall t :: t in seen <==> t in kept
        invariant blocks == TextBlocks(kept)
      {
        assert texts[..j + 1][..j] == texts[..j];
        var text := Strip(rendered(elems[j]));
        assert text == texts[..j + 1][j];
        if |text| > 2 && text !in seen {
          seen := seen + {text};
          TextBlocksSnoc(kept, text);
          kept := kept + [text];
          blocks := blocks + [Text(text)];
        }
        j := j + 1;
      }
      assert texts[..j] == texts;
    }

    /**
     * `_fetch_article_content`: the browser is started if need be; the
     * content follows `ContentOf` for the page the URL loads.
     */
    method FetchArticleContent(url: string, launch: Launch, pages: string -> DetailPage, rendered: Node -> string)
      returns (content: seq<Block>)
      modifies this
      ensures driverOpen == (old(driverOpen) || !launch.LaunchFails?)
      ensures content == ContentOf(old(driverOpen) || launch.Starts?, pages(url), rendered)
    {
      var ok := GetDriver(launch);
      if !ok {
        return [Text(BrowserFailed)];
      }
      match pages(url)
      case Unreachable(e) =>
        content := [Text(FetchFailedPrefix + e)];
      case Loaded(doc) =>
        var element := ContentElement(doc, rendered);
        match element
        case None =>
          content := [Text(NoContentArea)];
        case Some(c) =>
          content := AssembleBlocks(c, rendered);
          if content == [] {
            content := [Text(EmptyContent)];
          }
    }

    /** One turn of the loop over the page: the `i`-th article with its content, as the earlier attempts left the browser. */
    method FetchNext(listing: seq<Article>, i: nat, ghost open: bool, launches: nat -> Launch, pages: string -> DetailPage, rendered: Node -> string)
      returns (article: Article)
      requires i < |listing| && driverOpen == OpenAfter(open, launches, i)
      modifies this
      ensures driverOpen == OpenAfter(open, launches, i + 1)
      ensures WithContents(listing[..i + 1], open, launches, pages, rendered) == WithContents(listing[..i], open, launches, pages, rendered) + [article]
    {
      ghost var usable := driverOpen || launches(i).Starts?;
      assert usable == UsableAt(open, launches, i);
      var c := FetchArticleContent(listing[i].url, launches(i), pages, rendered);
      WithContentsStep(listing, i, open, launches, pages, rendered, usable, c);
      article := listing[i].(content := c);
    }

    /** The loop over the page: each listed article with the content of its detail page, in order. */
    method FillContents(listing: seq<Article>, launches: nat -> Launch, pages: string -> DetailPage, rendered: Node -> string)
      returns (articles: seq<Article>)
      modifies this
      ensures driverOpen == OpenAfter(old(driverOpen), launches, |listing|)
      ensures articles == WithContents(listing, old(driverOpen), launches, pages, rendered)
    {
      articles := [];
      ghost var open := driverOpen;
      var i := 0;
      while i < |listing|
        invariant 0 <= i <= |listing|
        invariant driverOpen == OpenAfter(open, launches, i)
        invariant articles == WithContents(listing[..i], open, launches, pages, rendered)
      {
        var article := FetchNext(listing, i, open, launches, pages, rendered);
        articles := articles + [article];
        i := i + 1;
      }
      assert listing[..i] == listing;
    }

    /**
     * `crawl_latest_articles`: the page of the keyword-filtered listing, each
     * article with its detail content; `[]` when the request fails or an item
     * lacks its id.
     */
    method CrawlLatestArticles(maxArticles: int, page: int, pageSize: int, keyword: string,
                               api: nat -> ApiReply, hash: string -> string, nowText: string,
                               launches: nat -> Launch, pages: string -> DetailPage, rendered: Node -> string)
      returns (articles: seq<Article>)
      modifies this
      ensures var listing := Listing(api(FetchSize(maxArticles, page, pageSize)), keyword, page, pageSize, hash, nowText);
        && |articles| == |listing|
        && (forall i :: 0 <= i < |listing| ==>
              articles[i] == listing[i].(content := ContentOf(UsableAt(old(driverOpen), launches, i), pages(listing[i].url), rendered)))
        && driverOpen == OpenAfter(old(driverOpen), launches, |listing|)
    {
      var reply := api(FetchSize(maxArticles, page, pageSize));
      if reply.Failed? {
        return [];
      }
      var mapped := MapItems(reply.resultList.GetOr([]), hash, nowText);
      if mapped.None? {
        return [];
      }
      var base := KeywordFilter(mapped.value, keyword);
      var paginated := Page(base, page, pageSize);
      assert paginated == Listing(reply, keyword, page, pageSize, hash, nowText);
      articles := FillContents(paginated, launches, pages, rendered);
      WithContentsAt(paginated, old(driverOpen), launches, pages, rendered);
    }
  }

  /** The page of the listing before detail content is fetched. */
  function Listing(reply: ApiReply, keyword: string, page: int, pageSize: int, hash: string -> string, nowText: string): seq<Article> {
    if reply.Failed? then []
    else match MappedItems(reply.resultList.GetOr([]), hash, nowText)
      case None => []
      case Some(mapped) =>
        var base := if keyword == "" then mapped else Filter(mapped, a => MentionsKeyword(a, keyword));
        Page(base, page, pageSize)
  }

  /** The listing with each article's detail content filled in, in order, the `i`-th fetched with the `i`-th launch. */
  function WithContents(listing: seq<Article>, open: bool, launches: nat -> Launch, pages: string -> DetailPage, rendered: Node -> string): (r: seq<Article>)
    ensures |r| == |listing|
  {
    if listing == [] then []
    else
      var a := listing[|listing| - 1];
      WithContents(listing[..|listing| - 1], open, launches, pages, rendered)
        + [a.(content := ContentOf(UsableAt(open, launches, |listing| - 1), pages(a.url), rendered))]
  }

  lemma WithContentsSnoc(listing: seq<Article>, a: Article, open: bool, launches: nat -> Launch, pages: string -> DetailPage, rendered: Node -> string)
    ensures WithContents(listing + [a], open, launches, pages, rendered)
      == WithContents(listing, open, launches, pages, rendered) + [a.(content := ContentOf(UsableAt(open, launches, |listing|), pages(a.url), rendered))]
  {
    assert (listing + [a])[..|listing|] == listing;
  }

  /** One more article, fetched with the browser as the earlier attempts left it, extends the result by that article. */
  lemma WithContentsStep(listing: seq<Article>, i: nat, open: bool, launches: nat -> Launch, pages: string -> DetailPage, rendered: Node -> string,
                         usable: bool, c: seq<Block>)
    requires i < |listing| && usable == UsableAt(open, launches, i)
    requires c == ContentOf(usable, pages(listing[i].url), rendered)
    ensures WithContents(listing[..i + 1], open, launches, pages, rendered)
      == WithContents(listing[..i], open, launches, pages, rendered) + [listing[i].(content := c)]
  {
    var front := listing[..i];
    assert |front| == i;
    assert listing[..i + 1] == front + [listing[i]];
    WithContentsSnoc(front, listing[i], open, launches, pages, rendered);
  }

  /** The `i`-th article with content is the `i`-th listed article with its own page's content, as the `i`-th launch left the browser. */
  lemma {:induction false} WithContentsAt(listing: seq<Article>, open: bool, launches: nat -> Launch, pages: string -> DetailPage, rendered: Node -> string)
    ensures forall i :: 0 <= i < |listing| ==>
      WithContents(listing, open, launches, pages, rendered)[i]
        == listing[i].(content := ContentOf(UsableAt(open, launches, i), pages(listing[i].url), rendered))
  {
    if listing != [] {
      WithContentsAt(listing[..|listing| - 1], open, launches, pages, rendered);
    }
  }

  /** Every mapped article carries the constant source and category. */
  lemma {:induction false} MappedConstants(items: seq<Item>, hash: string -> string, nowText: string)
    requires AllHaveIds(items)
    ensures forall a :: a in MappedItems(items, hash, nowText).value ==> a.source == BlogSource && a.category == HuaweiDeveloper
  {
    if items != [] {
      MappedConstants(items[..|items| - 1], hash, nowText);
    }
  }

  /**
   * For a real page number and size the crawl returns at most `pageSize`
   * articles, each of which mentions a non-empty keyword and carries the
   * constant source and category.
   */
  lemma ListingBounds(reply: ApiReply, keyword: string, page: int, pageSize: int, hash: string -> string, nowText: string)
    requires page >= 1 && pageSize >= 0
    ensures var l := Listing(reply, keyword, page, pageSize, hash, nowText);
      && |l| <= pageSize
      && (forall i :: 0 <= i < |l| ==> l[i].source == BlogSource && l[i].category == HuaweiDeveloper)
      && (keyword != "" ==> forall i :: 0 <= i < |l| ==> MentionsKeyword(l[i], keyword))
  {
    if reply.Reply? && AllHaveIds(reply.resultList.GetOr([])) {
      var mapped := MappedItems(reply.resultList.GetOr([]), hash, nowText).value;
      MappedConstants(reply.resultList.GetOr([]), hash, nowText);
      var base := if keyword == "" then mapped else Filter(mapped, a => MentionsKeyword(a, keyword));
      assert forall a :: a in base ==> a in mapped;
      assert keyword != "" ==> forall a :: a in base ==> MentionsKeyword(a, keyword);
      PageWithin(base, page, pageSize);
    }
  }
}
