/**
 * The in-memory news cache (`NewsCache`): a list of articles loaded from the
 * blog-list API, served page by page with an optional category filter and a
 * case-insensitive search, and enriched on demand with an article's detail
 * content.
 *
 * The network reply, the clock and the browser are parameters: `reply` is the
 * answer to the fifty-item blog-list request, `now` the instant of loading,
 * `nowText` its formatted text, `iso` `datetime.isoformat`, and `launch`,
 * `pages` and `rendered` the browser a detail fetch uses.
 */
module Cache {
  import opened Wrappers
  import opened Strings
  import opened Seqs
  import opened Dom
  import opened Records
  import opened Timestamps
  import opened ApiCrawler

  datatype ServiceStatus = Preparing | Ready | Error

  /** The enum's string value. */
  function StatusValue(s: ServiceStatus): (v: string)
    ensures v == "preparing" <==> s == Preparing
    ensures v == "ready" <==> s == Ready
    ensures v == "error" <==> s == Error
  {
    match s
    case Preparing => "preparing"
    case Ready => "ready"
    case Error => "error"
  }

  /** The page of articles `get_news` answers with. */
  datatype NewsResponse = NewsResponse(articles: seq<Article>, total: nat, page: int, pageSize: int, hasNext: bool, hasPrev: bool)

  /** The dictionary `get_status` answers with. */
  datatype StatusReport = StatusReport(status: string, errorMessage: Option<string>, lastUpdate: Option<string>, totalArticles: nat)

  /**
   * Where an exception escapes the outer `try` of `_load_initial_data`:
   * nowhere, before the list is reset (the opening log call), from the inner
   * handler (its error log call raising after the inner block failed, with
   * the articles already added or not), or after the cache was marked ready
   * (the closing log call).
   */
  datatype LoadFault =
    | NoFault
    | FaultBeforeReset(message: string)
    | FaultInHandler(message: string, extended: bool)
    | FaultAfterReady(message: string)

  /** Whether the load gets as far as marking the cache ready. */
  predicate ReachesReady(fault: LoadFault) {
    fault.NoFault? || fault.FaultAfterReady?
  }

  /** The number of items the cache asks the blog-list API for. */
  const BasicPageSize: nat := 50

  // ---------------------------------------------------------------------
  // Filtering
  // ---------------------------------------------------------------------

  /** Python truthiness of an optional string: present and non-empty. */
  predicate Given(s: Option<string>) {
    s.Some? && s.value != ""
  }

  /** The category filter keeps `a`: no category was given, or `a` has exactly that category. */
  predicate InCategory(a: Article, category: Option<string>) {
    !Given(category) || a.category == category.value
  }

  /** `term.lower()` occurs in the lower-cased title or summary. */
  predicate MentionsTerm(a: Article, term: string) {
    Contains(Lower(a.title), Lower(term)) || Contains(Lower(a.summary), Lower(term))
  }

  /** The search keeps `a`: no search was given, or it occurs in the title or the summary, ignoring case. */
  predicate MatchesSearch(a: Article, search: Option<string>) {
    !Given(search) || MentionsTerm(a, search.value)
  }

  /** The two list comprehensions of `get_news`: the category filter, then the search. */
  function Filtered(articles: seq<Article>, category: Option<string>, search: Option<string>): seq<Article> {
    var byCategory := if Given(category) then Filter(articles, (a: Article) => a.category == category.value) else articles;
    if Given(search) then
      Filter(byCategory, (a: Article) => MentionsTerm(a, search.value))
    else byCategory
  }

  /**
   * The filtered list is exactly the articles that pass both filters, in
   * their original order.
   */
  lemma FilteredExact(articles: seq<Article>, category: Option<string>, search: Option<string>)
    ensures Filtered(articles, category, search) == Filter(articles, a => InCategory(a, category) && MatchesSearch(a, search))
  {
    var both := (a: Article) => InCategory(a, category) && MatchesSearch(a, search);
    if Given(category) {
      var byCat := (a: Article) => a.category == category.value;
      if Given(search) {
        var bySearch := (a: Article) => MentionsTerm(a, search.value);
        FilterFilter(articles, byCat, bySearch, both);
      } else {
        FilterSame(articles, byCat, both);
      }
    } else if Given(search) {
      var bySearch := (a: Article) => MentionsTerm(a, search.value);
      FilterSame(articles, bySearch, both);
    } else {
      FilterKeepsAll(articles, both);
    }
  }

  /** Filters by predicates that agree everywhere are the same. */
  lemma {:induction false} FilterSame<T>(xs: seq<T>, p: T -> bool, q: T -> bool)
    requires forall x :: p(x) == q(x)
    ensures Filter(xs, p) == Filter(xs, q)
  {
    if xs != [] {
      FilterSame(xs[1..], p, q);
    }
  }

  /** `str.lower()` is idempotent. */
  lemma LowerIdempotent(s: string)
    ensures Lower(Lower(s)) == Lower(s)
  {
  }

  /** Searching for a term and for its lower-case form gives the same articles. */
  lemma SearchIgnoresCase(articles: seq<Article>, category: Option<string>, term: string)
    ensures Filtered(articles, category, Some(term)) == Filtered(articles, category, Some(Lower(term)))
  {
    LowerIdempotent(term);
    FilteredExact(articles, category, Some(term));
    FilteredExact(articles, category, Some(Lower(term)));
    FilterSame(articles, (a: Article) => InCategory(a, category) && MatchesSearch(a, Some(term)),
                         (a: Article) => InCategory(a, category) && MatchesSearch(a, Some(Lower(term))));
  }

  // ---------------------------------------------------------------------
  // Loading
  // ---------------------------------------------------------------------

  /** `_get_huawei_articles_basic` as a function: the mapped items, or none when the request or the mapping fails. */
  function BasicArticles(reply: ApiReply, hash: string -> string, nowText: string): seq<Article> {
    match reply
    case Failed => []
    case Reply(resultList) => MappedItems(resultList.GetOr([]), hash, nowText).GetOr([])
  }

  /** `_get_huawei_articles_basic`: every item of the reply mapped, or `[]` on any exception. */
  method GetHuaweiArticlesBasic(reply: ApiReply, hash: string -> string, nowText: string) returns (articles: seq<Article>)
    ensures articles == BasicArticles(reply, hash, nowText)
    ensures reply.Reply? && AllHaveIds(reply.resultList.GetOr([])) ==> |articles| == |reply.resultList.GetOr([])|
    ensures reply.Failed? || !AllHaveIds(reply.resultList.GetOr([])) ==> articles == []
  {
    if reply.Failed? {
      return [];
    }
    var mapped := MapItems(reply.resultList.GetOr([]), hash, nowText);
    articles := mapped.GetOr([]);
  }

  /** The first position holding an article with the given id. */
  function FirstWithId(articles: seq<Article>, id: string): (k: nat)
    requires exists i :: 0 <= i < |articles| && articles[i].id == id
    ensures k < |articles| && articles[k].id == id
    ensures forall j :: 0 <= j < k ==> articles[j].id != id
  {
    if articles[0].id == id then 0
    else
      var i :| 0 <= i < |articles| && articles[i].id == id;
      assert articles[1..][i - 1].id == id;
      1 + FirstWithId(articles[1..], id)
  }

  class NewsCache {
    var articles: seq<Article>
    var status: ServiceStatus
    var errorMessage: Option<string>
    var lastUpdate: Option<DateTime>

    /** A new cache starts preparing, empty, and loads at once. */
    constructor(reply: ApiReply, hash: string -> string, nowText: string, now: DateTime, fault: LoadFault)
      ensures status != Preparing
      ensures status == Ready <==> fault.NoFault?
      ensures status == Error <==> !fault.NoFault?
      ensures fault.FaultBeforeReset? ==> articles == []
      ensures fault.FaultInHandler? ==> articles == if fault.extended then BasicArticles(reply, hash, nowText) else []
      ensures ReachesReady(fault) ==> articles == BasicArticles(reply, hash, nowText)
      ensures lastUpdate == if ReachesReady(fault) then Some(now) else None
      ensures errorMessage == (if fault.NoFault? then None else Some(fault.message))
    {
      articles := [];
      status := Preparing;
      errorMessage := None;
      lastUpdate := None;
      new;
      LoadInitialData(reply, hash, nowText, now, fault);
    }

    /**
     * `_load_initial_data`: the list is rebuilt from the API reply and the
     * cache marked ready at `now`; an exception escaping the outer block marks
     * it as in error with the exception's message. A previous error message is
     * kept when loading succeeds.
     */
    method LoadInitialData(reply: ApiReply, hash: string -> string, nowText: string, now: DateTime, fault: LoadFault)
      modifies this
      ensures status != Preparing
      ensures fault.FaultBeforeReset? ==>
        articles == old(articles) && status == Error && errorMessage == Some(fault.message) && lastUpdate == old(lastUpdate)
      ensures fault.FaultInHandler? ==>
        && articles == (if fault.extended then BasicArticles(reply, hash, nowText) else [])
        && status == Error && errorMessage == Some(fault.message) && lastUpdate == old(lastUpdate)
      ensures ReachesReady(fault) ==> articles == BasicArticles(reply, hash, nowText) && lastUpdate == Some(now)
      ensures fault.NoFault? ==> status == Ready && errorMessage == old(errorMessage)
      ensures fault.FaultAfterReady? ==> status == Error && errorMessage == Some(fault.message)
    {
      if fault.FaultBeforeReset? {
        status := Error;
        errorMessage := Some(fault.message);
        return;
      }
      articles := [];
      var basic := GetHuaweiArticlesBasic(reply, hash, nowText);
      if fault.FaultInHandler? {
        if fault.extended {
          articles := articles + basic;
        }
        status := Error;
        errorMessage := Some(fault.message);
        return;
      }
      articles := articles + basic;
      status := Ready;
      lastUpdate := Some(now);
      if fault.FaultAfterReady? {
        status := Error;
        errorMessage := Some(fault.message);
      }
    }

    /**
     * `get_news`: while preparing, an empty page that echoes the request;
     * otherwise the window of the filtered list for the page, with the total
     * before slicing and whether pages follow or precede.
     */
    function GetNews(page: int, pageSize: int, category: Option<string>, search: Option<string>): (r: NewsResponse)
      reads this
      ensures status == Preparing ==>
        r.articles == [] && r.total == 0 && r.page == page && r.pageSize == pageSize && !r.hasNext && !r.hasPrev
      ensures status != Preparing ==>
        && r.total == |Filtered(articles, category, search)|
        && r.articles == Page(Filtered(articles, category, search), page, pageSize)
        && r.page == page && r.pageSize == pageSize
        && (r.hasNext <==> page * pageSize < r.total)
        && (r.hasPrev <==> page > 1)
    {
      if status == Preparing then NewsResponse([], 0, page, pageSize, false, false)
      else
        var filtered := Filtered(articles, category, search);
        var total := |filtered|;
        var start := (page - 1) * pageSize;
        var end := start + pageSize;
        NewsResponse(PySlice(filtered, start, end), total, page, pageSize, end < total, page > 1)
    }

    /**
     * `get_article_detail`: the first article with the id gets fresh detail
     * content, fetched by a new crawler (so with no browser open yet), and is
     * returned; nothing else changes. No match: None, and nothing changes.
     */
    method GetArticleDetail(id: string, launch: Launch, pages: string -> DetailPage, rendered: Node -> string)
      returns (r: Option<Article>)
      modifies this
      ensures status == old(status) && errorMessage == old(errorMessage) && lastUpdate == old(lastUpdate)
      ensures r.None? <==> forall i :: 0 <= i < |old(articles)| ==> old(articles)[i].id != id
      ensures r.None? ==> articles == old(articles)
      ensures r.Some? ==>
        var k := FirstWithId(old(articles), id);
        && articles == old(articles)[k := old(articles)[k].(content := ContentOf(launch.Starts?, pages(old(articles)[k].url), rendered))]
        && r == Some(articles[k])
    {
      var i := 0;
      while i < |articles|
        invariant 0 <= i <= |articles|
        invariant articles == old(articles)
        invariant forall j :: 0 <= j < i ==> articles[j].id != id
      {
        if articles[i].id == id {
          var crawler := new Crawler();
          var content := crawler.FetchArticleContent(articles[i].url, launch, pages, rendered);
          articles := articles[i := articles[i].(content := content)];
          return Some(articles[i]);
        }
        i := i + 1;
      }
      return None;
    }

    /** `get_status`: the status value, the error message, the load time and the article count. */
    function GetStatus(iso: DateTime -> string): (r: StatusReport)
      reads this
      ensures r.totalArticles == |articles|
      ensures r.status == StatusValue(status)
      ensures r.status == "ready" <==> status == Ready
      ensures r.lastUpdate.Some? <==> lastUpdate.Some?
      ensures lastUpdate.Some? ==> r.lastUpdate == Some(iso(lastUpdate.value))
      ensures r.errorMessage == errorMessage
    {
      StatusReport(StatusValue(status), errorMessage,
                   match lastUpdate case None => None case Some(t) => Some(iso(t)),
                   |articles|)
    }

    /** `refresh_data`: back to preparing, then a fresh load; the cache is never left preparing. */
    method RefreshData(reply: ApiReply, hash: string -> string, nowText: string, now: DateTime, fault: LoadFault)
      modifies this
      ensures status != Preparing
      ensures fault.FaultBeforeReset? ==>
        articles == old(articles) && status == Error && errorMessage == Some(fault.message) && lastUpdate == old(lastUpdate)
      ensures fault.FaultInHandler? ==>
        && articles == (if fault.extended then BasicArticles(reply, hash, nowText) else [])
        && status == Error && errorMessage == Some(fault.message) && lastUpdate == old(lastUpdate)
      ensures ReachesReady(fault) ==> articles == BasicArticles(reply, hash, nowText) && lastUpdate == Some(now)
      ensures fault.NoFault? ==> status == Ready && errorMessage == old(errorMessage)
      ensures fault.FaultAfterReady? ==> status == Error && errorMessage == Some(fault.message)
    {
      status := Preparing;
      LoadInitialData(reply, hash, nowText, now, fault);
    }

    /** `append_to_cache`: the articles are added at the end; nothing else changes. */
    method AppendToCache(more: seq<Article>)
      modifies this
      ensures articles == old(articles) + more
      ensures status == old(status) && errorMessage == old(errorMessage) && lastUpdate == old(lastUpdate)
    {
      articles := articles + more;
    }
  }

  // ---------------------------------------------------------------------
  // Properties of a served page
  // ---------------------------------------------------------------------

  /**
   * For a real page number and size the served page holds at most
   * `min(pageSize, total)` articles: the consecutive run of the filtered list
   * starting at `(page - 1) * pageSize`, or nothing when that lies past the
   * end; every one of them passes both filters.
   */
  lemma ServedPage(articles: seq<Article>, page: int, pageSize: int, category: Option<string>, search: Option<string>)
    requires page >= 1 && pageSize >= 0
    ensures var f := Filtered(articles, category, search);
      var w := Page(f, page, pageSize);
      && |w| <= pageSize && |w| <= |f|
      && Window(f, (page - 1) * pageSize, pageSize, w)
      && (forall i :: 0 <= i < |w| ==> InCategory(w[i], category) && MatchesSearch(w[i], search))
  {
    var f := Filtered(articles, category, search);
    FilteredExact(articles, category, search);
    PageWindow(f, page, pageSize);
    PageWithin(f, page, pageSize);
  }

  /** The served pages of a fixed filter tile the filtered list: page `p + 1` starts where page `p` ends. */
  lemma ConsecutivePages(articles: seq<Article>, page: int, pageSize: int, category: Option<string>, search: Option<string>)
    requires page >= 1 && pageSize >= 0 && page * pageSize <= |Filtered(articles, category, search)|
    ensures var f := Filtered(articles, category, search);
      Page(f, page, pageSize) + PySlice(f, page * pageSize, |f|) == f[(page - 1) * pageSize..]
  {
    PagesTile(Filtered(articles, category, search), page, pageSize);
  }
}
