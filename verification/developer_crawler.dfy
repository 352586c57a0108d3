/**
 * The developer-blog crawler (`HuaweiDeveloperBlogCrawler`): article links
 * are gathered from the recommended list while it is scrolled, and each
 * link's detail page is read into a post with a title, a date, content blocks
 * and a summary.
 *
 * The browser is a parameter. `Site.starts` says whether Chrome started and
 * the list page loaded; `Site.found(s, k)` is what `find_elements` returns
 * for the k-th article selector after scroll `s` (counting from 0; a selector
 * that raises reads as one that finds nothing); `Site.detail(url)` is what
 * loading a detail page gives, parsed. `today` is
 * `datetime.now().strftime("%Y-%m-%d")`.
 */
module DeveloperCrawler {
  import opened Wrappers
  import opened Strings
  import opened Seqs
  import opened Dom
  import opened Records

  // ---------------------------------------------------------------------
  // The browser
  // ---------------------------------------------------------------------

  /**
   * One element an article selector found: its own `href` ("" when it has
   * none), the `href` of its first enclosing link in document order (the
   * outermost one, as `./ancestor::a[@href]` finds it) and of its first nested
   * link (None where that lookup raises); or an element gone from the page,
   * on which every call raises.
   */
  datatype Anchor = Anchor(href: string, parent: Option<string>, child: Option<string>) | Detached

  /** A detail page: the driver failing to start or to load it, the wait for `body` timing out, or the parsed page. */
  datatype Detail = Unavailable | TimedOut | Loaded(doc: seq<Node>)

  datatype Site = Site(starts: bool, found: (nat, nat) -> seq<Anchor>, detail: string -> Detail)

  /** The record `fetch_article_content` returns. */
  datatype Post = Post(title: string, url: string, date: string, content: seq<Block>,
                       summary: string, category: string, source: string)

  const DefaultBase := "https://developer.huawei.com"
  const ListPath := "/consumer/cn/blog/recommended"
  const MaxScrolls: nat := 5
  /** "a.title-text", ".title-text a", "a[href*='/blog/']", ".blog-item a", ".article-item a", "a.ng-star-inserted[href]". */
  const ArticleSelectorCount: nat := 6
  const Untitled := "无标题"
  const ExtractionFailed := "内容提取失败"
  const MinTextLength: nat := 10
  const SummaryLength: nat := 200

  // ---------------------------------------------------------------------
  // Article links
  // ---------------------------------------------------------------------

  /** The `href` an element yields: its own, else its enclosing link's, else its nested link's; None when the lookups raise. */
  function HrefOf(a: Anchor): Option<string> {
    match a
    case Detached => None
    case Anchor(href, parent, child) =>
      if href != "" then Some(href)
      else if parent.Some? then parent
      else child
  }

  predicate IsBlogLink(href: string) {
    Contains(href, "/blog/") || Contains(href, "/blogDetail")
  }

  /** A site-relative `href` gets the base URL in front, with a `/` between when it lacks one; an `http` URL stays. */
  function Completed(base: string, href: string): (url: string)
    ensures |href| <= |url| && url[|url| - |href|..] == href
    ensures StartsWith(href, "/") ==> url == base + href
    ensures !StartsWith(href, "/") && !StartsWith(href, "http") ==> url == base + "/" + href
    ensures StartsWith(href, "http") ==> url == href
  {
    var url := if StartsWith(href, "/") then base + href
               else if !StartsWith(href, "http") then base + "/" + href
               else href;
    assert StartsWith(href, "http") ==> href[0] == 'h';
    assert url[|url| - |href|..] == href;
    url
  }

  /** A completed link still names the blog: the original `href` is its tail. */
  lemma CompletedBlogLink(base: string, href: string)
    requires IsBlogLink(href)
    ensures IsBlogLink(Completed(base, href))
  {
    var url := Completed(base, href);
    var prefix := url[..|url| - |href|];
    assert url == prefix + href;
    if Contains(href, "/blog/") {
      ContainsInSuffix(prefix, href, "/blog/");
    } else {
      ContainsInSuffix(prefix, href, "/blogDetail");
    }
  }

  /** An `http` link is kept as it is. */
  lemma CompletedAbsolute(base: string, href: string)
    requires StartsWith(href, "http")
    ensures Completed(base, href) == href
  {
    assert href[0] == 'h';
  }

  /** One element of the inner loop, below the cap: a non-empty blog `href` not stored yet is completed and stored. */
  function Admit(urls: seq<string>, a: Anchor, base: string): (r: seq<string>)
    ensures r == urls || (|r| == |urls| + 1 && r[..|urls|] == urls && IsBlogLink(r[|urls|]))
    ensures r != urls <==> HrefOf(a).Some? && HrefOf(a).value != "" && HrefOf(a).value !in urls && IsBlogLink(HrefOf(a).value)
    ensures r != urls ==> r == urls + [Completed(base, HrefOf(a).value)]
  {
    match HrefOf(a)
    case None => urls
    case Some(href) =>
      if href != "" && href !in urls && IsBlogLink(href) then
        CompletedBlogLink(base, href);
        assert (urls + [Completed(base, href)])[..|urls|] == urls;
        urls + [Completed(base, href)]
      else urls
  }

  /** The inner `for article in articles` loop: elements in order, stopping once `maxArticles` links are stored. */
  function Scan(urls: seq<string>, elems: seq<Anchor>, base: string, maxArticles: int): seq<string> {
    if elems == [] then urls
    else
      var before := Scan(urls, elems[..|elems| - 1], base, maxArticles);
      if |before| >= maxArticles then before else Admit(before, elems[|elems| - 1], base)
  }

  /** Once the cap is reached, the rest of the elements change nothing. */
  lemma {:induction false} ScanCapped(urls: seq<string>, elems: seq<Anchor>, j: nat, base: string, maxArticles: int)
    requires j <= |elems|
    requires |Scan(urls, elems[..j], base, maxArticles)| >= maxArticles
    ensures Scan(urls, elems, base, maxArticles) == Scan(urls, elems[..j], base, maxArticles)
    decreases |elems| - j
  {
    if j < |elems| {
      assert elems[..j + 1][..j] == elems[..j];
      ScanCapped(urls, elems, j + 1, base, maxArticles);
    } else {
      assert elems[..j] == elems;
    }
  }

  /** The scan stores at most one link per element and never passes the cap, and every stored link names the blog. */
  lemma {:induction false} ScanBounded(urls: seq<string>, elems: seq<Anchor>, base: string, maxArticles: int)
    requires |urls| <= if maxArticles < 0 then 0 else maxArticles
    requires forall i :: 0 <= i < |urls| ==> IsBlogLink(urls[i])
    ensures var r := Scan(urls, elems, base, maxArticles);
      && |r| <= (if maxArticles < 0 then 0 else maxArticles)
      && urls <= r
      && forall i :: 0 <= i < |r| ==> IsBlogLink(r[i])
  {
    if elems != [] {
      ScanBounded(urls, elems[..|elems| - 1], base, maxArticles);
    }
  }

  /** The elements of the first article selector that finds any, from the k-th selector on; none when none does. */
  function FoundFrom(site: Site, scroll: nat, k: nat): seq<Anchor>
    decreases ArticleSelectorCount - k
  {
    if k >= ArticleSelectorCount then []
    else if site.found(scroll, k) != [] then site.found(scroll, k)
    else FoundFrom(site, scroll, k + 1)
  }

  /**
   * The outer loop from scroll `scroll` on, with `left` scrolls to go and
   * the links stored so far: it stops when no scroll is left or the cap is
   * reached.
   */
  function Collect(site: Site, base: string, maxArticles: int, urls: seq<string>, scroll: nat, left: nat): seq<string>
    decreases left
  {
    if left == 0 || |urls| >= maxArticles then urls
    else Collect(site, base, maxArticles, Scan(urls, FoundFrom(site, scroll, 0), base, maxArticles), scroll + 1, left - 1)
  }

  /** `fetch_article_urls`: the links stored after at most five scrolls, cut to `max_articles`; none when the browser fails. */
  function UrlsOf(site: Site, base: string, maxArticles: int): seq<string> {
    if !site.starts then []
    else PySlice(Collect(site, base, maxArticles, [], 0, MaxScrolls), 0, maxArticles)
  }

  lemma {:induction false} CollectBounded(site: Site, base: string, maxArticles: int, urls: seq<string>, scroll: nat, left: nat)
    requires |urls| <= if maxArticles < 0 then 0 else maxArticles
    requires forall i :: 0 <= i < |urls| ==> IsBlogLink(urls[i])
    ensures var r := Collect(site, base, maxArticles, urls, scroll, left);
      && |r| <= (if maxArticles < 0 then 0 else maxArticles)
      && forall i :: 0 <= i < |r| ==> IsBlogLink(r[i])
    decreases left
  {
    if left > 0 && |urls| < maxArticles {
      var next := Scan(urls, FoundFrom(site, scroll, 0), base, maxArticles);
      ScanBounded(urls, FoundFrom(site, scroll, 0), base, maxArticles);
      CollectBounded(site, base, maxArticles, next, scroll + 1, left - 1);
    }
  }

  /**
   * At most `max_articles` links come back, and each names the blog
   * (`/blog/` or `/blogDetail` in it), whatever the page holds.
   */
  lemma UrlsBounded(site: Site, base: string, maxArticles: int)
    ensures var r := UrlsOf(site, base, maxArticles);
      && |r| <= (if maxArticles < 0 then 0 else maxArticles)
      && forall i :: 0 <= i < |r| ==> IsBlogLink(r[i])
  {
    var c := Collect(site, base, maxArticles, [], 0, MaxScrolls);
    CollectBounded(site, base, maxArticles, [], 0, MaxScrolls);
    if site.starts && maxArticles >= 0 {
      assert PySlice(c, 0, maxArticles) == c;
    }
  }

  /** An `http` link already stored is skipped. */
  lemma AbsoluteLinkStoredOnce(urls: seq<string>, a: Anchor, base: string)
    requires HrefOf(a).Some? && StartsWith(HrefOf(a).value, "http") && HrefOf(a).value in urls
    ensures Admit(urls, a, base) == urls
  {
  }

  /**
   * The duplicate check compares the raw `href` with the completed links, so
   * a site-relative link met twice is stored twice.
   */
  lemma RelativeLinkStoredTwice(base: string, href: string)
    requires base != "" && StartsWith(href, "/") && IsBlogLink(href)
    ensures var once := Admit([], Anchor(href, None, None), base);
      Admit(once, Anchor(href, None, None), base) == [base + href, base + href]
  {
    var once := Admit([], Anchor(href, None, None), base);
    assert once == [base + href];
    assert href !in once by {
      assert |base + href| > |href|;
    }
  }

  // ---------------------------------------------------------------------
  // Detail pages
  // ---------------------------------------------------------------------

  /** "h1.title", "h1", ".article-title", "[class*=\"title\"]". */
  const TitleSelectors: seq<Selector> := [
    [Tag("h1"), Class("title")],
    [Tag("h1")],
    [Class("article-title")],
    [AttrContains("class", "title")]
  ]

  /** ".publish-time", ".date", "[class*=\"time\"]", "[class*=\"date\"]". */
  const DateSelectors: seq<Selector> := [
    [Class("publish-time")],
    [Class("date")],
    [AttrContains("class", "time")],
    [AttrContains("class", "date")]
  ]

  /** "div[_ngcontent-serverapp-c154]", ".article-content", ".content", "article", ".post-content". */
  const ContentSelectors: seq<Selector> := [
    [Tag("div"), HasAttr("_ngcontent-serverapp-c154")],
    [Class("article-content")],
    [Class("content")],
    [Tag("article")],
    [Class("post-content")]
  ]

  /** The text of the first title selector's element, or "无标题" when there is none or it is blank. */
  function TitleOf(doc: seq<Node>): (title: string)
    ensures title != ""
    ensures (forall i :: 0 <= i < |TitleSelectors| ==> SelectOne(doc, TitleSelectors[i]).None?) ==> title == Untitled
    ensures forall i | 0 <= i < |TitleSelectors| && SelectOne(doc, TitleSelectors[i]).Some? ::
      (forall j :: 0 <= j < i ==> SelectOne(doc, TitleSelectors[j]).None?) ==>
      var text := GetText(Children(SelectOne(doc, TitleSelectors[i]).value), "");
      title == if text == "" then Untitled else text
  {
    match FirstHit(doc, TitleSelectors)
    case None => Untitled
    case Some(e) =>
      var text := GetText(Children(e), "");
      if text == "" then Untitled else text
  }

  predicate IsDateSep(c: char) {
    c == '-' || c == '/'
  }

  /**
   * The length of the match of `\d{4}[-/]\d{1,2}[-/]\d{1,2}` at the start of
   * `s` (the month and the day take two digits when they can).
   */
  function DateAt(s: string): (k: Option<nat>)
    ensures k.Some? ==> 8 <= k.value <= 10 && k.value <= |s|
  {
    if |s| < 8 || !(IsDigit(s[0]) && IsDigit(s[1]) && IsDigit(s[2]) && IsDigit(s[3]) && IsDateSep(s[4]) && IsDigit(s[5])) then None
    else
      var sep := if IsDigit(s[6]) then 7 else 6;
      if sep + 1 < |s| && IsDateSep(s[sep]) && IsDigit(s[sep + 1]) then
        Some(if sep + 2 < |s| && IsDigit(s[sep + 2]) then sep + 3 else sep + 2)
      else None
  }

  /** The leftmost position from `from` on where a date starts; `|s|` when there is none. */
  function DateIndexFrom(s: string, from: nat): (i: nat)
    requires from <= |s|
    ensures from <= i <= |s|
    ensures forall j :: from <= j < i ==> DateAt(s[j..]).None?
    ensures i < |s| ==> DateAt(s[i..]).Some?
    decreases |s| - from
  {
    if from == |s| then |s|
    else if DateAt(s[from..]).Some? then from
    else DateIndexFrom(s, from + 1)
  }

  /** `re.search(...)`: the leftmost date in `s`; None exactly when no position starts one. */
  function FirstDate(s: string): (d: Option<string>)
    ensures d.Some? ==> DateAt(d.value) == Some(|d.value|)
    ensures d.None? <==> forall i :: 0 <= i < |s| ==> DateAt(s[i..]).None?
    ensures d.Some? ==> exists i :: (0 <= i < |s| && DateAt(s[i..]).Some? && d.value == s[i..i + DateAt(s[i..]).value]
      && forall j :: 0 <= j < i ==> DateAt(s[j..]).None?)
  {
    var i := DateIndexFrom(s, 0);
    if i == |s| then None
    else
      var k := DateAt(s[i..]).value;
      DateAtPrefix(s[i..], k);
      assert s[i..][..k] == s[i..i + k];
      Some(s[i..i + k])
  }

  /** `n` digits from position `i`. */
  predicate DigitsAt(s: string, i: nat, n: nat) {
    i + n <= |s| && forall j :: i <= j < i + n ==> IsDigit(s[j])
  }

  /** `d` is four digits, a separator, `m` digits, a separator and `dd` digits, and nothing more. */
  predicate DateShape(d: string, m: nat, dd: nat) {
    |d| == 6 + m + dd && DigitsAt(d, 0, 4) && IsDateSep(d[4]) && DigitsAt(d, 5, m) && IsDateSep(d[5 + m]) && DigitsAt(d, 6 + m, dd)
  }

  /** The strings the pattern `\d{4}[-/]\d{1,2}[-/]\d{1,2}` matches whole. */
  predicate IsDateText(d: string) {
    DateShape(d, 1, 1) || DateShape(d, 1, 2) || DateShape(d, 2, 1) || DateShape(d, 2, 2)
  }

  /**
   * The matcher agrees with the pattern: what it matches has the pattern's
   * shape, and it matches whenever some prefix has that shape.
   */
  lemma DateAtMatchesPattern(s: string)
    ensures DateAt(s).Some? ==> IsDateText(s[..DateAt(s).value])
    ensures DateAt(s).Some? ==> forall k :: DateAt(s).value < k <= |s| ==> !IsDateText(s[..k])
    ensures (exists k :: 0 <= k <= |s| && IsDateText(s[..k])) ==> DateAt(s).Some?
  {
    if exists k :: 0 <= k <= |s| && IsDateText(s[..k]) {
      var k :| 0 <= k <= |s| && IsDateText(s[..k]);
      var d := s[..k];
      assert forall j :: 0 <= j < k ==> d[j] == s[j];
    }
  }

  /** A match is also a match of the matched text alone. */
  lemma DateAtPrefix(s: string, k: nat)
    requires DateAt(s) == Some(k)
    ensures DateAt(s[..k]) == Some(k)
  {
  }

  /** Separators turned into `-` leave a match a match. */
  lemma DateAtDashed(d: string)
    requires DateAt(d) == Some(|d|)
    ensures DateAt(ReplaceChar(d, '/', '-')) == Some(|d|)
  {
    var r := ReplaceChar(d, '/', '-');
    assert forall i :: 0 <= i < |d| ==> (IsDigit(r[i]) <==> IsDigit(d[i])) && (IsDateSep(r[i]) <==> IsDateSep(d[i]));
  }

  /**
   * The date loop: for each date selector in turn, the first date in its
   * element's text with `/` turned into `-`; `today` when no selector gives
   * one.
   */
  function DateFrom(doc: seq<Node>, chain: seq<Selector>, today: string): (date: string)
    ensures date == today || (DateAt(date) == Some(|date|) && '/' !in date)
  {
    if chain == [] then today
    else match DateOf(doc, chain[0])
      case Some(d) =>
        DateAtDashed(d);
        ReplaceChar(d, '/', '-')
      case None => DateFrom(doc, chain[1..], today)
  }

  /**
   * The date comes from the first selector whose element's text holds a
   * date, with `/` turned into `-`; it is `today` exactly when no selector
   * gives one.
   */
  lemma DateFromFirstMatch(doc: seq<Node>, chain: seq<Selector>, today: string, i: nat)
    requires i <= |chain| && forall j :: 0 <= j < i ==> DateOf(doc, chain[j]).None?
    ensures i == |chain| ==> DateFrom(doc, chain, today) == today
    ensures i < |chain| && DateOf(doc, chain[i]).Some? ==>
      DateFrom(doc, chain, today) == ReplaceChar(DateOf(doc, chain[i]).value, '/', '-')
  {
    DateFromFirstSome(doc, chain, today);
    FirstSomeAt(chain, DateFinder(doc), i);
  }

  /** `DateOf` for a fixed page, as a function of the selector. */
  function DateFinder(doc: seq<Node>): Selector -> Option<string> {
    sel => DateOf(doc, sel)
  }

  /** The date loop is the first date any selector gives, dashed, or `today`. */
  lemma {:induction false} DateFromFirstSome(doc: seq<Node>, chain: seq<Selector>, today: string)
    ensures DateFrom(doc, chain, today) ==
      match FirstSome(chain, DateFinder(doc)) case Some(d) => ReplaceChar(d, '/', '-') case None => today
    decreases |chain|
  {
    if chain != [] && DateOf(doc, chain[0]).None? {
      DateFromFirstSome(doc, chain[1..], today);
    }
  }

  /** The first date in the text of the element a date selector finds, if it finds one and the text holds a date. */
  function DateOf(doc: seq<Node>, sel: Selector): (d: Option<string>)
    ensures d.Some? ==> SelectOne(doc, sel).Some? && d == FirstDate(GetText(Children(SelectOne(doc, sel).value), ""))
  {
    match SelectOne(doc, sel)
    case Some(e) => FirstDate(GetText(Children(e), ""))
    case None => None
  }

  /**
   * `content_area.find('div', class_='operations')` and the decomposing of
   * it and of its following element siblings: the forest without the first
   * operations bar in document order and without the elements after it in
   * its parent (text siblings stay), and whether there was one.
   */
  function CutOperations(ns: seq<Node>): (seq<Node>, bool)
    decreases ns
  {
    if ns == [] then ([], false)
    else
      var n := ns[0];
      if IsOperations(n) then (TextsOnly(ns[1..]), true)
      else if n.Element? && CutOperations(n.children).1 then
        ([Element(n.name, n.attrs, CutOperations(n.children).0)] + ns[1..], true)
      else
        var rest := CutOperations(ns[1..]);
        ([n] + rest.0, rest.1)
  }

  /** The text nodes of a forest, in order (`find_next_siblings()` yields elements only). */
  function TextsOnly(ns: seq<Node>): (r: seq<Node>)
    ensures forall i :: 0 <= i < |r| ==> r[i].TextNode?
  {
    Filter(ns, (n: Node) => n.TextNode?)
  }

  /** No operations bar anywhere in the forest. */
  predicate NoOperations(ns: seq<Node>) {
    forall d | d in Descendants(ns) :: !IsOperations(d)
  }

  lemma NoOperationsSplit(n: Node, rest: seq<Node>)
    ensures NoOperations([n] + rest) <==>
      !IsOperations(n) && (n.Element? ==> NoOperations(n.children)) && NoOperations(rest)
  {
    var ns := [n] + rest;
    assert ns[0] == n && ns[1..] == rest;
    var kids := if n.Element? then Descendants(n.children) else [];
    assert Descendants(ns) == [n] + kids + Descendants(rest);
  }

  /** A forest without an operations bar is left as it is, and the bar is found exactly when there is one. */
  lemma {:induction false} CutFindsOperations(ns: seq<Node>)
    ensures CutOperations(ns).1 <==> !NoOperations(ns)
    ensures NoOperations(ns) ==> CutOperations(ns).0 == ns
    decreases ns
  {
    if ns != [] {
      var n := ns[0];
      assert ns == [n] + ns[1..];
      NoOperationsSplit(n, ns[1..]);
      CutFindsOperations(ns[1..]);
      if n.Element? {
        CutFindsOperations(n.children);
      }
    }
  }

  /** A node that neither is nor holds an operations bar is kept, and the cut goes on after it. */
  lemma CutPassesOver(n: Node, rest: seq<Node>)
    requires !IsOperations(n) && (n.Element? ==> NoOperations(n.children))
    ensures CutOperations([n] + rest) == ([n] + CutOperations(rest).0, CutOperations(rest).1)
  {
    var ns := [n] + rest;
    assert ns[0] == n && ns[1..] == rest;
    if n.Element? {
      CutFindsOperations(n.children);
    }
  }

  /** The bar itself goes, and so does every element after it. */
  lemma CutAtBar(bar: Node, after: seq<Node>)
    requires IsOperations(bar)
    ensures CutOperations([bar] + after) == (TextsOnly(after), true)
  {
    var ns := [bar] + after;
    assert ns[0] == bar && ns[1..] == after;
  }

  /**
   * An operations bar at the top level, with none before it, goes together
   * with every element after it; the earlier nodes and the later text nodes
   * stay.
   */
  lemma {:induction false} CutAtTopLevel(before: seq<Node>, bar: Node, after: seq<Node>)
    requires NoOperations(before) && IsOperations(bar)
    ensures CutOperations(before + [bar] + after) == (before + TextsOnly(after), true)
    decreases before
  {
    if before == [] {
      assert before + [bar] + after == [bar] + after;
      CutAtBar(bar, after);
      assert before + TextsOnly(after) == TextsOnly(after);
    } else {
      NoOperationsSplit(before[0], before[1..]);
      assert before == [before[0]] + before[1..];
      CutAtTopLevel(before[1..], bar, after);
      assert before[1..] + [bar] + after == before[1..] + ([bar] + after);
      CutKeepsPrefix(before[0], before[1..], [bar] + after, TextsOnly(after));
      assert before + [bar] + after == [before[0]] + before[1..] + ([bar] + after);
    }
  }

  /** One step of `CutAtTopLevel`: a node without a bar in front of a cut forest. */
  lemma CutKeepsPrefix(n: Node, tail: seq<Node>, rest: seq<Node>, texts: seq<Node>)
    requires !IsOperations(n) && (n.Element? ==> NoOperations(n.children))
    requires CutOperations(tail + rest) == (tail + texts, true)
    ensures CutOperations([n] + tail + rest) == ([n] + tail + texts, true)
  {
    assert [n] + tail + rest == [n] + (tail + rest);
    CutPassesOver(n, tail + rest);
    assert [n] + (tail + texts) == [n] + tail + texts;
  }

  /**
   * A bar found inside an element, with no bar before that element: the cut
   * happens within the element's children, and the nodes before and after
   * the element stay.
   */
  lemma CutNested(pre: seq<Node>, e: Node, post: seq<Node>)
    requires NoOperations(pre) && e.Element? && !IsOperations(e) && CutOperations(e.children).1
    ensures CutOperations(pre + [e] + post) == (pre + [Element(e.name, e.attrs, CutOperations(e.children).0)] + post, true)
  {
    var cut := Element(e.name, e.attrs, CutOperations(e.children).0);
    CutInElement(e, post);
    CutAfterClean(pre, [e] + post, [cut] + post);
    assert pre + [e] + post == pre + ([e] + post);
    assert pre + [cut] + post == pre + ([cut] + post);
  }

  /** Nodes without a bar in front of a forest that is cut stay in front of the cut forest. */
  lemma {:induction false} CutAfterClean(pre: seq<Node>, rest: seq<Node>, cutRest: seq<Node>)
    requires NoOperations(pre) && CutOperations(rest) == (cutRest, true)
    ensures CutOperations(pre + rest) == (pre + cutRest, true)
    decreases pre
  {
    if pre == [] {
      assert pre + rest == rest && pre + cutRest == cutRest;
    } else {
      NoOperationsSplit(pre[0], pre[1..]);
      CutAfterClean(pre[1..], rest, cutRest);
      CutKeepsPrefix(pre[0], pre[1..], rest, cutRest);
      assert pre == [pre[0]] + pre[1..];
    }
  }

  /** One step of `CutNested`: the element holding the bar, first in the forest. */
  lemma CutInElement(e: Node, post: seq<Node>)
    requires e.Element? && !IsOperations(e) && CutOperations(e.children).1
    ensures CutOperations([e] + post) == ([Element(e.name, e.attrs, CutOperations(e.children).0)] + post, true)
  {
    var ns := [e] + post;
    assert ns[0] == e && ns[1..] == post;
  }

  /** The blocks one node of the traversal gives: long `p`/`div` text, or a completed `img` source. */
  function NodeBlocks(n: Node, base: string): (r: seq<Block>)
    ensures forall i :: 0 <= i < |r| ==> Extracted(r[i])
    ensures IsTag(n, "p") || IsTag(n, "div") ==>
      (r != [] <==> |GetText(n.children, "")| > MinTextLength) && (r != [] ==> r == [Text(GetText(n.children, ""))])
    ensures IsTag(n, "img") ==>
      (r != [] <==> Attr(n, "src").GetOr("") != "") && (r != [] ==> r == [Image(Completed(base, Attr(n, "src").value))])
    ensures !IsTag(n, "p") && !IsTag(n, "div") && !IsTag(n, "img") ==> r == []
  {
    if IsTag(n, "p") || IsTag(n, "div") then
      var text := GetText(n.children, "");
      if text != "" && |text| > MinTextLength then [Text(text)] else []
    else if IsTag(n, "img") then
      var src := Attr(n, "src").GetOr("");
      if src != "" then [Image(Completed(base, src))] else []
    else []
  }

  /** What the traversal keeps: text longer than ten characters, or an image with an address. */
  predicate Extracted(b: Block) {
    if b.Text? then |b.value| > MinTextLength else b.value != ""
  }

  predicate WellFormed(bs: seq<Block>) {
    forall i :: 0 <= i < |bs| ==> Extracted(bs[i])
  }

  /** The traversal of `descendants`: the blocks of each node in document order. */
  function BlocksFrom(descendants: seq<Node>, base: string): seq<Block> {
    FlatMap(descendants, (n: Node) => NodeBlocks(n, base))
  }

  /** Every block the traversal gives is well formed. */
  lemma BlocksWellFormed(descendants: seq<Node>, base: string)
    ensures WellFormed(BlocksFrom(descendants, base))
  {
    FlatMapAll(descendants, (n: Node) => NodeBlocks(n, base), Extracted);
  }

  /** A forest of text nodes is its own list of descendants. */
  lemma {:induction false} TextNodesAreLeaves(ns: seq<Node>)
    requires forall i :: 0 <= i < |ns| ==> ns[i].TextNode?
    ensures Descendants(ns) == ns
    decreases |ns|
  {
    if ns != [] {
      TextNodesAreLeaves(ns[1..]);
      assert ns == [ns[0]] + ns[1..];
    }
  }

  /** Text nodes give no blocks. */
  lemma TextNodesGiveNothing(ns: seq<Node>, base: string)
    requires forall i :: 0 <= i < |ns| ==> ns[i].TextNode?
    ensures BlocksFrom(ns, base) == []
  {
    FlatMapNothing(ns, (n: Node) => NodeBlocks(n, base));
  }

  /** Nothing from the operations bar or from the elements after it reaches the content. */
  lemma OperationsGiveNothing(before: seq<Node>, bar: Node, after: seq<Node>, base: string)
    requires NoOperations(before) && IsOperations(bar)
    ensures BlocksFrom(Descendants(CutOperations(before + [bar] + after).0), base) == BlocksFrom(Descendants(before), base)
  {
    CutAtTopLevel(before, bar, after);
    var texts := TextsOnly(after);
    DescendantsAppend(before, texts);
    TextNodesAreLeaves(texts);
    TextNodesGiveNothing(texts, base);
    FlatMapAppend(Descendants(before), texts, (n: Node) => NodeBlocks(n, base));
    assert Descendants(before) + texts == Descendants(before + texts);
    assert BlocksFrom(Descendants(before), base) + [] == BlocksFrom(Descendants(before), base);
  }

  /**
   * A bar nested in an element: the nodes before and after the element give
   * their blocks as before, and the element gives the blocks of itself and of
   * its children as cut (where `OperationsGiveNothing` applies again, at
   * whatever depth the bar sits).
   */
  lemma OperationsNestedGiveNothing(pre: seq<Node>, e: Node, post: seq<Node>, base: string)
    requires NoOperations(pre) && e.Element? && !IsOperations(e) && !NoOperations(e.children)
    ensures var inner := CutOperations(e.children).0;
      BlocksFrom(Descendants(CutOperations(pre + [e] + post).0), base) ==
        BlocksFrom(Descendants(pre), base) + NodeBlocks(Element(e.name, e.attrs, inner), base)
        + BlocksFrom(Descendants(inner), base) + BlocksFrom(Descendants(post), base)
  {
    CutFindsOperations(e.children);
    CutNested(pre, e, post);
    SpliceBlocks(pre, Element(e.name, e.attrs, CutOperations(e.children).0), post, base);
  }

  /** The blocks of a forest with one element in the middle: those before it, its own, its descendants', those after it. */
  lemma SpliceBlocks(pre: seq<Node>, e: Node, post: seq<Node>, base: string)
    requires e.Element?
    ensures BlocksFrom(Descendants(pre + [e] + post), base) ==
      BlocksFrom(Descendants(pre), base) + NodeBlocks(e, base) + BlocksFrom(Descendants(e.children), base)
      + BlocksFrom(Descendants(post), base)
  {
    var dp, de, dq := Descendants(pre), Descendants(e.children), Descendants(post);
    DescendantsSplice(pre, e, post);
    var f := (n: Node) => NodeBlocks(n, base);
    FlatMapAppend(dp + [e] + de, dq, f);
    FlatMapAppend(dp + [e], de, f);
    FlatMapSnoc(dp, e, f);
  }

  lemma DescendantsSplice(pre: seq<Node>, e: Node, post: seq<Node>)
    requires e.Element?
    ensures Descendants(pre + [e] + post) == Descendants(pre) + [e] + Descendants(e.children) + Descendants(post)
  {
    var rest := [e] + post;
    assert rest[0] == e && rest[1..] == post;
    assert Descendants(rest) == [e] + Descendants(e.children) + Descendants(post);
    DescendantsAppend(pre, rest);
    assert pre + [e] + post == pre + rest;
  }

  /** The blocks of the first content selector's element, after the operations bar is cut away. */
  function ExtractedBlocks(doc: seq<Node>, base: string): seq<Block> {
    match FirstHit(doc, ContentSelectors)
    case None => []
    case Some(area) => BlocksFrom(Descendants(CutOperations(Children(area)).0), base)
  }

  /** The content: the extracted blocks, or the single placeholder text when there are none. */
  function ContentOf(doc: seq<Node>, base: string): (r: seq<Block>)
    ensures r != []
  {
    var blocks := ExtractedBlocks(doc, base);
    if blocks == [] then [Text(ExtractionFailed)] else blocks
  }

  /**
   * The placeholder is too short to be extracted text, so it appears exactly
   * when nothing was extracted; otherwise every block is well formed.
   */
  lemma PlaceholderExactlyWhenEmpty(doc: seq<Node>, base: string)
    ensures ContentOf(doc, base) == [Text(ExtractionFailed)] <==> ExtractedBlocks(doc, base) == []
    ensures ExtractedBlocks(doc, base) != [] ==> WellFormed(ContentOf(doc, base))
  {
    var blocks := ExtractedBlocks(doc, base);
    match FirstHit(doc, ContentSelectors)
    case None =>
    case Some(area) =>
      BlocksWellFormed(Descendants(CutOperations(Children(area)).0), base);
    assert blocks != [] ==> Extracted(blocks[0]);
  }

  /** The summary loop: the first 200 characters of the first text block; "" when there is none. */
  function SummaryOf(blocks: seq<Block>): (s: string)
    ensures |s| <= SummaryLength
  {
    if blocks == [] then ""
    else if blocks[0].Text? then Take(blocks[0].value, SummaryLength)
    else SummaryOf(blocks[1..])
  }

  /** The summary is the start of the first text block, and "" when every block is an image. */
  lemma {:induction false} SummaryOpensFirstText(blocks: seq<Block>)
    ensures (forall i :: 0 <= i < |blocks| ==> blocks[i].Image?) ==> SummaryOf(blocks) == ""
    ensures forall i :: 0 <= i < |blocks| && blocks[i].Text? && (forall j :: 0 <= j < i ==> blocks[j].Image?) ==>
      SummaryOf(blocks) == Take(blocks[i].value, SummaryLength)
  {
    if blocks != [] && !blocks[0].Text? {
      SummaryOpensFirstText(blocks[1..]);
      assert forall i :: 1 <= i < |blocks| ==> blocks[i] == blocks[1..][i - 1];
    }
  }

  /** A post's summary is empty exactly when its content holds no text. */
  lemma SummaryEmptyIffNoText(doc: seq<Node>, base: string)
    ensures SummaryOf(ContentOf(doc, base)) == "" <==>
      forall i :: 0 <= i < |ContentOf(doc, base)| ==> ContentOf(doc, base)[i].Image?
  {
    var content := ContentOf(doc, base);
    PlaceholderExactlyWhenEmpty(doc, base);
    SummaryOpensFirstText(content);
    if exists i :: 0 <= i < |content| && content[i].Text? {
      var i := FirstText(content);
      assert content[i].value != "" by {
        if ExtractedBlocks(doc, base) == [] {
          assert content == [Text(ExtractionFailed)];
        } else {
          assert Extracted(content[i]);
        }
      }
      assert SummaryOf(content) == Take(content[i].value, SummaryLength);
    }
  }

  /** The index of the first text block. */
  function FirstText(blocks: seq<Block>): (i: nat)
    requires exists i :: 0 <= i < |blocks| && blocks[i].Text?
    ensures i < |blocks| && blocks[i].Text? && forall j :: 0 <= j < i ==> blocks[j].Image?
  {
    if blocks[0].Text? then 0
    else
      assert exists i :: 0 <= i < |blocks[1..]| && blocks[1..][i].Text? by {
        var i :| 0 <= i < |blocks| && blocks[i].Text?;
        assert blocks[1..][i - 1] == blocks[i];
      }
      var i := FirstText(blocks[1..]);
      assert blocks[1..][i] == blocks[i + 1];
      1 + i
  }

  /** The post a loaded detail page gives. */
  function PostOf(doc: seq<Node>, url: string, base: string, today: string): (p: Post)
    ensures p.url == url && p.title != "" && p.content != []
    ensures p.category == HuaweiDeveloper && p.source == HuaweiDeveloper
  {
    var content := ContentOf(doc, base);
    Post(TitleOf(doc), url, DateFrom(doc, DateSelectors, today), content, SummaryOf(content), HuaweiDeveloper, HuaweiDeveloper)
  }

  /** `fetch_article_content`: the post of the page, or None when the page could not be loaded. */
  function PostAt(site: Site, url: string, base: string, today: string): (r: Option<Post>)
    ensures r.Some? <==> site.detail(url).Loaded?
    ensures r.Some? ==> r.value.url == url && r.value.title != "" && r.value.content != []
  {
    if site.detail(url).Loaded? then Some(PostOf(site.detail(url).doc, url, base, today)) else None
  }

  /** `crawl_all`'s loop: the posts of the links whose pages loaded, in link order. */
  function PostsAt(site: Site, urls: seq<string>, base: string, today: string): seq<Post> {
    Somes(urls, (u: string) => PostAt(site, u, base, today))
  }

  /** Every post comes from one of the links and carries that link; when every page loads there is one post per link. */
  lemma PostsFollowLinks(site: Site, urls: seq<string>, base: string, today: string)
    ensures forall k :: 0 <= k < |PostsAt(site, urls, base, today)| ==>
      PostsAt(site, urls, base, today)[k].url in urls && PostsAt(site, urls, base, today)[k].title != ""
    ensures (forall i :: 0 <= i < |urls| ==> site.detail(urls[i]).Loaded?) ==> |PostsAt(site, urls, base, today)| == |urls|
  {
    var f := (u: string) => PostAt(site, u, base, today);
    var r := Somes(urls, f);
    SomesFrom(urls, f);
    forall k | 0 <= k < |r| ensures r[k].url in urls && r[k].title != "" {
      var i :| 0 <= i < |urls| && f(urls[i]) == Some(r[k]);
      assert PostAt(site, urls[i], base, today) == Some(r[k]);
    }
    if forall i :: 0 <= i < |urls| ==> site.detail(urls[i]).Loaded? {
      SomesAll(urls, f);
    }
  }

  /** `crawl_all`: the posts of the links `fetch_article_urls` returns, never more than `max_articles`. */
  function CrawlResult(site: Site, base: string, maxArticles: int, today: string): (r: seq<Post>)
    ensures |r| <= if maxArticles < 0 then 0 else maxArticles
  {
    UrlsBounded(site, base, maxArticles);
    PostsAt(site, UrlsOf(site, base, maxArticles), base, today)
  }

  // ---------------------------------------------------------------------
  // The crawler
  // ---------------------------------------------------------------------

  class DeveloperBlogCrawler {
    const baseUrl: string
    const blogListUrl: string

    constructor(baseUrl: string)
      ensures this.baseUrl == baseUrl && blogListUrl == baseUrl + ListPath
    {
      this.baseUrl := baseUrl;
      blogListUrl := baseUrl + ListPath;
    }

    /**
     * `fetch_article_urls`: scroll up to five times while fewer than
     * `max_articles` links are stored, take the elements of the first article
     * selector that finds any, and store each new blog link, completed.
     */
    method FetchArticleUrls(site: Site, maxArticles: int) returns (urls: seq<string>, scrolls: nat)
      ensures urls == UrlsOf(site, baseUrl, maxArticles)
      ensures scrolls <= MaxScrolls
      ensures site.starts && scrolls < MaxScrolls ==> |urls| >= maxArticles
    {
      if !site.starts {
        return [], 0;
      }
      var articleUrls: seq<string> := [];
      var scrollCount: nat := 0;
      ghost var left: nat := MaxScrolls;
      ghost var total := Collect(site, baseUrl, maxArticles, articleUrls, scrollCount, left);
      while scrollCount < MaxScrolls && |articleUrls| < maxArticles
        invariant scrollCount + left == MaxScrolls
        invariant Collect(site, baseUrl, maxArticles, articleUrls, scrollCount, left) == total
      {
        articleUrls, scrollCount, left := Scroll(site, articleUrls, scrollCount, left, maxArticles);
      }
      if scrollCount < MaxScrolls && maxArticles >= 0 {
        SliceFromNonNegative(articleUrls, 0, maxArticles);
      }
      urls := PySlice(articleUrls, 0, maxArticles);
      scrolls := scrollCount;
    }

    /** One turn of the scrolling loop: find the article elements after this scroll and store their links. */
    method Scroll(site: Site, articleUrls: seq<string>, scrollCount: nat, ghost left: nat, maxArticles: int)
      returns (next: seq<string>, nextCount: nat, ghost nextLeft: nat)
      requires left > 0 && |articleUrls| < maxArticles
      ensures nextCount == scrollCount + 1 && nextLeft == left - 1
      ensures Collect(site, baseUrl, maxArticles, next, nextCount, nextLeft)
           == Collect(site, baseUrl, maxArticles, articleUrls, scrollCount, left)
    {
      var articles := FindArticles(site, scrollCount);
      next := ScanArticles(articleUrls, articles, maxArticles);
      nextCount, nextLeft := scrollCount + 1, left - 1;
    }

    /** The selector loop: the elements of the first article selector that finds any. */
    static method FindArticles(site: Site, scroll: nat) returns (articles: seq<Anchor>)
      ensures articles == FoundFrom(site, scroll, 0)
    {
      articles := [];
      var k := 0;
      while k < ArticleSelectorCount
        invariant k <= ArticleSelectorCount
        invariant FoundFrom(site, scroll, 0) == FoundFrom(site, scroll, k)
      {
        var found := site.found(scroll, k);
        if found != [] {
          articles := found;
          return;
        }
        k := k + 1;
      }
    }

    /** The inner loop over the found elements, stopping at the cap. */
    method ScanArticles(start: seq<string>, articles: seq<Anchor>, maxArticles: int) returns (urls: seq<string>)
      ensures urls == Scan(start, articles, baseUrl, maxArticles)
    {
      urls := start;
      var j := 0;
      while j < |articles|
        invariant j <= |articles|
        invariant urls == Scan(start, articles[..j], baseUrl, maxArticles)
      {
        if |urls| >= maxArticles {
          ScanCapped(start, articles, j, baseUrl, maxArticles);
          return;
        }
        assert articles[..j + 1][..j] == articles[..j];
        var href := HrefOf(articles[j]);
        if href.Some? && href.value != "" && href.value !in urls {
          if IsBlogLink(href.value) {
            urls := urls + [Completed(baseUrl, href.value)];
          }
        }
        j := j + 1;
      }
      assert articles[..j] == articles;
    }

    /** The first element a selector chain finds (the title and content selector loops). */
    static method SelectFirst(doc: seq<Node>, chain: seq<Selector>) returns (found: Option<Node>)
      ensures found == FirstHit(doc, chain)
    {
      var k := 0;
      while k < |chain|
        invariant k <= |chain|
        invariant FirstHit(doc, chain) == FirstHit(doc, chain[k..])
      {
        assert chain[k..][1..] == chain[k + 1..];
        found := SelectOne(doc, chain[k]);
        if found.Some? {
          return;
        }
        k := k + 1;
      }
      found := None;
    }

    /** The date selector loop. */
    static method ReadDate(doc: seq<Node>, today: string) returns (date: string)
      ensures date == DateFrom(doc, DateSelectors, today)
    {
      date := today;
      var k := 0;
      while k < |DateSelectors|
        invariant k <= |DateSelectors|
        invariant DateFrom(doc, DateSelectors, today) == DateFrom(doc, DateSelectors[k..], today)
      {
        assert DateSelectors[k..][1..] == DateSelectors[k + 1..];
        var elem := SelectOne(doc, DateSelectors[k]);
        if elem.Some? {
          var match_ := FirstDate(GetText(Children(elem.value), ""));
          if match_.Some? {
            date := ReplaceChar(match_.value, '/', '-');
            return;
          }
        }
        k := k + 1;
      }
    }

    /** The traversal loop over `content_area.descendants`. */
    method CollectBlocks(descendants: seq<Node>) returns (blocks: seq<Block>)
      ensures blocks == BlocksFrom(descendants, baseUrl)
    {
      blocks := [];
      var i := 0;
      while i < |descendants|
        invariant i <= |descendants|
        invariant blocks == BlocksFrom(descendants[..i], baseUrl)
      {
        assert descendants[..i + 1] == descendants[..i] + [descendants[i]];
        FlatMapSnoc(descendants[..i], descendants[i], (n: Node) => NodeBlocks(n, baseUrl));
        var found := BlocksOfNode(descendants[i]);
        blocks := blocks + found;
        i := i + 1;
      }
      assert descendants[..i] == descendants;
    }

    /** The body of the traversal loop for one node. */
    method BlocksOfNode(element: Node) returns (blocks: seq<Block>)
      ensures blocks == NodeBlocks(element, baseUrl)
    {
      blocks := [];
      if IsTag(element, "p") || IsTag(element, "div") {
        var text := GetText(element.children, "");
        if text != "" && |text| > MinTextLength {
          blocks := [Text(text)];
        }
      } else if IsTag(element, "img") {
        var imgSrc := Attr(element, "src").GetOr("");
        if imgSrc != "" {
          blocks := [Image(Completed(baseUrl, imgSrc))];
        }
      }
    }

    /** The title loop, with the fallback for a missing or blank title. */
    static method ReadTitle(doc: seq<Node>) returns (title: string)
      ensures title == TitleOf(doc)
    {
      var titleElem := SelectFirst(doc, TitleSelectors);
      title := "";
      if titleElem.Some? {
        title := GetText(Children(titleElem.value), "");
      }
      if title == "" {
        title := Untitled;
      }
    }

    /** The content: the area, the operations bar cut away, the traversal, and the placeholder. */
    method ReadContent(doc: seq<Node>) returns (contentBlocks: seq<Block>)
      ensures contentBlocks == ContentOf(doc, baseUrl)
    {
      contentBlocks := [];
      var contentArea := SelectFirst(doc, ContentSelectors);
      if contentArea.Some? {
        var kept := CutOperations(Children(contentArea.value)).0;
        contentBlocks := CollectBlocks(Descendants(kept));
      }
      if contentBlocks == [] {
        contentBlocks := [Text(ExtractionFailed)];
      }
    }

    /** The summary loop. */
    static method Summarize(blocks: seq<Block>) returns (summary: string)
      ensures summary == SummaryOf(blocks)
    {
      summary := "";
      var i := 0;
      while i < |blocks|
        invariant i <= |blocks|
        invariant SummaryOf(blocks) == SummaryOf(blocks[i..])
      {
        assert blocks[i..][1..] == blocks[i + 1..];
        if blocks[i].Text? {
          summary := Take(blocks[i].value, SummaryLength);
          return;
        }
        i := i + 1;
      }
    }

    /** `fetch_article_content`: None when the page cannot be loaded, otherwise its post. */
    method FetchArticleContent(site: Site, articleUrl: string, today: string) returns (post: Option<Post>)
      ensures post == PostAt(site, articleUrl, baseUrl, today)
    {
      var page := site.detail(articleUrl);
      if !page.Loaded? {
        return None;
      }
      var title := ReadTitle(page.doc);
      var date := ReadDate(page.doc, today);
      var contentBlocks := ReadContent(page.doc);
      var summary := Summarize(contentBlocks);
      post := Some(Post(title, articleUrl, date, contentBlocks, summary, HuaweiDeveloper, HuaweiDeveloper));
    }

    /** `crawl_all`: the links first, then each link's post in order, the failed pages left out. */
    method CrawlAll(site: Site, maxArticles: int, today: string) returns (articles: seq<Post>)
      ensures articles == CrawlResult(site, baseUrl, maxArticles, today)
    {
      var articleUrls, _ := FetchArticleUrls(site, maxArticles);
      if articleUrls == [] {
        return [];
      }
      articles := [];
      var i := 0;
      while i < |articleUrls|
        invariant i <= |articleUrls|
        invariant articles == PostsAt(site, articleUrls[..i], baseUrl, today)
      {
        assert articleUrls[..i + 1] == articleUrls[..i] + [articleUrls[i]];
        SomesSnoc(articleUrls[..i], articleUrls[i], (u: string) => PostAt(site, u, baseUrl, today));
        var articleData := FetchArticleContent(site, articleUrls[i], today);
        if articleData.Some? {
          articles := articles + [articleData.value];
        }
        i := i + 1;
      }
      assert articleUrls[..i] == articleUrls;
    }
  }

  /** `crawl_huawei_developer_blog`: a crawler on the default site, then `crawl_all`. */
  method CrawlHuaweiDeveloperBlog(site: Site, maxArticles: int, today: string) returns (articles: seq<Post>)
    ensures articles == CrawlResult(site, DefaultBase, maxArticles, today)
  {
    var crawler := new DeveloperBlogCrawler(DefaultBase);
    articles := crawler.CrawlAll(site, maxArticles, today);
  }
}
