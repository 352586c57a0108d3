/**
 * The Selenium crawler of the blog's "Latest" tab (`HuaweiBlogCrawler`): it
 * walks the article cards by index, opens each card's detail page (retrying
 * a card whose elements went stale), turns the detail page's content into
 * text and image blocks, and hands captured articles to a callback in fixed
 * batches.
 *
 * The browser is an oracle. `Browser.starts` says whether Chrome starts,
 * `ready` whether the list page loads with its "Latest" tab, `listing(i)`
 * what waiting for the cards gives before card `i` is visited, `attempt(i, k)`
 * what the `k`-th attempt to open card `i` gives, and `tabOk(i)` whether the
 * tab can be re-selected after card `i`. `join` is `urljoin(base_url, ...)`,
 * `hash` is `md5(...).hexdigest()` and `clock` the time source.
 */
module BlogCrawler {
  import opened Wrappers
  import opened Strings
  import opened Seqs
  import opened Dom
  import opened Records
  import opened Timestamps

  /** The texts `_extract_card_metadata` reads from a card, before stripping. */
  datatype CardTexts = CardTexts(title: string, summary: string, timeLabel: string)

  /** One attempt at a card. */
  datatype Attempt =
    | CardsGone                                              // fewer cards than the index
    | Opened(card: CardTexts, url: string, content: seq<Node>) // detail page reached; `content` is the parsed inner HTML of `div.blog-content`
    | Stale                                                  // StaleElementReferenceException
    | TimedOut(recovered: bool)                              // TimeoutException; whether going back to the list worked
    | Faulted                                                // any other exception

  /** Waiting for the cards before visiting an index: a timeout, or the number of cards present. */
  datatype Listing = ListingFailed | Cards(count: nat)

  datatype Browser = Browser(
    starts: bool,
    ready: bool,
    listing: nat -> Listing,
    attempt: (nat, nat) -> Attempt,
    tabOk: nat -> bool)

  /** What `_open_card_and_collect` gives: an article, `None`, or an exception for the caller. */
  datatype CardResult = Captured(article: Article) | Skipped | Raised

  const MaxAttempts: nat := 3
  const SummaryLength: nat := 120
  const ImageAttrs: seq<string> := ["src", "data-src", "data-original"]

  // ---------------------------------------------------------------------
  // Operations blocks
  // ---------------------------------------------------------------------

  /** The forest with every `div.operations` element removed, at any depth. */
  function PruneOps(ns: seq<Node>): seq<Node>
    decreases ns
  {
    if ns == [] then []
    else
      var n := ns[0];
      (if IsOperations(n) then []
       else if n.Element? then [Element(n.name, n.attrs, PruneOps(n.children))]
       else [n])
      + PruneOps(ns[1..])
  }

  /** After pruning, no element anywhere in the forest is an operations block. */
  lemma {:induction false} PrunedHasNoOps(ns: seq<Node>)
    ensures forall n :: n in Descendants(PruneOps(ns)) ==> !IsOperations(n)
    decreases ns
  {
    if ns != [] {
      var n := ns[0];
      PrunedHasNoOps(ns[1..]);
      var head := if IsOperations(n) then []
                  else if n.Element? then [Element(n.name, n.attrs, PruneOps(n.children))]
                  else [n];
      assert PruneOps(ns) == head + PruneOps(ns[1..]);
      DescendantsAppend(head, PruneOps(ns[1..]));
      if !IsOperations(n) && n.Element? {
        PrunedHasNoOps(n.children);
        var e := Element(n.name, n.attrs, PruneOps(n.children));
        assert Descendants(head) == [e] + Descendants(PruneOps(n.children)) + Descendants([]);
        assert !IsOperations(e) by {
          assert Attr(e, "class") == Attr(n, "class");
        }
      }
    }
  }

  // ---------------------------------------------------------------------
  // Content blocks
  // ---------------------------------------------------------------------

  /** Every text block carries some text. */
  predicate TextsNonEmpty(bs: seq<Block>) {
    forall i :: 0 <= i < |bs| && bs[i].Text? ==> bs[i].value != ""
  }

  lemma TextsNonEmptyAppend(front: seq<Block>, last: seq<Block>)
    requires TextsNonEmpty(front) && TextsNonEmpty(last)
    ensures TextsNonEmpty(front + last)
  {
    assert forall i :: |front| <= i < |front + last| ==> (front + last)[i] == last[i - |front|];
  }

  /** An image's source: `src`, else `data-src`, else `data-original`. */
  function ImageSource(img: Node): Option<string> {
    FirstAttr(img, ImageAttrs)
  }

  predicate HasImageSource(img: Node) {
    ImageSource(img).Some?
  }

  /** The block one image gives: its source resolved against the site, when it has one. */
  function SourcedImage(img: Node, join: string -> string): Option<Block> {
    match ImageSource(img)
    case Some(src) => Some(Image(join(src)))
    case None => None
  }

  /** One image block, resolved against the site, per image that has a source, in order. */
  function ImageBlocksOf(imgs: seq<Node>, join: string -> string): (bs: seq<Block>)
    ensures |bs| <= |imgs|
    ensures forall i :: 0 <= i < |bs| ==> bs[i].Image?
    ensures var sourced := Filter(imgs, HasImageSource);
      |bs| == |sourced| && forall i :: 0 <= i < |bs| ==> bs[i] == Image(join(ImageSource(sourced[i]).value))
  {
    SomesFiltered(imgs, (img: Node) => SourcedImage(img, join), HasImageSource);
    Somes(imgs, (img: Node) => SourcedImage(img, join))
  }

  /**
   * The blocks one top-level node contributes: a text node its stripped text;
   * an image its resolved source; any other element the images nested in it,
   * then its text joined by newlines. Empty texts and sourceless images give
   * nothing.
   */
  function NodeBlocks(n: Node, join: string -> string): (r: seq<Block>)
    ensures TextsNonEmpty(r)
    ensures forall i :: 0 <= i < |r| - 1 ==> r[i].Image?
    ensures n.TextNode? ==> (r == [] <==> Strip(n.text) == "") && (r != [] ==> r == [Text(Strip(n.text))])
    ensures IsTag(n, "img") ==> (r == [] <==> !HasImageSource(n)) && (r != [] ==> r == [Image(join(ImageSource(n).value))])
    ensures n.Element? && n.name != "img" ==>
      var images := ImageBlocksOf(FindAll(n.children, "img"), join);
      && |images| <= |r| <= |images| + 1 && r[..|images|] == images
      && (|r| == |images| + 1 <==> TextPieces(n.children) != [])
      && (|r| == |images| + 1 ==> r[|images|] == Text(GetText(n.children, "\n")))
  {
    match n
    case TextNode(t) => if Strip(t) == "" then [] else [Text(Strip(t))]
    case Element(name, _, kids) =>
      if name == "img" then
        (match ImageSource(n) case Some(src) => [Image(join(src))] case None => [])
      else
        var text := GetText(kids, "\n");
        var images := ImageBlocksOf(FindAll(kids, "img"), join);
        var r := images + (if text != "" then [Text(text)] else []);
        assert r[..|images|] == images;
        r
  }

  /** `_parse_content_blocks`: the blocks of the top-level nodes, in order. */
  function BlocksOf(ns: seq<Node>, join: string -> string): (r: seq<Block>)
    ensures TextsNonEmpty(r)
  {
    if ns == [] then []
    else
      var front, last := BlocksOf(ns[..|ns| - 1], join), NodeBlocks(ns[|ns| - 1], join);
      TextsNonEmptyAppend(front, last);
      front + last
  }

  /** `_parse_content_blocks`: a loop over the top-level nodes of the content. */
  method ParseContentBlocks(soup: seq<Node>, join: string -> string) returns (blocks: seq<Block>)
    ensures blocks == BlocksOf(soup, join)
  {
    blocks := [];
    var i := 0;
    while i < |soup|
      invariant 0 <= i <= |soup|
      invariant blocks == BlocksOf(soup[..i], join)
    {
      assert soup[..i + 1][..i] == soup[..i];
      var more := ElementBlocks(soup[i], join);
      blocks := blocks + more;
      i := i + 1;
    }
    assert soup[..i] == soup;
  }

  /** The body of that loop for one node, with its inner loop over the nested images. */
  method ElementBlocks(element: Node, join: string -> string) returns (blocks: seq<Block>)
    ensures blocks == NodeBlocks(element, join)
  {
    blocks := [];
    match element {
      case TextNode(t) =>
        var text := Strip(t);
        if text != "" {
          blocks := [Text(text)];
        }
      case Element(name, _, kids) =>
        if name == "img" {
          var src := ImageSource(element);
          if src.Some? {
            blocks := [Image(join(src.value))];
          }
        } else {
          blocks := NestedImageBlocks(FindAll(kids, "img"), join);
          var textValue := GetText(kids, "\n");
          if textValue != "" {
            blocks := blocks + [Text(textValue)];
          }
        }
    }
  }

  /** The inner loop over the images nested in an element. */
  method NestedImageBlocks(imgs: seq<Node>, join: string -> string) returns (blocks: seq<Block>)
    ensures blocks == ImageBlocksOf(imgs, join)
  {
    blocks := [];
    var j := 0;
    while j < |imgs|
      invariant 0 <= j <= |imgs|
      invariant blocks == ImageBlocksOf(imgs[..j], join)
    {
      assert imgs[..j + 1] == imgs[..j] + [imgs[j]];
      SomesSnoc(imgs[..j], imgs[j], (img: Node) => SourcedImage(img, join));
      var src := ImageSource(imgs[j]);
      if src.Some? {
        blocks := blocks + [Image(join(src.value))];
      }
      j := j + 1;
    }
    assert imgs[..j] == imgs;
  }

  // ---------------------------------------------------------------------
  // The article record
  // ---------------------------------------------------------------------

  /** The card's summary if it has one, else the start of the first block when that is text, else nothing. */
  function SummaryOf(cardSummary: string, blocks: seq<Block>): (s: string)
    ensures cardSummary != "" ==> s == cardSummary
    ensures cardSummary == "" ==> |s| <= SummaryLength && (blocks != [] && blocks[0].Text? ==> s <= blocks[0].value)
    ensures cardSummary == "" && blocks != [] && blocks[0].Text? ==>
      |s| == (if |blocks[0].value| < SummaryLength then |blocks[0].value| else SummaryLength)
    ensures cardSummary == "" && (blocks == [] || blocks[0].Image?) ==> s == ""
  {
    if cardSummary != "" then cardSummary
    else if blocks != [] && blocks[0].Text? then Take(blocks[0].value, SummaryLength)
    else ""
  }

  /** With non-empty text blocks, the summary is empty exactly when the card has none and the content does not open with text. */
  lemma SummaryEmpty(cardSummary: string, blocks: seq<Block>)
    requires TextsNonEmpty(blocks)
    ensures SummaryOf(cardSummary, blocks) == "" <==> cardSummary == "" && (blocks == [] || blocks[0].Image?)
  {
  }

  /**
   * The article a detail page gives. The time label is stripped when the card
   * is read and again by the normalizer; stripping once is the same
   * (`NormalizeStripped`).
   */
  function DetailArticle(card: CardTexts, url: string, blocks: seq<Block>, hash: string -> string, clock: Clock): Article {
    Article(hash(url), Strip(card.title), url, NormalizeTime(card.timeLabel, clock),
            BlogSource, SummaryOf(Strip(card.summary), blocks), HuaweiDeveloper, blocks)
  }

  /** Two detail pages reached at the same address give articles with the same id. */
  lemma IdFollowsUrl(c1: CardTexts, c2: CardTexts, url: string, b1: seq<Block>, b2: seq<Block>, hash: string -> string, clock: Clock)
    ensures DetailArticle(c1, url, b1, hash, clock).id == DetailArticle(c2, url, b2, hash, clock).id
    ensures DetailArticle(c1, url, b1, hash, clock).url == url
  {
  }

  /**
   * `_extract_article_from_detail`: the operations blocks are removed, the
   * content parsed into blocks, and the record built around them.
   */
  method ExtractArticleFromDetail(card: CardTexts, url: string, content: seq<Node>,
                                  hash: string -> string, join: string -> string, clock: Clock)
    returns (a: Article)
    ensures a == DetailArticle(card, url, BlocksOf(PruneOps(content), join), hash, clock)
    ensures a.id == hash(url) && a.url == url
    ensures TextsNonEmpty(a.content)
  {
    var blocks := ParseContentBlocks(PruneOps(content), join);
    a := DetailArticle(card, url, blocks, hash, clock);
  }

  // ---------------------------------------------------------------------
  // Opening a card
  // ---------------------------------------------------------------------

  /** Where the attempts at one card end: a detail page reached, the card given up, or an exception for the caller. */
  datatype Visit = Reached(card: CardTexts, url: string, content: seq<Node>) | GaveUp | Failed

  /** Where the attempts at card `index` end, from attempt `k` on. */
  function AttemptsFrom(b: Browser, index: nat, k: nat): Visit
    decreases MaxAttempts - k
  {
    if k >= MaxAttempts then GaveUp
    else match b.attempt(index, k)
      case CardsGone => GaveUp
      case Opened(card, url, content) => Reached(card, url, content)
      case Stale => AttemptsFrom(b, index, k + 1)
      case TimedOut(recovered) => if recovered then GaveUp else Failed
      case Faulted => Failed
  }

  function CardOutcome(b: Browser, index: nat): Visit {
    AttemptsFrom(b, index, 0)
  }

  /** The article of a card whose attempts reached its detail page. */
  function Capture(v: Visit, hash: string -> string, join: string -> string, clock: Clock): Article
    requires v.Reached?
  {
    DetailArticle(v.card, v.url, BlocksOf(PruneOps(v.content), join), hash, clock)
  }

  /** What `_open_card_and_collect` gives for a visit. */
  function ResultOf(v: Visit, hash: string -> string, join: string -> string, clock: Clock): CardResult {
    match v
    case Reached(_, _, _) => Captured(Capture(v, hash, join, clock))
    case GaveUp => Skipped
    case Failed => Raised
  }

  /** `_open_card_and_collect`: up to three attempts, retrying only after a stale element. */
  method OpenCardAndCollect(b: Browser, index: nat, hash: string -> string, join: string -> string, clock: Clock)
    returns (r: CardResult)
    ensures r == ResultOf(CardOutcome(b, index), hash, join, clock)
  {
    var attempts := 0;
    while attempts < MaxAttempts
      invariant 0 <= attempts <= MaxAttempts
      invariant AttemptsFrom(b, index, attempts) == CardOutcome(b, index)
      decreases MaxAttempts - attempts
    {
      match b.attempt(index, attempts)
      case CardsGone =>
        return Skipped;
      case Opened(card, url, content) =>
        var article := ExtractArticleFromDetail(card, url, content, hash, join, clock);
        return Captured(article);
      case Stale =>
        attempts := attempts + 1;
      case TimedOut(recovered) =>
        return if recovered then Skipped else Raised;
      case Faulted =>
        return Raised;
    }
    return Skipped;
  }

  /** The outcome of a card depends on its first three attempts only. */
  lemma {:induction false} AttemptsBounded(b1: Browser, b2: Browser, index: nat, k: nat)
    requires forall j :: k <= j < MaxAttempts ==> b1.attempt(index, j) == b2.attempt(index, j)
    ensures AttemptsFrom(b1, index, k) == AttemptsFrom(b2, index, k)
    decreases MaxAttempts - k
  {
    if k < MaxAttempts && b1.attempt(index, k).Stale? {
      AttemptsBounded(b1, b2, index, k + 1);
    }
  }

  /** Three stale attempts in a row give up on the card without raising. */
  lemma ThreeStaleSkips(b: Browser, index: nat)
    requires b.attempt(index, 0) == Stale && b.attempt(index, 1) == Stale && b.attempt(index, 2) == Stale
    ensures CardOutcome(b, index) == GaveUp
  {
    assert AttemptsFrom(b, index, 2) == GaveUp;
    assert AttemptsFrom(b, index, 1) == GaveUp;
  }

  /** A detail page is reached only through an attempt that opened it, after stale attempts only. */
  lemma {:induction false} ReachedFromOpened(b: Browser, index: nat, k: nat)
    requires AttemptsFrom(b, index, k).Reached?
    ensures exists j :: (k <= j < MaxAttempts
      && b.attempt(index, j) == Opened(AttemptsFrom(b, index, k).card, AttemptsFrom(b, index, k).url, AttemptsFrom(b, index, k).content)
      && forall i :: k <= i < j ==> b.attempt(index, i) == Stale)
    decreases MaxAttempts - k
  {
    if b.attempt(index, k).Stale? {
      ReachedFromOpened(b, index, k + 1);
      var j :| k + 1 <= j < MaxAttempts
        && b.attempt(index, j) == Opened(AttemptsFrom(b, index, k).card, AttemptsFrom(b, index, k).url, AttemptsFrom(b, index, k).content)
        && forall i :: k + 1 <= i < j ==> b.attempt(index, i) == Stale;
      assert forall i :: k <= i < j ==> b.attempt(index, i) == Stale;
    } else {
      assert b.attempt(index, k).Opened?;
    }
  }

  // ---------------------------------------------------------------------
  // The crawl
  // ---------------------------------------------------------------------

  /** The indices of the cards captured so far, and whether the loop has stopped (a `break` or an exception). */
  datatype Progress = Progress(captured: seq<nat>, stopped: bool)

  /** One turn of the `while idx < max_articles` loop at index `idx`. */
  function Step(b: Browser, idx: nat, sofar: seq<nat>): Progress {
    match b.listing(idx)
    case ListingFailed => Progress(sofar, true)
    case Cards(count) =>
      if idx >= count then Progress(sofar, true)
      else match CardOutcome(b, idx)
        case Failed => Progress(sofar, true)
        case Reached(_, _, _) => Progress(sofar + [idx], !b.tabOk(idx))
        case GaveUp => Progress(sofar, !b.tabOk(idx))
  }

  /**
   * The state of the loop after the indices below `n` have been visited (or
   * once it stopped): the captured cards are below `n`, in increasing order,
   * and each of them reached its detail page.
   */
  function Crawled(b: Browser, n: nat): (p: Progress)
    ensures |p.captured| <= n
  {
    if n == 0 then Progress([], false)
    else
      var p := Crawled(b, n - 1);
      if p.stopped then p else Step(b, n - 1, p.captured)
  }

  /** The captured cards are below `n`, in increasing order, and each of them reached its detail page. */
  lemma {:induction false} CapturedCards(b: Browser, n: nat)
    ensures forall i :: 0 <= i < |Crawled(b, n).captured| ==>
      Crawled(b, n).captured[i] < n && CardOutcome(b, Crawled(b, n).captured[i]).Reached?
    ensures forall i, j :: 0 <= i < j < |Crawled(b, n).captured| ==> Crawled(b, n).captured[i] < Crawled(b, n).captured[j]
  {
    if n > 0 {
      CapturedCards(b, n - 1);
      var p := Crawled(b, n - 1);
      if !p.stopped {
        StepCaptures(b, n - 1, p.captured);
        assert Crawled(b, n) == Step(b, n - 1, p.captured);
        var c := Crawled(b, n).captured;
        if c != p.captured {
          assert c == p.captured + [n - 1];
          assert forall i :: 0 <= i < |p.captured| ==> c[i] == p.captured[i];
        }
      }
    }
  }

  /** A turn adds at most its own index, and only when the card reached its detail page. */
  lemma StepCaptures(b: Browser, idx: nat, sofar: seq<nat>)
    ensures Step(b, idx, sofar).captured == sofar
      || (Step(b, idx, sofar).captured == sofar + [idx] && CardOutcome(b, idx).Reached?)
  {
  }

  /**
   * The keep direction: a card the loop reaches before stopping, with enough
   * cards listed and a detail page reached, is captured, whatever happens
   * after it.
   */
  lemma {:induction false} ReachedIsCaptured(b: Browser, n: nat, idx: nat)
    requires idx < n && !Crawled(b, idx).stopped
    requires b.listing(idx).Cards? && idx < b.listing(idx).count && CardOutcome(b, idx).Reached?
    ensures idx in Crawled(b, n).captured
  {
    var p := Crawled(b, n - 1);
    if n - 1 == idx {
      assert Crawled(b, n) == Step(b, idx, p.captured);
    } else {
      ReachedIsCaptured(b, n - 1, idx);
      if !p.stopped {
        StepCaptures(b, n - 1, p.captured);
      }
    }
  }

  /**
   * The stop rule: a failed wait for the cards, an index at or past the card
   * count, or a card raising ends the loop with nothing more captured.
   */
  lemma {:induction false} StopsAt(b: Browser, idx: nat, m: nat)
    requires idx < m && !Crawled(b, idx).stopped
    requires b.listing(idx).ListingFailed? || idx >= b.listing(idx).count || CardOutcome(b, idx).Failed?
    ensures Crawled(b, m) == Progress(Crawled(b, idx).captured, true)
  {
    var p := Crawled(b, idx);
    StopStep(b, idx, p.captured);
    assert Crawled(b, idx + 1) == Step(b, idx, p.captured);
    StoppedStays(b, idx + 1, m);
  }

  lemma StopStep(b: Browser, idx: nat, sofar: seq<nat>)
    requires b.listing(idx).ListingFailed? || idx >= b.listing(idx).count || CardOutcome(b, idx).Failed?
    ensures Step(b, idx, sofar) == Progress(sofar, true)
  {
  }

  /** Once stopped, the loop's state no longer changes. */
  lemma {:induction false} StoppedStays(b: Browser, n: nat, m: nat)
    requires n <= m && Crawled(b, n).stopped
    ensures Crawled(b, m) == Crawled(b, n)
    decreases m - n
  {
    if n < m {
      StoppedStays(b, n, m - 1);
    }
  }

  /** A card skipped or failing, or the loop having stopped before it, contributes no article. */
  lemma {:induction false} CapturedOnlyReached(b: Browser, n: nat, idx: nat)
    requires idx < n
    requires !CardOutcome(b, idx).Reached? || b.listing(idx).ListingFailed?
    ensures idx !in Crawled(b, n).captured
  {
    CapturedCards(b, n - 1);
    var p := Crawled(b, n - 1);
    if n - 1 != idx {
      CapturedOnlyReached(b, n - 1, idx);
    }
    if !p.stopped {
      StepCaptures(b, n - 1, p.captured);
      if n - 1 == idx {
        assert idx !in p.captured;
      }
    }
  }

  /** The articles of the given cards, in order. */
  function ArticlesAt(b: Browser, idxs: seq<nat>, hash: string -> string, join: string -> string, clock: Clock): (r: seq<Article>)
    ensures |r| <= |idxs|
  {
    if idxs == [] then []
    else
      var v := CardOutcome(b, idxs[|idxs| - 1]);
      ArticlesAt(b, idxs[..|idxs| - 1], hash, join, clock) + (if v.Reached? then [Capture(v, hash, join, clock)] else [])
  }

  /** Each captured card's article is among the articles returned. */
  lemma {:induction false} CapturedArticleKept(b: Browser, idxs: seq<nat>, idx: nat, hash: string -> string, join: string -> string, clock: Clock)
    requires idx in idxs && CardOutcome(b, idx).Reached?
    ensures Capture(CardOutcome(b, idx), hash, join, clock) in ArticlesAt(b, idxs, hash, join, clock)
  {
    var init := idxs[..|idxs| - 1];
    if idxs[|idxs| - 1] != idx {
      assert idxs == init + [idxs[|idxs| - 1]];
      CapturedArticleKept(b, init, idx, hash, join, clock);
    }
  }

  /** Capturing one more card appends its article. */
  lemma ArticlesAtSnoc(b: Browser, idxs: seq<nat>, idx: nat, hash: string -> string, join: string -> string, clock: Clock)
    requires CardOutcome(b, idx).Reached?
    ensures ArticlesAt(b, idxs + [idx], hash, join, clock) == ArticlesAt(b, idxs, hash, join, clock) + [Capture(CardOutcome(b, idx), hash, join, clock)]
  {
    assert (idxs + [idx])[..|idxs|] == idxs;
  }

  /**
   * The articles a crawl returns: none when the browser or the list page
   * fails, otherwise the articles of the captured cards in index order, each
   * carrying the id of its own address.
   */
  function CrawlResult(b: Browser, maxArticles: int, hash: string -> string, join: string -> string, clock: Clock): (r: seq<Article>)
    ensures |r| <= if maxArticles < 0 then 0 else maxArticles
  {
    if !b.starts || !b.ready then []
    else ArticlesAt(b, Crawled(b, if maxArticles < 0 then 0 else maxArticles).captured, hash, join, clock)
  }

  /** A card reached before the loop stops, below `max_articles`, has its article among those returned. */
  lemma ReachedIsReturned(b: Browser, maxArticles: int, idx: nat, hash: string -> string, join: string -> string, clock: Clock)
    requires b.starts && b.ready && idx < maxArticles && !Crawled(b, idx).stopped
    requires b.listing(idx).Cards? && idx < b.listing(idx).count && CardOutcome(b, idx).Reached?
    ensures Capture(CardOutcome(b, idx), hash, join, clock) in CrawlResult(b, maxArticles, hash, join, clock)
  {
    ReachedIsCaptured(b, maxArticles, idx);
    CapturedArticleKept(b, Crawled(b, maxArticles).captured, idx, hash, join, clock);
  }

  /** `articles` cut into consecutive batches of `size`, the last incomplete batch left out. */
  ghost predicate BatchesOf(batches: seq<seq<Article>>, articles: seq<Article>, size: nat) {
    size > 0
    && |batches| == |articles| / size
    && (forall i :: 0 <= i < |batches| ==> |batches[i]| == size)
    && Concat(batches) == articles[..(|articles| / size) * size]
  }

  /** How `n / size` moves when `n` grows by one. */
  lemma DivStep(n: nat, size: nat)
    requires size > 0
    ensures (n / size) * size <= n
    ensures (n + 1) % size == 0 ==> (n + 1) / size == n / size + 1 && (n / size) * size == n + 1 - size && ((n + 1) / size) * size == n + 1
    ensures (n + 1) % size != 0 ==> (n + 1) / size == n / size
  {
    var q, r := n / size, n % size;
    assert n == q * size + r && 0 <= r < size;
    if r == size - 1 {
      DivUnique(n + 1, size, q + 1, 0);
      assert (q + 1) * size == q * size + size;
    } else {
      DivUnique(n + 1, size, q, r + 1);
    }
  }

  lemma MulAtLeast(x: int, size: nat)
    requires x >= 1
    ensures x * size >= size
  {
  }

  /** Quotient and remainder are unique. */
  lemma DivUnique(a: nat, size: nat, q: nat, r: nat)
    requires size > 0 && 0 <= r < size && a == q * size + r
    ensures a / size == q && a % size == r
  {
    var q', r' := a / size, a % size;
    assert a == q' * size + r';
    if q' > q {
      MulAtLeast(q' - q, size);
    } else if q' < q {
      MulAtLeast(q - q', size);
    }
  }

  /** Appending one article keeps the batches in step: a new batch exactly when the count reaches a multiple of the size. */
  lemma BatchStep(batches: seq<seq<Article>>, articles: seq<Article>, a: Article, size: nat)
    requires BatchesOf(batches, articles, size)
    ensures var more := articles + [a];
      && (|more| % size == 0 ==> size <= |more| && BatchesOf(batches + [more[|more| - size..]], more, size))
      && (|more| % size != 0 ==> BatchesOf(batches, more, size))
  {
    var more := articles + [a];
    var n := |articles|;
    DivStep(n, size);
    assert more[..(n / size) * size] == articles[..(n / size) * size];
    if (n + 1) % size == 0 {
      var last := more[n + 1 - size..];
      ConcatSnoc(batches, last);
      assert more[..(n / size) * size] + last == more;
      assert more[..((n + 1) / size) * size] == more;
    }
  }

  /**
   * A captured article is appended, and when the callback is set and the
   * count reaches a multiple of the batch size, the last `batch_size`
   * articles go to the callback.
   */
  method Record(articles: seq<Article>, batches: seq<seq<Article>>, a: Article, batching: bool, batchSize: int)
    returns (articles': seq<Article>, batches': seq<seq<Article>>)
    requires batching ==> batchSize > 0 && BatchesOf(batches, articles, batchSize)
    ensures articles' == articles + [a]
    ensures batching ==> BatchesOf(batches', articles', batchSize)
    ensures !batching ==> batches' == batches
  {
    if batching {
      BatchStep(batches, articles, a, batchSize);
    }
    articles', batches' := articles + [a], batches;
    if batching && |articles'| % batchSize == 0 {
      SliceLast(articles', batchSize);
      batches' := batches + [PySlice(articles', -batchSize, |articles'|)];
    }
  }

  /**
   * One turn of the loop in `crawl_latest_articles` at index `idx`: wait for
   * the cards, stop if there are too few, open the card, and re-select the
   * "Latest" tab. `stop` is a `break` or an exception leaving the loop.
   */
  method Turn(b: Browser, idx: nat, ghost sofar: seq<nat>, hash: string -> string, join: string -> string, clock: Clock)
    returns (r: CardResult, stop: bool)
    ensures Step(b, idx, sofar) == Progress(if r.Captured? then sofar + [idx] else sofar, stop)
    ensures r.Captured? ==> CardOutcome(b, idx).Reached? && ArticlesAt(b, sofar + [idx], hash, join, clock) == ArticlesAt(b, sofar, hash, join, clock) + [r.article]
  {
    var listing := b.listing(idx);
    if listing.ListingFailed? || idx >= listing.count {
      return Skipped, true;
    }
    r := OpenCardAndCollect(b, idx, hash, join, clock);
    if r.Captured? {
      ArticlesAtSnoc(b, sofar, idx, hash, join, clock);
    }
    if r.Raised? {
      return r, true;
    }
    stop := !b.tabOk(idx);
  }

  /** `crawl_latest_articles`'s loop state after the indices below `idx`. */
  ghost predicate LoopState(b: Browser, idx: nat, captured: seq<nat>, stop: bool, articles: seq<Article>,
                            batches: seq<seq<Article>>, batching: bool, batchSize: int,
                            hash: string -> string, join: string -> string, clock: Clock)
  {
    && Crawled(b, idx) == Progress(captured, stop)
    && articles == ArticlesAt(b, captured, hash, join, clock)
    && (batching ==> batchSize > 0 && BatchesOf(batches, articles, batchSize))
    && (!batching ==> batches == [])
  }

  /** One iteration of `crawl_latest_articles`'s loop: a turn, then the article and batch bookkeeping. */
  method Advance(b: Browser, idx: nat, ghost captured: seq<nat>, ghost stopped: bool, articles: seq<Article>, batches: seq<seq<Article>>,
                 batching: bool, batchSize: int, hash: string -> string, join: string -> string, clock: Clock)
    returns (next: nat, ghost captured': seq<nat>, articles': seq<Article>, batches': seq<seq<Article>>, stop: bool)
    requires !stopped && LoopState(b, idx, captured, stopped, articles, batches, batching, batchSize, hash, join, clock)
    ensures next == idx + 1
    ensures LoopState(b, next, captured', stop, articles', batches', batching, batchSize, hash, join, clock)
  {
    next := idx + 1;
    var r;
    r, stop := Turn(b, idx, captured, hash, join, clock);
    captured', articles', batches' := captured, articles, batches;
    if r.Captured? {
      captured' := captured + [idx];
      articles', batches' := Record(articles, batches, r.article, batching, batchSize);
    }
  }

  /**
   * `crawl_latest_articles`: the articles in index order, the batches handed
   * to the callback (the last `batch_size` articles each time the count
   * reaches a multiple of it), and how many times the browser was quit.
   */
  method CrawlLatestArticles(b: Browser, maxArticles: int, callback: bool, batchSize: int,
                             hash: string -> string, join: string -> string, clock: Clock)
    returns (articles: seq<Article>, batches: seq<seq<Article>>, quits: nat)
    ensures articles == CrawlResult(b, maxArticles, hash, join, clock)
    ensures callback && batchSize > 0 ==> BatchesOf(batches, articles, batchSize)
    ensures !(callback && batchSize > 0) ==> batches == []
    ensures quits == if b.starts then 1 else 0
  {
    articles, batches := [], [];
    if !b.starts {
      return articles, batches, 0;
    }
    quits := 1;
    if !b.ready {
      return;
    }
    var batching := callback && batchSize > 0;
    ghost var bound: nat := if maxArticles < 0 then 0 else maxArticles;
    ghost var captured: seq<nat> := [];
    var idx: nat := 0;
    var stop := false;
    while idx < maxArticles && !stop
      invariant idx <= bound
      invariant LoopState(b, idx, captured, stop, articles, batches, batching, batchSize, hash, join, clock)
      decreases maxArticles - idx
    {
      idx, captured, articles, batches, stop := Advance(b, idx, captured, stop, articles, batches, batching, batchSize, hash, join, clock);
    }
    if stop {
      StoppedStays(b, idx, bound);
    }
  }
}
