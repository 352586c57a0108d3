/**
 * A parsed HTML document as the crawlers see it: a forest of text nodes and
 * elements, with the lookups they perform on it — BeautifulSoup's
 * `descendants`, `get_text(separator, strip=True)`, `find_all(name)` and
 * `select_one(css)`, and Selenium's `find_elements` on the same tree.
 */
module Dom {
  import opened Wrappers
  import opened Strings
  import opened Seqs

  datatype Node =
    | TextNode(text: string)
    | Element(name: string, attrs: map<string, string>, children: seq<Node>)

  /** The value of attribute `key`, if the element has it. */
  function Attr(n: Node, key: string): Option<string> {
    if n.Element? && key in n.attrs then Some(n.attrs[key]) else None
  }

  /** The children of an element; a text node has none. */
  function Children(n: Node): seq<Node> {
    if n.Element? then n.children else []
  }

  /** The site's share-and-like bar, `div.operations`, which both browser crawlers drop. */
  predicate IsOperations(n: Node) {
    IsTag(n, "div") && HasClass(n, "operations")
  }

  /** Python's `element.get(a) or element.get(b) or ...`: the first attribute that is present and non-empty. */
  function FirstAttr(n: Node, keys: seq<string>): (r: Option<string>)
    ensures r.Some? ==> r.value != ""
    ensures r.None? <==> forall i :: 0 <= i < |keys| ==> Attr(n, keys[i]).GetOr("") == ""
  {
    if keys == [] then None
    else if Attr(n, keys[0]).GetOr("") != "" then Attr(n, keys[0])
    else FirstAttr(n, keys[1..])
  }

  predicate IsTag(n: Node, name: string) {
    n.Element? && n.name == name
  }

  /** Length of the run of non-space characters at the start of `t`. */
  function WordLength(t: string): (k: nat)
    ensures k <= |t|
    ensures t != [] && !IsSpace(t[0]) ==> k >= 1
  {
    if t == [] || IsSpace(t[0]) then 0 else 1 + WordLength(t[1..])
  }

  /** Python's `s.split()`: the whitespace-separated words of a class attribute. */
  function Words(s: string): (ws: seq<string>)
    ensures forall i :: 0 <= i < |ws| ==> ws[i] != ""
    decreases |s|
  {
    var t := TrimLeft(s);
    if t == [] then []
    else
      var k := WordLength(t);
      assert 1 <= k <= |t| <= |s|;
      var word, rest := t[..k], Words(t[k..]);
      assert |word| == k;
      [word] + rest
  }

  predicate HasClass(n: Node, c: string) {
    Attr(n, "class").Some? && c in Words(Attr(n, "class").value)
  }

  /** Every node of the forest in document order (BeautifulSoup's `descendants`). */
  function Descendants(ns: seq<Node>): seq<Node>
    decreases ns
  {
    if ns == [] then []
    else
      [ns[0]] + (if ns[0].Element? then Descendants(ns[0].children) else []) + Descendants(ns[1..])
  }

  lemma {:induction false} DescendantsAppend(a: seq<Node>, b: seq<Node>)
    ensures Descendants(a + b) == Descendants(a) + Descendants(b)
    decreases a
  {
    if a == [] {
      assert a + b == b;
    } else {
      assert (a + b)[0] == a[0];
      assert (a + b)[1..] == a[1..] + b;
      DescendantsAppend(a[1..], b);
    }
  }

  /** `find_all(name)` / `find_elements(By.TAG_NAME, name)` below a forest. */
  function FindAll(ns: seq<Node>, name: string): (r: seq<Node>)
    ensures forall i :: 0 <= i < |r| ==> IsTag(r[i], name) && r[i] in Descendants(ns)
    ensures forall d | d in Descendants(ns) && IsTag(d, name) :: d in r
  {
    Filter(Descendants(ns), n => IsTag(n, name))
  }

  /**
   * The stripped, non-empty text strings of a forest in document order: what
   * BeautifulSoup's `get_text(strip=True)` joins.
   */
  function TextPieces(ns: seq<Node>): (ps: seq<string>)
    ensures forall i :: 0 <= i < |ps| ==> ps[i] != ""
    decreases ns
  {
    if ns == [] then []
    else
      (match ns[0]
       case TextNode(t) => if Strip(t) == "" then [] else [Strip(t)]
       case Element(_, _, kids) => TextPieces(kids))
      + TextPieces(ns[1..])
  }

  /** `element.get_text(separator=sep, strip=True)` for the element whose children are `ns`. */
  function GetText(ns: seq<Node>, sep: string): (r: string)
    ensures r != "" <==> TextPieces(ns) != []
  {
    var ps := TextPieces(ns);
    assert ps != [] ==> Join(ps, sep) != "" by {
      if ps != [] {
        assert ps[0] != "";
        JoinNonEmpty(ps, sep);
      }
    }
    Join(ps, sep)
  }

  /** The simple selectors used by the crawlers. */
  datatype Test =
    | Tag(tag: string)                     // div
    | Id(id: string)                       // #blogContent
    | Class(cls: string)                   // .blog-content
    | HasAttr(attr: string)                // [_ngcontent-serverapp-c154]
    | AttrContains(attr: string, sub: string)  // [class*="title"]

  predicate Satisfies(n: Node, t: Test) {
    match t
    case Tag(name) => IsTag(n, name)
    case Id(id) => Attr(n, "id") == Some(id)
    case Class(c) => HasClass(n, c)
    case HasAttr(a) => Attr(n, a).Some?
    case AttrContains(a, sub) => Attr(n, a).Some? && Contains(Attr(n, a).value, sub)
  }

  /** A compound CSS selector: an element meeting every test. */
  type Selector = seq<Test>

  predicate Matches(n: Node, sel: Selector) {
    n.Element? && forall i :: 0 <= i < |sel| ==> Satisfies(n, sel[i])
  }

  /** `soup.select(sel)`: the matching elements in document order. */
  function SelectAll(ns: seq<Node>, sel: Selector): (r: seq<Node>)
    ensures forall i :: 0 <= i < |r| ==> Matches(r[i], sel)
  {
    Filter(Descendants(ns), n => Matches(n, sel))
  }

  /** `soup.select_one(sel)`: the first match in document order. */
  function SelectOne(ns: seq<Node>, sel: Selector): (r: Option<Node>)
    ensures r.Some? ==> Matches(r.value, sel)
  {
    var all := SelectAll(ns, sel);
    if all == [] then None else Some(all[0])
  }

  /** The position of the first selector of the chain that finds an element; the chain's length when none does. */
  function FirstHitIndex(ns: seq<Node>, chain: seq<Selector>): (k: nat)
    ensures k <= |chain|
    ensures forall j :: 0 <= j < k ==> SelectOne(ns, chain[j]).None?
    ensures k < |chain| ==> SelectOne(ns, chain[k]).Some?
    decreases |chain|
  {
    if chain == [] then 0
    else if SelectOne(ns, chain[0]).Some? then 0
    else
      var k := FirstHitIndex(ns, chain[1..]);
      assert forall j :: 1 <= j < |chain| ==> chain[j] == chain[1..][j - 1];
      k + 1
  }

  /**
   * The first selector of the chain that finds an element, with that element
   * (the "try each selector, break on the first hit" loops of the crawlers).
   */
  function FirstHit(ns: seq<Node>, chain: seq<Selector>): (r: Option<Node>)
    ensures r.Some? ==>
      exists i :: 0 <= i < |chain| && SelectOne(ns, chain[i]) == r && forall j :: 0 <= j < i ==> SelectOne(ns, chain[j]).None?
    ensures r.None? <==> forall i :: 0 <= i < |chain| ==> SelectOne(ns, chain[i]).None?
  {
    var k := FirstHitIndex(ns, chain);
    if k < |chain| then SelectOne(ns, chain[k]) else None
  }
}
