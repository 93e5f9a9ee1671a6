/**
 The parsed HTML document, as the extractor sees it: an immutable tree of
 tagged elements, and the handful of BeautifulSoup queries the extractor
 makes on it (`find`, `find_all`, `.text`, `.get('href')`).
 */
module HtmlTree {

  datatype Option<T> = None | Some(value: T)

  /** One element: its tag name, its class tokens, its other attributes, the
      text it holds directly and its child elements in document order. The
      document itself is a `Node` too (BeautifulSoup's root object); every
      query below searches the descendants of the node it is asked on, never
      the node itself. */
  datatype Node = Node(
    tag: string,
    classes: seq<string>,
    attrs: map<string, string>,
    text: string,
    children: seq<Node>)

  /** What a query looks for: one of a set of tag names (`find_all(['div',
      'article'])`), or a class token (`find_all(class_='card')`). */
  datatype Matcher = Tags(names: set<string>) | HasClass(name: string)

  predicate Matches(m: Matcher, n: Node)
  {
    match m
    case Tags(names) => n.tag in names
    case HasClass(c) => c in n.classes
  }

  /** `.text`: the node's own text followed by the text of its children, in
      document order. A text run between or after child elements is a leaf
      child with tag `""`, no classes and no attributes, which none of the
      parser's queries matches. */
  function TextOf(n: Node): string
    decreases n, 1
  {
    n.text + TextOfAll(n.children)
  }

  function TextOfAll(ns: seq<Node>): string
    decreases ns, 0
  {
    if ns == [] then "" else TextOf(ns[0]) + TextOfAll(ns[1..])
  }

  /** `.get('href')`: the attribute's value, or nothing when it is absent. */
  function Href(n: Node): Option<string>
  {
    if "href" in n.attrs then Some(n.attrs["href"]) else None
  }

  /** All descendants of `n` in document order (pre-order, depth first),
      `n` itself excluded: the reference order for the queries below. */
  function Descendants(n: Node): seq<Node>
    decreases n, 1
  {
    DescendantsOfAll(n.children)
  }

  function DescendantsOfAll(ns: seq<Node>): seq<Node>
    decreases ns, 0
  {
    if ns == [] then [] else [ns[0]] + Descendants(ns[0]) + DescendantsOfAll(ns[1..])
  }

  /** The elements of `xs` that `m` matches, in their order. */
  function Filter(xs: seq<Node>, m: Matcher): (r: seq<Node>)
    ensures |r| <= |xs|
  {
    if xs == [] then []
    else (if Matches(m, xs[0]) then [xs[0]] else []) + Filter(xs[1..], m)
  }

  /** `n.find_all(m)`: every matching descendant, in document order. */
  function FindAll(n: Node, m: Matcher): (r: seq<Node>)
    ensures forall x :: x in r ==> Matches(m, x)
    decreases n, 1
  {
    FindAllOfAll(n.children, m)
  }

  function FindAllOfAll(ns: seq<Node>, m: Matcher): (r: seq<Node>)
    ensures forall x :: x in r ==> Matches(m, x)
    decreases ns, 0
  {
    if ns == [] then []
    else (if Matches(m, ns[0]) then [ns[0]] else []) + FindAll(ns[0], m) + FindAllOfAll(ns[1..], m)
  }

  /** `n.find(m)`: the first matching descendant, if there is one. */
  function Find(n: Node, m: Matcher): (r: Option<Node>)
    ensures r.Some? ==> Matches(m, r.value)
    decreases n, 1
  {
    FindInAll(n.children, m)
  }

  function FindInAll(ns: seq<Node>, m: Matcher): (r: Option<Node>)
    ensures r.Some? ==> Matches(m, r.value)
    decreases ns, 0
  {
    if ns == [] then None
    else if Matches(m, ns[0]) then Some(ns[0])
    else match Find(ns[0], m)
      case Some(d) => Some(d)
      case None => FindInAll(ns[1..], m)
  }

  /** `Filter` keeps exactly the matching elements. */
  lemma {:induction false} FilterSelects(xs: seq<Node>, m: Matcher)
    ensures forall x :: x in Filter(xs, m) ==> x in xs && Matches(m, x)
    ensures forall x :: x in xs && Matches(m, x) ==> x in Filter(xs, m)
  {
    if xs != [] {
      FilterSelects(xs[1..], m);
      assert forall x :: x in xs ==> x == xs[0] || x in xs[1..];
    }
  }

  lemma {:induction false} FilterConcat(xs: seq<Node>, ys: seq<Node>, m: Matcher)
    ensures Filter(xs + ys, m) == Filter(xs, m) + Filter(ys, m)
  {
    if xs == [] {
      assert xs + ys == ys;
    } else {
      var t := xs[1..];
      assert xs == [xs[0]] + t;
      assert xs + ys == [xs[0]] + (t + ys);
      FilterConcat(t, ys, m);
      FilterCons(xs[0], t + ys, m);
      FilterCons(xs[0], t, m);
    }
  }

  lemma FilterCons(x: Node, ys: seq<Node>, m: Matcher)
    ensures Filter([x] + ys, m) == (if Matches(m, x) then [x] else []) + Filter(ys, m)
  {
    assert ([x] + ys)[0] == x && ([x] + ys)[1..] == ys;
  }

  /** `find_all` returns exactly the matching descendants, in document
      order. */
  lemma {:induction false} FindAllIsFilteredDescendants(n: Node, m: Matcher)
    ensures FindAll(n, m) == Filter(Descendants(n), m)
    decreases n, 1
  {
    FindAllOfAllIsFiltered(n.children, m);
  }

  lemma {:induction false} FindAllOfAllIsFiltered(ns: seq<Node>, m: Matcher)
    ensures FindAllOfAll(ns, m) == Filter(DescendantsOfAll(ns), m)
    decreases ns, 0
  {
    if ns != [] {
      var below := Descendants(ns[0]);
      var rest := DescendantsOfAll(ns[1..]);
      FindAllIsFilteredDescendants(ns[0], m);
      FindAllOfAllIsFiltered(ns[1..], m);
      FilterConcat(below, rest, m);
      FilterCons(ns[0], below + rest, m);
      assert DescendantsOfAll(ns) == [ns[0]] + (below + rest);
    }
  }

  /** `find` is the first element of `find_all`, and finds nothing exactly
      when `find_all` is empty. */
  lemma {:induction false} FindIsFirstOfFindAll(n: Node, m: Matcher)
    ensures Find(n, m) == if FindAll(n, m) == [] then None else Some(FindAll(n, m)[0])
    decreases n, 1
  {
    FindInAllIsFirst(n.children, m);
  }

  lemma {:induction false} FindInAllIsFirst(ns: seq<Node>, m: Matcher)
    ensures FindInAll(ns, m) == if FindAllOfAll(ns, m) == [] then None else Some(FindAllOfAll(ns, m)[0])
    decreases ns, 0
  {
    if ns != [] && !Matches(m, ns[0]) {
      FindIsFirstOfFindAll(ns[0], m);
      FindInAllIsFirst(ns[1..], m);
      assert FindAllOfAll(ns, m) == FindAll(ns[0], m) + FindAllOfAll(ns[1..], m);
    }
  }
}
