/** The document tree the HTML library yields, and the lookups the converter
    makes on it: `.text`, `.string`, `.children`, `find`, `find_all`, and
    their `recursive=False` forms. */
module Html {
  import opened Wrappers

  /** A node of the parsed document: a string node, or an element with its
      tag name, its class list, its `id` attribute (`""` when it has none)
      and its children in document order. */
  datatype Node =
    | Text(text: string)
    | Elem(name: string, classes: seq<string>, id: string, children: seq<Node>)

  /** The element's children; a string node has none. */
  function Children(n: Node): seq<Node>
  {
    match n
    case Text(_) => []
    case Elem(_, _, _, cs) => cs
  }

  /** `n` is an element with tag name `name`. */
  predicate IsElement(n: Node, name: string)
  {
    n.Elem? && n.name == name
  }

  /** `.text`: the string nodes below `n`, concatenated in document order. */
  function TextOf(n: Node): string
  {
    match n
    case Text(s) => s
    case Elem(_, _, _, cs) => TextOfAll(cs)
  }

  function TextOfAll(cs: seq<Node>): string
  {
    if cs == [] then "" else TextOfAll(cs[..|cs| - 1]) + TextOf(cs[|cs| - 1])
  }

  /** `.string`: the one string reached through a chain of only children, or
      nothing when some element on the way has zero or several children. */
  function StringOf(n: Node): Option<string>
  {
    match n
    case Text(s) => Some(s)
    case Elem(_, _, _, cs) => if |cs| == 1 then StringOf(cs[0]) else None
  }

  /** When `.string` exists it is the whole `.text`. */
  lemma {:induction false} StringOfIsText(n: Node)
    requires StringOf(n).Some?
    ensures StringOf(n).value == TextOf(n)
  {
    match n
    case Text(_) =>
    case Elem(_, _, _, cs) =>
      StringOfIsText(cs[0]);
      assert cs[..|cs| - 1] == [];
      assert TextOfAll(cs) == TextOfAll([]) + TextOf(cs[0]);
  }

  /** The strict descendants of `n` in document order (pre-order). */
  function Descendants(n: Node): seq<Node>
  {
    match n
    case Text(_) => []
    case Elem(_, _, _, cs) => DescendantsAll(cs)
  }

  function DescendantsAll(cs: seq<Node>): seq<Node>
  {
    if cs == [] then [] else [cs[0]] + Descendants(cs[0]) + DescendantsAll(cs[1..])
  }

  /** The elements of `s` that satisfy `p`, in order. */
  function Filter(s: seq<Node>, p: Node -> bool): (r: seq<Node>)
    ensures forall x :: x in r ==> x in s && p(x)
    ensures forall x :: x in s && p(x) ==> x in r
  {
    if s == [] then [] else (if p(s[0]) then [s[0]] else []) + Filter(s[1..], p)
  }

  lemma {:induction false} FilterAppend(a: seq<Node>, b: seq<Node>, p: Node -> bool)
    ensures Filter(a + b, p) == Filter(a, p) + Filter(b, p)
  {
    if a != [] {
      assert (a + b)[1..] == a[1..] + b;
      FilterAppend(a[1..], b, p);
    } else {
      assert a + b == b;
    }
  }

  /** `find_all(...)`: every strict descendant of `n` accepted by `p`, in
      document order. */
  function FindAll(n: Node, p: Node -> bool): (r: seq<Node>)
    ensures forall i :: 0 <= i < |r| ==> p(r[i])
  {
    match n
    case Text(_) => []
    case Elem(_, _, _, cs) => FindAllIn(cs, p)
  }

  function FindAllIn(cs: seq<Node>, p: Node -> bool): (r: seq<Node>)
    ensures forall i :: 0 <= i < |r| ==> p(r[i])
  {
    if cs == [] then []
    else (if p(cs[0]) then [cs[0]] else []) + FindAll(cs[0], p) + FindAllIn(cs[1..], p)
  }

  /** `find(...)`: the first strict descendant of `n` in document order that
      `p` accepts, or nothing. */
  function Find(n: Node, p: Node -> bool): (r: Option<Node>)
    ensures r.Some? ==> p(r.value)
  {
    match n
    case Text(_) => None
    case Elem(_, _, _, cs) => FindIn(cs, p)
  }

  function FindIn(cs: seq<Node>, p: Node -> bool): (r: Option<Node>)
    ensures r.Some? ==> p(r.value)
  {
    if cs == [] then None
    else if p(cs[0]) then Some(cs[0])
    else match Find(cs[0], p)
      case Some(x) => Some(x)
      case None => FindIn(cs[1..], p)
  }

  /** `find_all` is the descendants filtered by the query. */
  lemma {:induction false} FindAllIsFilter(n: Node, p: Node -> bool)
    ensures FindAll(n, p) == Filter(Descendants(n), p)
  {
    match n
    case Text(_) =>
    case Elem(_, _, _, cs) => FindAllInIsFilter(cs, p);
  }

  lemma {:induction false} FindAllInIsFilter(cs: seq<Node>, p: Node -> bool)
    ensures FindAllIn(cs, p) == Filter(DescendantsAll(cs), p)
  {
    if cs != [] {
      FindAllIsFilter(cs[0], p);
      FindAllInIsFilter(cs[1..], p);
      FilterAppend([cs[0]] + Descendants(cs[0]), DescendantsAll(cs[1..]), p);
      FilterAppend([cs[0]], Descendants(cs[0]), p);
      assert Filter([cs[0]], p) == if p(cs[0]) then [cs[0]] else [];
    }
  }

  /** `find` gives the first `find_all` result, and nothing exactly when
      `find_all` finds nothing. */
  lemma {:induction false} FindIsFirstOfFindAll(n: Node, p: Node -> bool)
    ensures Find(n, p) == if FindAll(n, p) == [] then None else Some(FindAll(n, p)[0])
  {
    match n
    case Text(_) =>
    case Elem(_, _, _, cs) => FindInIsFirst(cs, p);
  }

  lemma {:induction false} FindInIsFirst(cs: seq<Node>, p: Node -> bool)
    ensures FindIn(cs, p) == if FindAllIn(cs, p) == [] then None else Some(FindAllIn(cs, p)[0])
  {
    if cs != [] {
      FindIsFirstOfFindAll(cs[0], p);
      FindInIsFirst(cs[1..], p);
    }
  }

  /** `find(..., recursive=False)` over a child list: the first child that is
      an element named `name`. */
  function FirstNamed(cs: seq<Node>, name: string): (r: Option<Node>)
    ensures r.Some? ==> r.value in cs && IsElement(r.value, name)
    ensures r.Some? ==> exists i :: 0 <= i < |cs| && cs[i] == r.value && forall j :: 0 <= j < i ==> !IsElement(cs[j], name)
    ensures r.None? <==> forall c :: c in cs ==> !IsElement(c, name)
  {
    if cs == [] then None
    else if IsElement(cs[0], name) then Some(cs[0])
    else FirstNamed(cs[1..], name)
  }

  /** Children added after a match do not change which child is found first. */
  lemma {:induction false} FirstNamedAppend(cs: seq<Node>, more: seq<Node>, name: string)
    requires FirstNamed(cs, name).Some?
    ensures FirstNamed(cs + more, name) == FirstNamed(cs, name)
  {
    assert (cs + more)[0] == cs[0];
    if !IsElement(cs[0], name) {
      assert (cs + more)[1..] == cs[1..] + more;
      FirstNamedAppend(cs[1..], more, name);
    }
  }
}
