/**
 * An abstract page: the question containers of a Google Form (the elements carrying the
 * class `Qr7Oae`), each flattened into its elements in document order. Selector matching,
 * `querySelector`, `querySelectorAll`, `closest`, `parentElement` and `children` become
 * functions over that list; `document.getElementById` becomes a table from ids to text.
 */
module Dom {
  import opened Wrappers

  /**
   * One element: its tag name, classes, attributes, its text (what `innerText` or
   * `textContent` would give, untrimmed) and the index of its parent element.
   */
  datatype Elem = Elem(tag: string, classes: set<string>, attrs: map<string, string>, text: string, parent: nat)

  /**
   * A question container in document order. Element 0 is the container itself; every other
   * element's `parent` is an earlier index (an element whose parent index is not earlier is
   * detached and no query finds it).
   */
  type Container = c: seq<Elem> | |c| > 0 witness [Elem("div", {}, map[], "", 0)]

  /** The document: its question containers and, per element id, that element's text. */
  datatype Page = Page(containers: seq<Container>, byId: map<string, string>)

  /** getAttribute, with an absent attribute read as the empty string. */
  function Attr(e: Elem, name: string): string {
    if name in e.attrs then e.attrs[name] else ""
  }

  /** The simple selectors the extension uses (Any is `*`, Both is a compound selector). */
  datatype Sel =
    | Any
    | Tag(name: string)
    | AttrIs(attr: string, value: string)
    | HasAttr(attr: string)
    | Class(cls: string)
    | Both(left: Sel, right: Sel)

  /** `[role="r"]`. */
  function Role(r: string): Sel {
    AttrIs("role", r)
  }

  predicate Matches(e: Elem, s: Sel) {
    match s
    case Any => true
    case Tag(name) => e.tag == name
    case AttrIs(attr, value) => attr in e.attrs && e.attrs[attr] == value
    case HasAttr(attr) => attr in e.attrs
    case Class(cls) => cls in e.classes
    case Both(left, right) => Matches(e, left) && Matches(e, right)
  }

  /** A selector list `s1, s2, ...` matches an element when one of its selectors does. */
  predicate MatchesAny(e: Elem, sels: seq<Sel>) {
    exists k :: 0 <= k < |sels| && Matches(e, sels[k])
  }

  /** The parent of element `j`, when it has one inside the container. */
  function Parent(c: Container, j: nat): (r: Option<nat>)
    ensures r.Some? ==> r.value < j < |c|
  {
    if 0 < j < |c| && c[j].parent < j then Some(c[j].parent) else None
  }

  /** `a` is a proper ancestor of element `j`. */
  predicate IsAncestor(c: Container, a: nat, j: nat)
    decreases j
  {
    Parent(c, j).Some? && (Parent(c, j).value == a || IsAncestor(c, a, Parent(c, j).value))
  }

  lemma {:induction false} AncestorBefore(c: Container, a: nat, j: nat)
    requires IsAncestor(c, a, j)
    ensures a < j < |c|
    decreases j
  {
    if Parent(c, j).value != a {
      AncestorBefore(c, a, Parent(c, j).value);
    }
  }

  /** The elements `a < j < n` below `a` that match `sels`, in document order. */
  function QueryUpTo(c: Container, a: nat, sels: seq<Sel>, n: nat): (r: seq<nat>)
    requires n <= |c|
    ensures forall k :: 0 <= k < |r| ==> r[k] < n
  {
    if n == 0 then []
    else
      var r := QueryUpTo(c, a, sels, n - 1);
      if IsAncestor(c, a, n - 1) && MatchesAny(c[n - 1], sels) then r + [n - 1] else r
  }

  /** `querySelectorAll(sels)` on element `a`: its matching descendants in document order. */
  function QueryAll(c: Container, a: nat, sels: seq<Sel>): (r: seq<nat>)
    ensures forall k :: 0 <= k < |r| ==> r[k] < |c|
  {
    QueryUpTo(c, a, sels, |c|)
  }

  lemma {:induction false} QueryUpToSpec(c: Container, a: nat, sels: seq<Sel>, n: nat)
    requires n <= |c|
    ensures forall k :: 0 <= k < |QueryUpTo(c, a, sels, n)| ==>
      IsAncestor(c, a, QueryUpTo(c, a, sels, n)[k]) && MatchesAny(c[QueryUpTo(c, a, sels, n)[k]], sels)
    ensures forall j :: 0 <= j < n && IsAncestor(c, a, j) && MatchesAny(c[j], sels) ==> j in QueryUpTo(c, a, sels, n)
    ensures forall k, l :: 0 <= k < l < |QueryUpTo(c, a, sels, n)| ==> QueryUpTo(c, a, sels, n)[k] < QueryUpTo(c, a, sels, n)[l]
  {
    if n > 0 {
      QueryUpToSpec(c, a, sels, n - 1);
    }
  }

  /**
   * querySelectorAll finds exactly the matching descendants of `a`, each once, in document order.
   */
  lemma QueryAllSpec(c: Container, a: nat, sels: seq<Sel>)
    ensures forall k :: 0 <= k < |QueryAll(c, a, sels)| ==>
      IsAncestor(c, a, QueryAll(c, a, sels)[k]) && MatchesAny(c[QueryAll(c, a, sels)[k]], sels)
    ensures forall j :: 0 <= j < |c| && IsAncestor(c, a, j) && MatchesAny(c[j], sels) ==> j in QueryAll(c, a, sels)
    ensures forall k, l :: 0 <= k < l < |QueryAll(c, a, sels)| ==> QueryAll(c, a, sels)[k] < QueryAll(c, a, sels)[l]
  {
    QueryUpToSpec(c, a, sels, |c|);
  }

  /**
   * querySelector finds the first matching descendant in document order when there is one,
   * and none otherwise.
   */
  lemma QuerySpec(c: Container, a: nat, sels: seq<Sel>)
    ensures Query(c, a, sels).Some? ==>
      IsAncestor(c, a, Query(c, a, sels).value) && MatchesAny(c[Query(c, a, sels).value], sels)
    ensures Query(c, a, sels).Some? ==>
      forall j :: 0 <= j < Query(c, a, sels).value && IsAncestor(c, a, j) ==> !MatchesAny(c[j], sels)
    ensures Query(c, a, sels).None? ==> forall j :: 0 <= j < |c| && IsAncestor(c, a, j) ==> !MatchesAny(c[j], sels)
  {
    QueryAllSpec(c, a, sels);
  }

  /** `querySelector(sels)` on element `a`: its first matching descendant. */
  function Query(c: Container, a: nat, sels: seq<Sel>): (r: Option<nat>)
    ensures r.Some? ==> r.value < |c|
  {
    var all := QueryAll(c, a, sels);
    if all == [] then None else Some(all[0])
  }

  /** `closest(sels)` on element `j`: `j` itself or its nearest matching ancestor. */
  function Closest(c: Container, j: nat, sels: seq<Sel>): (r: Option<nat>)
    requires j < |c|
    ensures r.Some? ==> r.value < |c| && MatchesAny(c[r.value], sels)
    decreases j
  {
    if MatchesAny(c[j], sels) then Some(j)
    else match Parent(c, j)
      case Some(p) => Closest(c, p, sels)
      case None => None
  }

  /**
   * closest returns `j` when `j` matches and otherwise its nearest matching ancestor: no
   * element strictly between the result and `j` on the path to the root matches, and when
   * there is no result nothing on that path matches.
   */
  lemma {:induction false} ClosestSpec(c: Container, j: nat, sels: seq<Sel>)
    requires j < |c|
    ensures Closest(c, j, sels).Some? ==>
      (Closest(c, j, sels).value == j || IsAncestor(c, Closest(c, j, sels).value, j))
    ensures Closest(c, j, sels).Some? && Closest(c, j, sels).value != j ==> !MatchesAny(c[j], sels)
    ensures Closest(c, j, sels).Some? ==>
      forall a: nat :: Closest(c, j, sels).value < a < |c| && IsAncestor(c, a, j) ==> !MatchesAny(c[a], sels)
    ensures Closest(c, j, sels).None? ==>
      !MatchesAny(c[j], sels) && forall a: nat :: a < |c| && IsAncestor(c, a, j) ==> !MatchesAny(c[a], sels)
    decreases j
  {
    if !MatchesAny(c[j], sels) && Parent(c, j).Some? {
      var p := Parent(c, j).value;
      ClosestSpec(c, p, sels);
      assert Closest(c, j, sels) == Closest(c, p, sels);
      forall a: nat | IsAncestor(c, a, j) && a != p
        ensures IsAncestor(c, a, p) && a < p
      {
        AncestorBefore(c, a, p);
      }
      if Closest(c, p, sels).Some? && Closest(c, p, sels).value != p {
        AncestorBefore(c, Closest(c, p, sels).value, p);
      }
    } else {
      forall a: nat | IsAncestor(c, a, j)
        ensures a < j
      {
        AncestorBefore(c, a, j);
      }
    }
  }

  /** The children of element `p` with index below `n`, in document order. */
  function ChildrenUpTo(c: Container, p: nat, n: nat): (r: seq<nat>)
    requires n <= |c|
    ensures forall k :: 0 <= k < |r| ==> r[k] < n && Parent(c, r[k]) == Some(p)
  {
    if n == 0 then []
    else
      var r := ChildrenUpTo(c, p, n - 1);
      if Parent(c, n - 1) == Some(p) then r + [n - 1] else r
  }

  lemma {:induction false} ChildrenUpToSpec(c: Container, p: nat, n: nat)
    requires n <= |c|
    ensures forall j :: 0 <= j < n && Parent(c, j) == Some(p) ==> j in ChildrenUpTo(c, p, n)
    ensures forall k, l :: 0 <= k < l < |ChildrenUpTo(c, p, n)| ==> ChildrenUpTo(c, p, n)[k] < ChildrenUpTo(c, p, n)[l]
  {
    if n > 0 {
      ChildrenUpToSpec(c, p, n - 1);
    }
  }

  /** `children` of element `p`, in document order. */
  function Children(c: Container, p: nat): (r: seq<nat>)
    ensures forall k :: 0 <= k < |r| ==> r[k] < |c| && Parent(c, r[k]) == Some(p)
  {
    ChildrenUpTo(c, p, |c|)
  }

  /** `children` lists every child of `p`, each once, in document order. */
  lemma ChildrenSpec(c: Container, p: nat)
    ensures forall j :: 0 <= j < |c| && Parent(c, j) == Some(p) ==> j in Children(c, p)
    ensures forall k, l :: 0 <= k < l < |Children(c, p)| ==> Children(c, p)[k] < Children(c, p)[l]
  {
    ChildrenUpToSpec(c, p, |c|);
  }
}
