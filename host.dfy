/**
 * The live document that the renderer and the patcher mutate: the part of the
 * WHATWG DOM Standard that roko calls through web-sys.
 *
 * An `Element` keeps its element children in `children` (what the live
 * `children()` HTMLCollection of section 4.2.10.2 shows) and its text in `text`;
 * setting the text content replaces all children (the `textContent` setter of
 * section 4.4, interface Node). `Abs()` reads a well-formed element subtree as a
 * `Tree` value, which is what the render and patch semantics are stated on.
 */
module Host {
  import opened Wrappers

  /** The observable state of an element subtree. */
  datatype Tree<M> = Tree(tag: string, attrs: map<string, string>, onclick: Option<M>, text: string, kids: seq<Tree<M>>)

  /** A freshly created element: `document.createElement(tag)`. */
  function Blank<M>(tag: string): (r: Tree<M>)
    ensures r.tag == tag && r.attrs == map[] && r.onclick == None && r.text == "" && r.kids == []
  {
    Tree(tag, map[], None, "", [])
  }

  /** The `textContent` setter: the text becomes `s` and every child is removed. */
  function WithText<M>(t: Tree<M>, s: string): (r: Tree<M>)
    ensures r.text == s && r.kids == []
    ensures r.tag == t.tag && r.attrs == t.attrs && r.onclick == t.onclick
  {
    t.(text := s, kids := [])
  }

  /** The first position of `x` in `s`. */
  function IndexOf<T(==)>(s: seq<T>, x: T): (i: nat)
    requires x in s
    ensures i < |s| && s[i] == x && x !in s[..i]
  {
    if s[0] == x then 0 else 1 + IndexOf(s[1..], x)
  }

  /** An element that occurs nowhere else in `s` is found at its own position. */
  lemma IndexOfUnique<T>(s: seq<T>, i: nat)
    requires i < |s| && forall j :: 0 <= j < |s| && j != i ==> s[j] != s[i]
    ensures IndexOf(s, s[i]) == i
  {
    var k := IndexOf(s, s[i]);
    assert s[k] == s[i];
  }

  /** `s` without its element at position `i`. */
  function RemoveAt<T>(s: seq<T>, i: nat): (r: seq<T>)
    requires i < |s|
    ensures |r| == |s| - 1
    ensures forall k :: 0 <= k < i ==> r[k] == s[k]
    ensures forall k :: i <= k < |r| ==> r[k] == s[k + 1]
  {
    s[..i] + s[i + 1..]
  }

  class Element<M> {
    var tag: string
    var attrs: map<string, string>
    var onclick: Option<M>
    var text: string
    var children: seq<Element<M>>
    var parent: Element?<M>
    /** The objects of this subtree, including elements detached from it. */
    ghost var repr: set<Element<M>>

    /** The subtree is a tree: children have disjoint footprints and point back here. */
    ghost predicate Valid()
      reads this, repr
      decreases repr
    {
      && this in repr
      && (forall i :: 0 <= i < |children| ==>
            && children[i] in repr
            && children[i].repr <= repr
            && this !in children[i].repr
            && children[i].parent == this
            && children[i].Valid())
      && (forall i, j :: 0 <= i < j < |children| ==> children[i].repr !! children[j].repr)
    }

    /** The subtree as a value. */
    ghost function Abs(): Tree<M>
      reads this, repr
      requires Valid()
      decreases repr
    {
      Tree(tag, attrs, onclick, text,
           seq(|children|, i reads this, repr requires 0 <= i < |children| && Valid() => children[i].Abs()))
    }

    /** `document.createElement(tag)`. */
    constructor (tag: string)
      ensures Valid() && fresh(repr) && repr == {this}
      ensures this.tag == tag && children == [] && parent == null
      ensures Abs() == Blank(tag)
    {
      this.tag := tag;
      attrs := map[];
      onclick := None;
      text := "";
      children := [];
      parent := null;
      repr := {this};
    }

    /** `set_text_content(Some(s))`: the children are detached and the text becomes `s`. */
    method SetTextContent(s: string)
      requires Valid()
      modifies repr
      ensures Valid() && repr == old(repr) && parent == old(parent)
      ensures Abs() == WithText(old(Abs()), s)
      ensures forall c :: c in old(children) ==> c.parent == null
    {
      ghost var a := Abs();
      var detached := children;
      children := [];
      text := s;
      var i := 0;
      while i < |detached|
        invariant 0 <= i <= |detached|
        invariant forall k :: 0 <= k < |detached| ==> detached[k] in repr && detached[k] != this
        invariant Valid() && repr == old(repr) && parent == old(parent)
        invariant children == [] && text == s && tag == a.tag && attrs == a.attrs && onclick == a.onclick
        invariant forall k :: 0 <= k < i ==> detached[k].parent == null
      {
        detached[i].parent := null;
        i := i + 1;
      }
    }

    /** `append_child(c)` for an element that has no parent yet. */
    method AppendChild(c: Element<M>)
      requires Valid() && c.Valid() && c.parent == null && repr !! c.repr
      modifies this, c
      ensures Valid() && repr == old(repr) + c.repr
      ensures Abs() == old(Abs()).(kids := old(Abs()).kids + [old(c.Abs())])
      ensures children == old(children) + [c] && c.parent == this
      ensures parent == old(parent) && c.repr == old(c.repr) && c.Valid() && c.Abs() == old(c.Abs())
    {
      ghost var a := Abs();
      ghost var ca := c.Abs();
      children := children + [c];
      c.parent := this;
      repr := repr + c.repr;
      forall i | 0 <= i < |children| - 1
        ensures children[i].Valid() && children[i].Abs() == a.kids[i]
      {
        assert children[i] == old(children[i]);
        assert this !in children[i].repr && c !in children[i].repr;
      }
      assert Valid();
      assert children[|children| - 1].Abs() == ca;
      assert Abs().kids == a.kids + [ca];
    }

    /** `replace_with(n)`: `n` takes this element's place in its parent; without a parent nothing happens. */
    method ReplaceWith(n: Element<M>)
      requires Valid() && n.Valid() && n.parent == null && repr !! n.repr
      requires parent != null ==> this in parent.children && parent !in repr && parent !in n.repr
      modifies this`parent, n`parent, (if parent == null then {} else {parent})`children
      ensures parent == null && Valid() && Abs() == old(Abs())
      ensures n.Valid() && n.Abs() == old(n.Abs())
      ensures old(parent) == null ==> n.parent == null
      ensures old(parent) != null ==>
        n.parent == old(parent) &&
        old(parent).children == old(parent.children)[IndexOf(old(parent.children), this) := n]
    {
      ghost var a := Abs();
      ghost var na := n.Abs();
      if parent != null {
        var p := parent;
        var i := IndexOf(p.children, this);
        p.children := p.children[i := n];
        n.parent := p;
        parent := null;
      }
      assert Abs().kids == a.kids;
      assert n.Abs().kids == na.kids;
    }

    /** `remove()`: this element leaves its parent's children; without a parent nothing happens. */
    method Remove()
      requires Valid()
      requires parent != null ==> this in parent.children && parent !in repr
      modifies this`parent, (if parent == null then {} else {parent})`children
      ensures parent == null && Valid() && Abs() == old(Abs())
      ensures old(parent) != null ==>
        old(parent).children == RemoveAt(old(parent.children), IndexOf(old(parent.children), this))
    {
      ghost var a := Abs();
      if parent != null {
        var p := parent;
        p.children := RemoveAt(p.children, IndexOf(p.children, this));
        parent := null;
      }
      assert Abs().kids == a.kids;
    }

    /** Children are distinct, so a child is found at its own position. */
    lemma ChildIndex(i: nat)
      requires Valid() && i < |children|
      ensures IndexOf(children, children[i]) == i
    {
      assert forall j :: 0 <= j < |children| && j != i ==> children[j] != children[i] by {
        forall j | 0 <= j < |children| && j != i
          ensures children[j] != children[i]
        {
          assert children[j] in children[j].repr && children[i] in children[i].repr;
        }
      }
    }

    /** `set_attribute(name, value)`. */
    method SetAttribute(name: string, value: string)
      requires Valid()
      modifies this`attrs
      ensures Valid() && Abs() == old(Abs()).(attrs := old(attrs)[name := value])
    {
      ghost var a := Abs();
      attrs := attrs[name := value];
      assert Abs().kids == a.kids;
    }

    /** `set_onclick(handler)`: the click handler, as the message it sends. */
    method SetOnclick(handler: Option<M>)
      requires Valid()
      modifies this`onclick
      ensures Valid() && Abs() == old(Abs()).(onclick := handler)
    {
      ghost var a := Abs();
      onclick := handler;
      assert Abs().kids == a.kids;
    }
  }

  /** The footprint of an element, if there is one. */
  ghost function Footprint<M>(e: Element?<M>): set<Element<M>>
    reads e
  {
    if e == null then {} else e.repr
  }

  /**
   * A parent whose children other than the one at `i` are well-formed, in
   * place, and apart from each other and from `grown`, with subtrees `kids`.
   */
  ghost predicate SiblingsStand<M>(parent: Element<M>, before: seq<Element<M>>, i: nat, kids: seq<Tree<M>>, grown: set<Element<M>>)
    reads parent, set j | 0 <= j < |before| :: before[j], set j, o | 0 <= j < |before| && o in before[j].repr :: o
  {
    && |before| == |kids| && i < |before| && parent in parent.repr
    && (forall j :: 0 <= j < |before| && j != i ==>
          && before[j].Valid() && before[j].Abs() == kids[j] && before[j].parent == parent
          && parent !in before[j].repr && before[j].repr <= parent.repr && before[j].repr !! grown)
    && (forall j, k :: 0 <= j < k < |before| && j != i && k != i ==> before[j].repr !! before[k].repr)
  }

  /**
   * Only the subtree of the child at `i` and the parent's own fields changed
   * between two states, and `grown` holds only the child's old elements and
   * fresh ones: the other children still stand in the parent.
   */
  twostate lemma SiblingsKept<M>(parent: Element<M>, new i: nat, new grown: set<Element<M>>)
    requires old(parent.Valid()) && i < |old(parent.children)|
    requires forall o :: o in old(parent.repr) && o !in old(parent.children[i].repr) && o != parent ==> unchanged(o)
    requires old(parent.repr) <= parent.repr
    requires fresh(grown - old(parent.children[i].repr))
    ensures SiblingsStand(parent, old(parent.children), i, old(parent.Abs()).kids, grown)
  {
    var before := old(parent.children);
    forall j | 0 <= j < |before| && j != i
      ensures before[j].Valid() && before[j].repr == old(before[j].repr) && before[j].Abs() == old(before[j].Abs())
      ensures before[j].repr !! grown
    {
      var lo, hi := if j < i then j else i, if j < i then i else j;
      assert old(before[lo].repr !! before[hi].repr);
    }
  }

  /** The child at `i` keeps its place: the parent is well-formed with the child's new subtree. */
  lemma ReseatKept<M>(parent: Element<M>, before: seq<Element<M>>, i: nat, kids: seq<Tree<M>>, grown: set<Element<M>>)
    requires SiblingsStand(parent, before, i, kids, grown) && parent.children == before
    requires before[i].Valid() && before[i].parent == parent && parent !in before[i].repr
    requires before[i].repr <= grown <= parent.repr
    ensures parent.Valid()
    ensures parent.Abs() == Tree(parent.tag, parent.attrs, parent.onclick, parent.text, kids[i := before[i].Abs()])
  {
    assert parent.Valid();
    assert parent.Abs().kids == kids[i := before[i].Abs()];
  }

  /** The child at `i` left: the parent is well-formed without it. */
  lemma ReseatRemoved<M>(parent: Element<M>, before: seq<Element<M>>, i: nat, kids: seq<Tree<M>>, grown: set<Element<M>>)
    requires SiblingsStand(parent, before, i, kids, grown) && parent.children == RemoveAt(before, i)
    ensures parent.Valid()
    ensures parent.Abs() == Tree(parent.tag, parent.attrs, parent.onclick, parent.text, RemoveAt(kids, i))
  {
    assert parent.Valid();
    assert parent.Abs().kids == RemoveAt(kids, i);
  }

  /** The child at `i` gave its place to `swap`: the parent is well-formed with `swap`'s subtree there. */
  lemma ReseatSwapped<M>(parent: Element<M>, before: seq<Element<M>>, i: nat, kids: seq<Tree<M>>, grown: set<Element<M>>, swap: Element<M>)
    requires SiblingsStand(parent, before, i, kids, grown) && parent.children == before[i := swap]
    requires swap.Valid() && swap.parent == parent && parent !in swap.repr && swap.repr <= grown <= parent.repr
    ensures parent.Valid()
    ensures parent.Abs() == Tree(parent.tag, parent.attrs, parent.onclick, parent.text, kids[i := swap.Abs()])
  {
    assert parent.Valid();
    assert parent.Abs().kids == kids[i := swap.Abs()];
  }
}
