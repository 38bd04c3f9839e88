/**
 * The renderer (crates/roko-dom/src/render.rs): builds live elements from a
 * virtual document.
 *
 * The effect of rendering is first stated on `Tree` values (`AttrOnto`,
 * `ChildOnto`, `Rendered`); the methods that mutate the live document are
 * proved to produce exactly those values.
 */
module DomRender {
  import opened Wrappers
  import opened RokoHtml
  import opened Host

  /**
   * What the renderer and the patcher share: the message channel (a FIFO, in
   * order of sending), whether an `on_mount` hook is installed, and the keys
   * that hook has been called with so far.
   */
  class Context<M> {
    var channel: seq<M>
    const onMount: bool
    var hooked: seq<string>

    constructor (onMount: bool)
      ensures channel == [] && this.onMount == onMount && hooked == []
    {
      channel := [];
      this.onMount := onMount;
      hooked := [];
    }

    /** A call of the `on_mount` hook, as the key it receives. */
    method CallOnMount(key: string)
      modifies this`hooked
      ensures hooked == old(hooked) + [key]
    {
      hooked := hooked + [key];
    }

    /** Taking the oldest message off the channel. */
    method Receive() returns (m: M)
      requires channel != []
      modifies this`channel
      ensures m == old(channel[0]) && channel == old(channel[1..])
    {
      m := channel[0];
      channel := channel[1..];
    }

    /** The synchronous push that a click handler makes onto the channel. */
    method Send(m: M)
      modifies this`channel
      ensures channel == old(channel) + [m]
    {
      channel := channel + [m];
    }
  }

  // ----- the value semantics of rendering -----

  /** The render snapshot has arms only for `OnClick` and `Custom`. */
  predicate Renderable<M>(a: Attribute<M>) {
    a.OnClick? || a.Custom?
  }

  predicate RenderableHtml<M>(h: Html<M>) {
    match h
    case Text(_) => true
    case Node(_, _, attributes, children) =>
      && (forall i :: 0 <= i < |attributes| ==> Renderable(attributes[i]))
      && (forall i :: 0 <= i < |children| ==> RenderableHtml(children[i]))
  }

  /** The effect of rendering one attribute onto an element. */
  function AttrOnto<M>(t: Tree<M>, a: Attribute<M>): (r: Tree<M>)
    requires Renderable(a)
    ensures r.tag == t.tag && r.text == t.text && r.kids == t.kids
    ensures a.OnClick? ==> r.attrs == t.attrs && r.onclick == Some(a.click)
    ensures a.Custom? ==> r.attrs == t.attrs[a.name := a.value] && r.onclick == t.onclick
  {
    match a
    case OnClick(m) => t.(onclick := Some(m))
    case Custom(n, v) => t.(attrs := t.attrs[n := v])
  }

  /** The effect of rendering a list of attributes, in list order. */
  function AttrsOnto<M>(t: Tree<M>, attributes: seq<Attribute<M>>): (r: Tree<M>)
    requires forall i :: 0 <= i < |attributes| ==> Renderable(attributes[i])
    ensures r.tag == t.tag && r.text == t.text && r.kids == t.kids
    decreases |attributes|
  {
    if attributes == [] then t
    else
      var k := |attributes| - 1;
      AttrOnto(AttrsOnto(t, attributes[..k]), attributes[k])
  }

  /** The rendered element of a node: a blank element with the attributes, then the children, applied in order. */
  function Rendered<M>(h: Html<M>): (r: Tree<M>)
    requires h.Node? && RenderableHtml(h)
    ensures r.tag == h.tag
    decreases h, 0
  {
    ChildrenOnto(AttrsOnto(Blank(h.tag), h.attributes), h.children)
  }

  /** The effect of rendering children into an element, in order. */
  function ChildrenOnto<M>(t: Tree<M>, children: seq<Html<M>>): (r: Tree<M>)
    requires forall i :: 0 <= i < |children| ==> RenderableHtml(children[i])
    ensures r.tag == t.tag && r.attrs == t.attrs && r.onclick == t.onclick
    decreases children, 1
  {
    if children == [] then t
    else
      var k := |children| - 1;
      ChildOnto(ChildrenOnto(t, children[..k]), children[k])
  }

  /**
   * The effect of rendering one child into an element: a text child sets the
   * element's text content, a node child's element is appended.
   */
  function ChildOnto<M>(t: Tree<M>, child: Html<M>): (r: Tree<M>)
    requires RenderableHtml(child)
    ensures r.tag == t.tag && r.attrs == t.attrs && r.onclick == t.onclick
    ensures child.Text? ==> r == WithText(t, child.text)
    ensures child.Node? ==> r.text == t.text && |r.kids| == |t.kids| + 1 && r.kids[..|t.kids|] == t.kids
    decreases child, 2
  {
    match child
    case Text(s) => WithText(t, s)
    case Node(_, _, _, _) => t.(kids := t.kids + [Rendered(child)])
  }

  /** A node whose children are all nodes renders to an element with one child per virtual child. */
  lemma {:induction false} ChildrenOntoCount<M>(t: Tree<M>, children: seq<Html<M>>)
    requires forall i :: 0 <= i < |children| ==> RenderableHtml(children[i]) && children[i].Node?
    ensures |ChildrenOnto(t, children).kids| == |t.kids| + |children|
    ensures ChildrenOnto(t, children).kids[..|t.kids|] == t.kids
    ensures forall i :: 0 <= i < |children| ==> ChildrenOnto(t, children).kids[|t.kids| + i] == Rendered(children[i])
    decreases |children|
  {
    if children != [] {
      var k := |children| - 1;
      ChildrenOntoCount(t, children[..k]);
    }
  }

  // ----- the renderer over the live document -----

  /** `Render for String`: sets the container's text content and yields no element. */
  method RenderString<M>(s: string, container: Element<M>) returns (r: Option<Element<M>>)
    requires container.Valid()
    modifies container.repr
    ensures r == None
    ensures container.Valid() && container.repr == old(container.repr) && container.parent == old(container.parent)
    ensures container.Abs() == WithText(old(container.Abs()), s)
  {
    container.SetTextContent(s);
    r := None;
  }

  /**
   * `Render for Attribute`: `OnClick(m)` installs the click handler (firing it
   * sends `m`, see `Click`), `Custom(n, v)` sets attribute `n` to `v`; no element
   * is yielded.
   */
  method RenderAttribute<M>(a: Attribute<M>, container: Element<M>) returns (r: Option<Element<M>>)
    requires Renderable(a) && container.Valid()
    modifies container`attrs, container`onclick
    ensures r == None
    ensures container.Valid() && container.Abs() == AttrOnto(old(container.Abs()), a)
  {
    match a {
      case OnClick(m) => container.SetOnclick(Some(m));
      case Custom(n, v) => container.SetAttribute(n, v);
    }
    r := None;
  }

  /** Firing an element's click handler: its message, if any, is pushed onto the channel. */
  method Click<M>(el: Element<M>, ctx: Context<M>)
    modifies ctx`channel
    ensures ctx.channel == old(ctx.channel) + (if el.onclick.Some? then [el.onclick.value] else [])
  {
    if el.onclick.Some? {
      ctx.Send(el.onclick.value);
    }
  }

  /**
   * `Render for Node`: one fresh element with the node's tag, the attributes
   * rendered onto it in order, then each child rendered into it in order; the
   * container is not touched.
   */
  method RenderNode<M>(n: Html<M>, container: Element<M>) returns (r: Option<Element<M>>)
    requires n.Node? && RenderableHtml(n)
    ensures r.Some? && fresh(r.value.repr)
    ensures r.value.Valid() && r.value.parent == null && r.value.Abs() == Rendered(n)
    decreases n, 0
  {
    var el := new Element(n.tag);
    RenderAttributes(n.attributes, el);
    RenderChildren(n.children, el);
    r := Some(el);
  }

  /** The attribute loop of `render_node`: each attribute is rendered onto the element, in order. */
  method RenderAttributes<M>(attributes: seq<Attribute<M>>, el: Element<M>)
    requires (forall i :: 0 <= i < |attributes| ==> Renderable(attributes[i])) && el.Valid()
    modifies el`attrs, el`onclick
    ensures el.Valid() && el.Abs() == AttrsOnto(old(el.Abs()), attributes)
  {
    ghost var t := el.Abs();
    var i := 0;
    while i < |attributes|
      invariant 0 <= i <= |attributes|
      invariant el.Valid() && el.Abs() == AttrsOnto(t, attributes[..i])
    {
      var _ := RenderAttribute(attributes[i], el);
      assert attributes[..i + 1][..i] == attributes[..i];
      i := i + 1;
    }
    assert attributes[..i] == attributes;
  }

  /** The children loop of `render_node`: each child is rendered into the element, in order. */
  method RenderChildren<M>(children: seq<Html<M>>, el: Element<M>)
    requires (forall i :: 0 <= i < |children| ==> RenderableHtml(children[i])) && el.Valid() && el.parent == null
    modifies el.repr
    ensures el.Valid() && el.parent == null && old(el.repr) <= el.repr && fresh(el.repr - old(el.repr))
    ensures el.Abs() == ChildrenOnto(old(el.Abs()), children)
    decreases children, 2
  {
    ghost var t := el.Abs();
    var j := 0;
    while j < |children|
      invariant 0 <= j <= |children|
      invariant el.Valid() && el.parent == null && old(el.repr) <= el.repr && fresh(el.repr - old(el.repr))
      invariant el.Abs() == ChildrenOnto(t, children[..j])
    {
      ghost var before := el.Abs();
      var rendered := Render(children[j], el);
      if rendered.Some? {
        el.AppendChild(rendered.value);
      }
      assert el.Abs() == ChildOnto(before, children[j]);
      assert children[..j + 1][..j] == children[..j];
      j := j + 1;
    }
    assert children[..j] == children;
  }

  /** `Render for Html`: a node yields its fresh element and leaves the container alone; a text sets the container's text. */
  method Render<M>(h: Html<M>, container: Element<M>) returns (r: Option<Element<M>>)
    requires RenderableHtml(h) && container.Valid()
    modifies container.repr
    ensures container.Valid() && container.repr == old(container.repr) && container.parent == old(container.parent)
    ensures h.Text? ==> r == None && container.Abs() == WithText(old(container.Abs()), h.text)
    ensures h.Node? ==>
      && unchanged(container.repr)
      && r.Some? && fresh(r.value.repr) && r.value.Valid() && r.value.parent == null
      && r.value.Abs() == Rendered(h)
    decreases h, 1
  {
    match h
    case Text(s) => r := RenderString(s, container);
    case Node(_, _, _, _) => r := RenderNode(h, container);
  }
}
