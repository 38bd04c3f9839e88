/**
 * The older renderer of the roko-render crate (crates/roko-render/src/render.rs).
 *
 * Its nodes, texts and children are rendered in the same order and with the
 * same effect on the document as in the roko-dom renderer. Its attribute arms
 * differ: it knows `OnClick`, `Class` and `Style`, and sets `Class(c)` as
 * attribute "class" and `Style(s)` as attribute "style". Its effect on the
 * document is therefore stated as the roko-dom rendering of a translated
 * document (`Translate`), in which each `Class`/`Style` has become the
 * equivalent `Custom` attribute. Two differences of its click handler are not
 * captured: a failed send is logged and dropped rather than aborting, and it
 * writes to the console.
 */
module LegacyRender {
  import opened Wrappers
  import opened RokoHtml
  import opened Host
  import DomRender

  /** The attribute arms of this renderer: `OnClick`, `Class` and `Style`. */
  predicate Renderable<M>(a: Attribute<M>) {
    a.OnClick? || a.Class? || a.Style?
  }

  predicate RenderableHtml<M>(h: Html<M>) {
    match h
    case Text(_) => true
    case Node(_, _, attributes, children) =>
      && (forall i :: 0 <= i < |attributes| ==> Renderable(attributes[i]))
      && (forall i :: 0 <= i < |children| ==> RenderableHtml(children[i]))
  }

  /** The roko-dom attribute with the same effect: "class" and "style" become named attributes. */
  function AsCustom<M>(a: Attribute<M>): (r: Attribute<M>)
    requires Renderable(a)
    ensures DomRender.Renderable(r)
    ensures a.OnClick? <==> r.OnClick?
    ensures a.OnClick? ==> r == a
    ensures a.Class? ==> r.name == "class" && r.value == a.className
    ensures a.Style? ==> r.name == "style" && r.value == a.css
  {
    match a
    case OnClick(_) => a
    case Class(c) => Custom("class", c)
    case Style(s) => Custom("style", s)
  }

  function AsCustomAll<M>(attributes: seq<Attribute<M>>): (r: seq<Attribute<M>>)
    requires forall i :: 0 <= i < |attributes| ==> Renderable(attributes[i])
    ensures |r| == |attributes|
    ensures forall i :: 0 <= i < |r| ==> DomRender.Renderable(r[i]) && r[i] == AsCustom(attributes[i])
  {
    seq(|attributes|, i requires 0 <= i < |attributes| => AsCustom(attributes[i]))
  }

  /** The document whose roko-dom rendering is this renderer's rendering: same shape, attributes translated. */
  function Translate<M>(h: Html<M>): (r: Html<M>)
    requires RenderableHtml(h)
    ensures DomRender.RenderableHtml(r)
    ensures h.Text? ==> r == h
    ensures h.Node? ==>
      && r.Node? && r.tag == h.tag && r.key == h.key
      && |r.attributes| == |h.attributes| && |r.children| == |h.children|
    decreases h, 0
  {
    match h
    case Text(_) => h
    case Node(tag, key, attributes, children) =>
      Node(tag, key, AsCustomAll(attributes), TranslateAll(children))
  }

  function TranslateAll<M>(children: seq<Html<M>>): (r: seq<Html<M>>)
    requires forall i :: 0 <= i < |children| ==> RenderableHtml(children[i])
    ensures |r| == |children|
    ensures forall i :: 0 <= i < |r| ==> DomRender.RenderableHtml(r[i]) && r[i] == Translate(children[i])
    decreases children, 1
  {
    seq(|children|, i requires 0 <= i < |children| => Translate(children[i]))
  }

  // ----- the renderer over the live document -----

  /** `Render for String`: sets the container's text content and yields no element. */
  method RenderString<M>(s: string, container: Element<M>) returns (r: Option<Element<M>>)
    requires container.Valid()
    modifies container.repr
    ensures r == None
    ensures container.Valid() && container.repr == old(container.repr) && container.parent == old(container.parent)
    ensures container.Abs() == WithText(old(container.Abs()), s)
  {
    container.SetTextContent(s);
    r := None;
  }

  /**
   * `Render for Attribute`: `OnClick(m)` installs the click handler,
   * `Class(c)` sets "class" to c, `Style(s)` sets "style" to s; no element is
   * yielded.
   */
  method RenderAttribute<M>(a: Attribute<M>, container: Element<M>) returns (r: Option<Element<M>>)
    requires Renderable(a) && container.Valid()
    modifies container`attrs, container`onclick
    ensures r == None
    ensures container.Valid() && container.Abs() == DomRender.AttrOnto(old(container.Abs()), AsCustom(a))
  {
    match a {
      case OnClick(m) => container.SetOnclick(Some(m));
      case Class(c) => container.SetAttribute("class", c);
      case Style(s) => container.SetAttribute("style", s);
    }
    r := None;
  }

  /** `Render for Node`: one fresh element, the attributes then the children rendered onto it; the container is not touched. */
  method RenderNode<M>(n: Html<M>, container: Element<M>) returns (r: Option<Element<M>>)
    requires n.Node? && RenderableHtml(n)
    ensures r.Some? && fresh(r.value.repr)
    ensures r.value.Valid() && r.value.parent == null && r.value.Abs() == DomRender.Rendered(Translate(n))
    decreases n, 0
  {
    var el := new Element(n.tag);
    RenderAttributes(n.attributes, el);
    RenderChildren(n.children, el);
    r := Some(el);
  }

  /** The attribute loop of `render` for a node, in list order. */
  method RenderAttributes<M>(attributes: seq<Attribute<M>>, el: Element<M>)
    requires (forall i :: 0 <= i < |attributes| ==> Renderable(attributes[i])) && el.Valid()
    modifies el`attrs, el`onclick
    ensures el.Valid() && el.Abs() == DomRender.AttrsOnto(old(el.Abs()), AsCustomAll(attributes))
  {
    ghost var t := el.Abs();
    var i := 0;
    while i < |attributes|
      invariant 0 <= i <= |attributes|
      invariant el.Valid() && el.Abs() == DomRender.AttrsOnto(t, AsCustomAll(attributes[..i]))
    {
      var _ := RenderAttribute(attributes[i], el);
      assert AsCustomAll(attributes[..i + 1])[..i] == AsCustomAll(attributes[..i]);
      i := i + 1;
    }
    assert attributes[..i] == attributes;
  }

  /** The children loop of `render` for a node: each child is rendered into the element, in order. */
  method RenderChildren<M>(children: seq<Html<M>>, el: Element<M>)
    requires (forall i :: 0 <= i < |children| ==> RenderableHtml(children[i])) && el.Valid() && el.parent == null
    modifies el.repr
    ensures el.Valid() && el.parent == null && old(el.repr) <= el.repr && fresh(el.repr - old(el.repr))
    ensures el.Abs() == DomRender.ChildrenOnto(old(el.Abs()), TranslateAll(children))
    decreases children, 2
  {
    ghost var t := el.Abs();
    var j := 0;
    while j < |children|
      invariant 0 <= j <= |children|
      invariant el.Valid() && el.parent == null && old(el.repr) <= el.repr && fresh(el.repr - old(el.repr))
      invariant el.Abs() == DomRender.ChildrenOnto(t, TranslateAll(children[..j]))
    {
      ghost var before := el.Abs();
      var rendered := Render(children[j], el);
      if rendered.Some? {
        el.AppendChild(rendered.value);
      }
      assert el.Abs() == DomRender.ChildOnto(before, Translate(children[j]));
      assert TranslateAll(children[..j + 1])[..j] == TranslateAll(children[..j]);
      j := j + 1;
    }
    assert children[..j] == children;
  }

  /** `Render for Html`: a node yields its fresh element, a text sets the container's text. */
  method Render<M>(h: Html<M>, container: Element<M>) returns (r: Option<Element<M>>)
    requires RenderableHtml(h) && container.Valid()
    modifies container.repr
    ensures container.Valid() && container.repr == old(container.repr) && container.parent == old(container.parent)
    ensures h.Text? ==> r == None && container.Abs() == WithText(old(container.Abs()), h.text)
    ensures h.Node? ==>
      && unchanged(container.repr)
      && r.Some? && fresh(r.value.repr) && r.value.Valid() && r.value.parent == null
      && r.value.Abs() == DomRender.Rendered(Translate(h))
    decreases h, 1
  {
    match h
    case Text(s) => r := RenderString(s, container);
    case Node(_, _, _, _) => r := RenderNode(h, container);
  }

  // ----- properties -----

  /**
   * Rendering a list of attributes names no attribute but those already
   * present, "class" and "style".
   */
  lemma {:induction false} OnlyClassAndStyle<M>(t: Tree<M>, attributes: seq<Attribute<M>>)
    requires forall i :: 0 <= i < |attributes| ==> Renderable(attributes[i])
    ensures DomRender.AttrsOnto(t, AsCustomAll(attributes)).attrs.Keys <= t.attrs.Keys + {"class", "style"}
    decreases |attributes|
  {
    if attributes != [] {
      var k := |attributes| - 1;
      assert AsCustomAll(attributes)[..k] == AsCustomAll(attributes[..k]);
      OnlyClassAndStyle(t, attributes[..k]);
    }
  }

  /**
   * The last `Class` in the list decides the "class" attribute: no later
   * attribute touches it.
   */
  lemma {:induction false} LastClassWins<M>(t: Tree<M>, attributes: seq<Attribute<M>>, j: nat)
    requires forall i :: 0 <= i < |attributes| ==> Renderable(attributes[i])
    requires j < |attributes| && attributes[j].Class?
    requires forall i :: j < i < |attributes| ==> !attributes[i].Class?
    ensures var r := DomRender.AttrsOnto(t, AsCustomAll(attributes));
      "class" in r.attrs && r.attrs["class"] == attributes[j].className
    decreases |attributes|
  {
    var k := |attributes| - 1;
    assert AsCustomAll(attributes)[..k] == AsCustomAll(attributes[..k]);
    if j < k {
      LastClassWins(t, attributes[..k], j);
    }
  }
}
