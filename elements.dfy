/** The element constructors that the `html!` macro expands to (crates/roko-dom/src/elements.rs). */
module Elements {
  import opened Wrappers
  import opened RokoHtml

  /** `p(id, attrs, children)`: a `<p>` node that keeps key, attributes and children unchanged. */
  function P<M>(id: Option<string>, attrs: seq<Attribute<M>>, children: seq<Html<M>>): (r: Html<M>)
    ensures r.Node? && r.tag == "p"
    ensures r.key == id && r.attributes == attrs && r.children == children
  {
    KeyedNodeOf("p", id, attrs, children)
  }

  /** `div(id, attrs, children)`: a `<div>` node that keeps key, attributes and children unchanged. */
  function Div<M>(id: Option<string>, attrs: seq<Attribute<M>>, children: seq<Html<M>>): (r: Html<M>)
    ensures r.Node? && r.tag == "div"
    ensures r.key == id && r.attributes == attrs && r.children == children
  {
    KeyedNodeOf("div", id, attrs, children)
  }

  /** `button(id, attrs, children)`: a `<button>` node that keeps key, attributes and children unchanged. */
  function Button<M>(id: Option<string>, attrs: seq<Attribute<M>>, children: seq<Html<M>>): (r: Html<M>)
    ensures r.Node? && r.tag == "button"
    ensures r.key == id && r.attributes == attrs && r.children == children
  {
    KeyedNodeOf("button", id, attrs, children)
  }
}
