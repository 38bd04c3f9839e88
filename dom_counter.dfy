/**
 * The counter application the framework is designed around, run for one turn:
 * the model is a count, the view is a `div` holding a `+` button that sends
 * `Increment` and a paragraph showing the count, and `Increment` adds one.
 * One turn updates the `div`, the button and the paragraph in place: the
 * paragraph's text becomes the new count, the button is left as it is, and
 * the patch sends nothing.
 */
module DomCounter {
  import opened Wrappers
  import opened RokoHtml
  import opened Elements
  import opened Host
  import opened DomRender
  import opened DomPatch
  import opened DomDiff
  import opened DomApp

  datatype CounterMsg = Increment

  /** The button, with its click handler and its label. */
  function PlusButton(): (r: Html<CounterMsg>)
    ensures r.Node? && r.tag == "button" && RenderableHtml(r)
  {
    Button(None, [OnClick(Increment)], [FromString("+")])
  }

  /** The view: a `div` holding the button and a paragraph with the count in decimal. */
  function CounterView(count: nat): (r: Html<CounterMsg>)
    ensures r.Node? && r.tag == "div" && RenderableHtml(r)
    ensures |r.children| == 2 && r.children[0] == PlusButton()
    ensures r.children[1].Node? && r.children[1].tag == "p" && r.children[1].children == [Text(Decimal(count))]
  {
    Div(None, [], [PlusButton(), P(None, [], [FromString(Decimal(count))])])
  }

  /** `Increment` adds one to the count and asks for nothing more. */
  function CounterUpdate(msg: CounterMsg, count: nat): (r: Cmd<nat, CounterMsg>)
    ensures r.model == count + 1 && r.future == None
  {
    CmdNone(count + 1)
  }

  /** Every view of the counter can be rendered. */
  lemma CounterRenders()
    ensures Renders(CounterView)
  {
    forall m: nat
      ensures RenderableHtml(CounterView(m))
    {
    }
  }

  /** The rendered button: the click handler set and the label as its text. */
  function ButtonTree(): Tree<CounterMsg> {
    Tree("button", map[], Some(Increment), "+", [])
  }

  /** The rendered paragraph: the count as its text and no child element. */
  function ParaTree(count: nat): Tree<CounterMsg> {
    Tree("p", map[], None, Decimal(count), [])
  }

  /** The rendering of the view: a bare `div` whose two child elements are the button and the paragraph. */
  lemma RenderedCounter(count: nat)
    ensures Rendered(CounterView(count)) == Tree("div", map[], None, "", [ButtonTree(), ParaTree(count)])
  {
    var v := CounterView(count);
    var b := PlusButton();
    var p := v.children[1];
    assert AttrsOnto(Blank<CounterMsg>("button"), b.attributes) == Blank("button").(onclick := Some(Increment));
    assert Rendered(b) == ButtonTree();
    assert Rendered(p) == ParaTree(count);
    var a := AttrsOnto(Blank<CounterMsg>("div"), v.attributes);
    assert a == Blank("div");
    assert v.children[..1] == [b] && v.children[..1][..0] == [];
    assert ChildrenOnto(a, v.children[..1]) == a.(kids := [ButtonTree()]);
    assert Rendered(v) == ChildOnto(ChildrenOnto(a, v.children[..1]), p);
  }

  /**
   * The diff of consecutive views: the `div` is updated; the button is updated
   * with nothing to change, so it is not replaced; the paragraph's text child
   * is replaced by the new count. No attribute changes.
   */
  lemma CounterDiff(count: nat)
    ensures Diff(CounterView(count), CounterView(count + 1))
      == Update([Update([Nothing], []), Update([Replace(Text(Decimal(count + 1)))], [])], [])
  {
    if Decimal(count) == Decimal(count + 1) {
      DecimalInjective(count, count + 1);
    }
    var b := PlusButton();
    assert DiffChildren(b.children, b.children) == [Nothing];
    assert DiffAttrs(b.attributes, b.attributes) == [];
    assert Diff(b, b) == Update([Nothing], []);
    var p, p' := CounterView(count).children[1], CounterView(count + 1).children[1];
    assert DiffChildren(p.children, p'.children) == [Replace(Text(Decimal(count + 1)))];
    assert Diff(p, p') == Update([Replace(Text(Decimal(count + 1)))], []);
  }

  /** Patching the rendered paragraph sets its text to the new count. */
  lemma ParagraphStep(count: nat, hook: bool)
    ensures Step(Update([Replace(Text(Decimal(count + 1)))], []), ParaTree(count), Attached, hook)
      == Outcome(ParaTree(count + 1), Attached, [], [])
  {
    var ps := [Replace(Text(Decimal(count + 1)))];
    assert ChildrenSteps(ps, 1, ParaTree(count + 1), Attached, hook) == Outcome(ParaTree(count + 1), Attached, [], []);
    assert ChildrenSteps(ps, 0, ParaTree(count), Attached, hook) == Outcome(ParaTree(count + 1), Attached, [], []);
  }

  /**
   * Patching the rendered view of `count` with the diff towards `count + 1`
   * gives the rendering of the new view: the root stays in its place, the
   * button stays in its place unchanged, nothing is sent and no hook is called.
   */
  lemma CounterStep(count: nat, hook: bool)
    ensures var p := Diff(CounterView(count), CounterView(count + 1));
      && Applicable(p)
      && Step(p, Rendered(CounterView(count)), Attached, hook)
           == Outcome(Rendered(CounterView(count + 1)), Attached, [], [])
      && |Rendered(CounterView(count)).kids| == 2
      && Step(p.children[0], Rendered(CounterView(count)).kids[0], Attached, hook)
           == Outcome(Rendered(CounterView(count)).kids[0], Attached, [], [])
  {
    CounterDiff(count);
    RenderedCounter(count);
    RenderedCounter(count + 1);
    DiffApplicable(CounterView(count), CounterView(count + 1));
    var bp := Update([Nothing], []);
    var pp := Update([Replace(Text(Decimal(count + 1)))], []);
    var ps := [bp, pp];
    QuietStepIsIdentity(bp, ButtonTree(), Attached, hook);
    ParagraphStep(count, hook);
    var t0 := Tree("div", map[], None, "", [ButtonTree(), ParaTree(count)]);
    var t2 := Tree("div", map[], None, "", [ButtonTree(), ParaTree(count + 1)]);
    assert t0.(kids := Resettle(t0.kids, 0, Outcome(ButtonTree(), Attached, [], []))) == t0;
    assert t0.(kids := Resettle(t0.kids, 1, Outcome(ParaTree(count + 1), Attached, [], []))) == t2;
    assert ChildrenSteps(ps, 2, t2, Attached, hook) == Outcome(t2, Attached, [], []);
    assert ChildrenSteps(ps, 1, t0, Attached, hook) == Outcome(t2, Attached, [], []);
    assert ChildrenSteps(ps, 0, t0, Attached, hook) == Outcome(t2, Attached, [], []);
  }

  /**
   * One turn of the loop on `Increment`, from a state showing `count`: the
   * count goes up by one, the root becomes the rendering of the new view
   * while staying in the body, the message is handled, nothing is queued and
   * the hook is not called.
   */
  lemma IncrementTurn(s: Loop<nat, CounterMsg>, hook: bool)
    requires s.view == CounterView(s.model) && s.root == Rendered(s.view) && s.slot == Attached
    requires s.queue != [] && s.queue[0] == Increment
    ensures Renders(CounterView)
    ensures Turn(CounterView, CounterUpdate, hook, s)
      == s.(model := s.model + 1, view := CounterView(s.model + 1), root := Rendered(CounterView(s.model + 1)),
            queue := s.queue[1..], handled := s.handled + [Increment])
  {
    CounterRenders();
    CounterStep(s.model, hook);
  }

  /**
   * The counter showing zero, with its root in the body, as `start` leaves it
   * once `Initial` has rendered the view of 0: after one click the paragraph
   * reads "1", the button is the element rendered at the start, and the root
   * is still in the body.
   */
  lemma FirstClick(s: Loop<nat, CounterMsg>, hook: bool)
    requires s.model == 0 && s.view == CounterView(0) && s.root == Rendered(CounterView(0)) && s.slot == Attached
    requires s.queue == [Increment] && s.handled == []
    ensures Renders(CounterView)
    ensures var r := Turn(CounterView, CounterUpdate, hook, s);
      && r.model == 1 && r.queue == [] && r.handled == [Increment] && r.slot == Attached
      && s.root.kids == [ButtonTree(), ParaTree(0)] && r.root.kids == [ButtonTree(), ParaTree(1)]
    ensures ParaTree(1).text == "1"
  {
    CounterRenders();
    IncrementTurn(s, hook);
    RenderedCounter(0);
    RenderedCounter(1);
    assert Decimal(1) == [DigitChar(1)];
  }

  /** `Initial` on the counter at 0, with a click queued, is such a state. */
  lemma CounterStartsAtZero()
    ensures var s := Initial(CounterView, CmdNone<nat, CounterMsg>(0));
      s.model == 0 && s.view == CounterView(0) && s.root == Rendered(CounterView(0)) && s.slot == Attached
      && s.queue == [] && s.handled == []
  {
  }


}
