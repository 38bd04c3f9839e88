/**
 * The patch script and the patcher (crates/roko-dom/src/patch.rs).
 *
 * The effect of applying a patch is first stated on values: `Step` takes the
 * target element's subtree and its standing in its parent (`Slot`) and yields
 * the new subtree, the new standing, the messages sent on the channel and the
 * keys passed to the `on_mount` hook. `Apply`, `ApplyChildren` and
 * `ApplyAttributes` mutate the live document and are proved to have exactly
 * that effect.
 */
module DomPatch {
  import opened Wrappers
  import opened RokoHtml
  import opened Host
  import opened DomRender

  datatype AttrPatch<M> = AddAttr(added: Attribute<M>) | RemoveAttr(removed: Attribute<M>)

  /**
   * `Remove` carries the identity key of the element it removes, so that the
   * `on_mount` hook of the context can be told which keyed element goes away.
   */
  datatype Patch<M> =
    | Add(html: Html<M>)
    | Replace(html: Html<M>)
    | Update(children: seq<Patch<M>>, attrs: seq<AttrPatch<M>>)
    | Remove(key: Option<string>)
    | Nothing

  /** `is_nothing`: holds exactly for the no-op patch. */
  predicate IsNothing<M>(p: Patch<M>)
    ensures IsNothing(p) <==> p == Nothing
  {
    p.Nothing?
  }

  // ----- what the patcher can act on -----

  /** The attribute-removal match has arms for `OnClick`, `Custom`, `OnMount` and `OnUnmount` only. */
  predicate AttrApplicable<M>(ap: AttrPatch<M>) {
    match ap
    case AddAttr(a) => Renderable(a)
    case RemoveAttr(a) => a.OnClick? || a.Custom? || a.OnMount? || a.OnUnmount?
  }

  predicate Applicable<M>(p: Patch<M>) {
    match p
    case Add(h) => RenderableHtml(h)
    case Replace(h) => RenderableHtml(h)
    case Update(cs, ats) =>
      && (forall i :: 0 <= i < |cs| ==> Applicable(cs[i]))
      && (forall i :: 0 <= i < |ats| ==> AttrApplicable(ats[i]))
    case Remove(_) => true
    case Nothing => true
  }

  /** A patch that changes nothing: `Nothing`, or an `Update` without attribute patches whose children are all quiet. */
  predicate Quiet<M>(p: Patch<M>) {
    match p
    case Nothing => true
    case Update(cs, ats) => ats == [] && forall i :: 0 <= i < |cs| ==> Quiet(cs[i])
    case _ => false
  }

  // ----- the value semantics of patching -----

  /**
   * The standing of the target element in the parent it had when patching
   * began: still there, removed from it (or never had one), or replaced in it
   * by a freshly rendered element.
   */
  datatype Slot<M> = Attached | Detached | SwappedFor(newcomer: Tree<M>)

  datatype Outcome<M> = Outcome(tree: Tree<M>, slot: Slot<M>, sent: seq<M>, hooked: seq<string>)

  /** The standing of an element when patching begins: attached exactly when it has a parent. */
  function InitialSlot<M>(hasParent: bool): Slot<M> {
    if hasParent then Attached else Detached
  }

  /** An outcome preceded by earlier messages and hook calls. */
  function Then<M>(sent: seq<M>, hooked: seq<string>, o: Outcome<M>): Outcome<M> {
    o.(sent := sent + o.sent, hooked := hooked + o.hooked)
  }

  /** The effect of one attribute patch: the new subtree and the messages sent. */
  function AttrStep<M>(ap: AttrPatch<M>, t: Tree<M>): (Tree<M>, seq<M>)
    requires AttrApplicable(ap)
  {
    match ap
    case AddAttr(a) => (AttrOnto(t, a), [])
    case RemoveAttr(a) =>
      match a
      case OnClick(_) => (t.(onclick := None), [])
      case Custom(n, _) => (t.(attrs := t.attrs[n := ""]), [])
      case OnMount(_) => (t, [])
      case OnUnmount(m) => (t, [m])
  }

  /**
   * One attribute patch changes only the attributes and the click handler;
   * only the removal of an unmount handler sends a message, and a removed
   * named attribute stays on the element with the empty string as its value.
   * Arm by arm: an addition renders the attribute as the renderer does;
   * removing `OnClick` clears the click handler and nothing else; removing
   * `Custom(n, _)` empties `n` and no other name; removing `OnMount` changes
   * nothing; removing `OnUnmount(m)` sends exactly `m`.
   */
  lemma AttrStepEffect<M>(ap: AttrPatch<M>, t: Tree<M>)
    requires AttrApplicable(ap)
    ensures var r := AttrStep(ap, t);
      && r.0.tag == t.tag && r.0.text == t.text && r.0.kids == t.kids
      && |r.1| <= 1 && (r.1 != [] <==> ap.RemoveAttr? && ap.removed.OnUnmount?)
      && (ap.RemoveAttr? && ap.removed.Custom? ==> ap.removed.name in r.0.attrs && r.0.attrs[ap.removed.name] == "")
      && (ap.RemoveAttr? && !ap.removed.Custom? ==> r.0.attrs == t.attrs)
    ensures ap.AddAttr? ==> AttrStep(ap, t) == (AttrOnto(t, ap.added), [])
    ensures ap.RemoveAttr? && ap.removed.OnClick? ==>
      AttrStep(ap, t) == (t.(onclick := None), []) && AttrStep(ap, t).0.onclick.None?
    ensures ap.RemoveAttr? && ap.removed.Custom? ==>
      && AttrStep(ap, t) == (t.(attrs := t.attrs[ap.removed.name := ""]), [])
      && forall n :: n != ap.removed.name ==>
           (n in AttrStep(ap, t).0.attrs <==> n in t.attrs)
           && (n in t.attrs ==> AttrStep(ap, t).0.attrs[n] == t.attrs[n])
    ensures ap.RemoveAttr? && ap.removed.OnMount? ==> AttrStep(ap, t) == (t, [])
    ensures ap.RemoveAttr? && ap.removed.OnUnmount? ==> AttrStep(ap, t) == (t, [ap.removed.unmount])
  {
  }

  /** The effect of a list of attribute patches, in order. */
  function AttrSteps<M>(aps: seq<AttrPatch<M>>, t: Tree<M>): (r: (Tree<M>, seq<M>))
    requires forall i :: 0 <= i < |aps| ==> AttrApplicable(aps[i])
    ensures r.0.tag == t.tag && r.0.text == t.text && r.0.kids == t.kids
    decreases |aps|
  {
    if aps == [] then (t, [])
    else
      var k := |aps| - 1;
      var r := AttrSteps(aps[..k], t);
      var s := AttrStep(aps[k], r.0);
      (s.0, r.1 + s.1)
  }

  /** The children after child `k` has been patched with outcome `o`. */
  function Resettle<M>(kids: seq<Tree<M>>, k: nat, o: Outcome<M>): seq<Tree<M>>
    requires k < |kids|
  {
    match o.slot
    case Attached => kids[k := o.tree]
    case Detached => RemoveAt(kids, k)
    case SwappedFor(n) => kids[k := n]
  }

  /**
   * Resettling keeps the children before `k` and, after it, the children that
   * follow, moved up by one when child `k` left its parent.
   */
  lemma ResettleShape<M>(kids: seq<Tree<M>>, k: nat, o: Outcome<M>)
    requires k < |kids|
    ensures |Resettle(kids, k, o)| == if o.slot.Detached? then |kids| - 1 else |kids|
    ensures Resettle(kids, k, o)[..k] == kids[..k]
    ensures forall i :: k < i < |kids| ==> Resettle(kids, k, o)[i - (if o.slot.Detached? then 1 else 0)] == kids[i]
    ensures o.slot.Attached? ==> Resettle(kids, k, o)[k] == o.tree
    ensures o.slot.SwappedFor? ==> Resettle(kids, k, o)[k] == o.slot.newcomer
  {
  }

  /**
   * `Patch::apply`. `Add` renders into the target (a node is appended, a text
   * sets the text); `Replace` puts the rendered node in the target's place (a
   * text sets the target's text); `Update` patches the children, then the
   * attributes; `Remove` calls the hook with the key, then detaches the target.
   * A target that has no longer a place keeps its slot: replacing or removing
   * it again has no effect on its former parent.
   */
  function Step<M>(p: Patch<M>, t: Tree<M>, s: Slot<M>, hook: bool): (r: Outcome<M>)
    requires Applicable(p)
    ensures !s.Attached? ==> r.slot == s
    ensures r.slot.Attached? ==> s.Attached?
    decreases p, 1
  {
    match p
    case Add(h) => Outcome(ChildOnto(t, h), s, [], [])
    case Replace(h) =>
      if h.Text? then Outcome(WithText(t, h.text), s, [], [])
      else Outcome(t, if s.Attached? then SwappedFor(Rendered(h)) else s, [], [])
    case Update(cs, ats) =>
      var o := ChildrenSteps(cs, 0, t, s, hook);
      var a := AttrSteps(ats, o.tree);
      Outcome(a.0, o.slot, o.sent + a.1, o.hooked)
    case Remove(key) =>
      Outcome(t, if s.Attached? then Detached else s, [], if hook && key.Some? then [key.value] else [])
    case Nothing => Outcome(t, s, [], [])
  }

  /**
   * `apply_children` from patch `k` on: patch k goes to the element at index k
   * of the live children, as they are at that moment; when there is none, it
   * goes to the parent itself.
   */
  function ChildrenSteps<M>(ps: seq<Patch<M>>, k: nat, t: Tree<M>, s: Slot<M>, hook: bool): (r: Outcome<M>)
    requires k <= |ps| && forall i :: 0 <= i < |ps| ==> Applicable(ps[i])
    ensures !s.Attached? ==> r.slot == s
    ensures r.slot.Attached? ==> s.Attached?
    decreases ps, 0, |ps| - k
  {
    if k == |ps| then Outcome(t, s, [], [])
    else if k < |t.kids| then
      var o := Step(ps[k], t.kids[k], Attached, hook);
      Then(o.sent, o.hooked, ChildrenSteps(ps, k + 1, t.(kids := Resettle(t.kids, k, o)), s, hook))
    else
      var o := Step(ps[k], t, s, hook);
      Then(o.sent, o.hooked, ChildrenSteps(ps, k + 1, o.tree, o.slot, hook))
  }

  // ----- properties of the value semantics -----

  /** The slot never influences the subtree, the messages or the hook calls. */
  lemma {:induction false} StepSlotBlind<M>(p: Patch<M>, t: Tree<M>, s: Slot<M>, s': Slot<M>, hook: bool)
    requires Applicable(p)
    ensures Step(p, t, s, hook).tree == Step(p, t, s', hook).tree
    ensures Step(p, t, s, hook).sent == Step(p, t, s', hook).sent
    ensures Step(p, t, s, hook).hooked == Step(p, t, s', hook).hooked
    decreases p, 1
  {
    if p.Update? {
      ChildrenStepsSlotBlind(p.children, 0, t, s, s', hook);
    }
  }

  lemma {:induction false} ChildrenStepsSlotBlind<M>(ps: seq<Patch<M>>, k: nat, t: Tree<M>, s: Slot<M>, s': Slot<M>, hook: bool)
    requires k <= |ps| && forall i :: 0 <= i < |ps| ==> Applicable(ps[i])
    ensures ChildrenSteps(ps, k, t, s, hook).tree == ChildrenSteps(ps, k, t, s', hook).tree
    ensures ChildrenSteps(ps, k, t, s, hook).sent == ChildrenSteps(ps, k, t, s', hook).sent
    ensures ChildrenSteps(ps, k, t, s, hook).hooked == ChildrenSteps(ps, k, t, s', hook).hooked
    decreases ps, 0, |ps| - k
  {
    if k < |ps| {
      if k < |t.kids| {
        var o := Step(ps[k], t.kids[k], Attached, hook);
        ChildrenStepsSlotBlind(ps, k + 1, t.(kids := Resettle(t.kids, k, o)), s, s', hook);
      } else {
        var o := Step(ps[k], t, s, hook);
        var o' := Step(ps[k], t, s', hook);
        StepSlotBlind(ps[k], t, s, s', hook);
        ChildrenStepsSlotBlind(ps, k + 1, o.tree, o.slot, o'.slot, hook);
      }
    }
  }

  /** A quiet patch leaves the subtree and the slot as they are, sends nothing and calls no hook. */
  lemma {:induction false} QuietStepIsIdentity<M>(p: Patch<M>, t: Tree<M>, s: Slot<M>, hook: bool)
    requires Applicable(p) && Quiet(p)
    ensures Step(p, t, s, hook) == Outcome(t, s, [], [])
    decreases p, 1
  {
    if p.Update? {
      QuietChildrenStepsAreIdentity(p.children, 0, t, s, hook);
    }
  }

  lemma {:induction false} QuietChildrenStepsAreIdentity<M>(ps: seq<Patch<M>>, k: nat, t: Tree<M>, s: Slot<M>, hook: bool)
    requires k <= |ps| && forall i :: 0 <= i < |ps| ==> Applicable(ps[i]) && Quiet(ps[i])
    ensures ChildrenSteps(ps, k, t, s, hook) == Outcome(t, s, [], [])
    decreases ps, 0, |ps| - k
  {
    if k < |ps| {
      if k < |t.kids| {
        QuietStepIsIdentity(ps[k], t.kids[k], Attached, hook);
        assert t.(kids := t.kids[k := t.kids[k]]) == t;
        QuietChildrenStepsAreIdentity(ps, k + 1, t, s, hook);
      } else {
        QuietStepIsIdentity(ps[k], t, s, hook);
        QuietChildrenStepsAreIdentity(ps, k + 1, t, s, hook);
      }
    }
  }

  /** Starting from patch `k`, the children steps of an `Update` split into step `k` and the rest. */
  lemma ChildrenStepsThen<M>(ps: seq<Patch<M>>, k: nat, t: Tree<M>, s: Slot<M>, hook: bool, sent: seq<M>, hooked: seq<string>)
    requires k < |ps| && forall i :: 0 <= i < |ps| ==> Applicable(ps[i])
    ensures k < |t.kids| ==>
      var o := Step(ps[k], t.kids[k], Attached, hook);
      Then(sent, hooked, ChildrenSteps(ps, k, t, s, hook))
        == Then(sent + o.sent, hooked + o.hooked, ChildrenSteps(ps, k + 1, t.(kids := Resettle(t.kids, k, o)), s, hook))
    ensures k >= |t.kids| ==>
      var o := Step(ps[k], t, s, hook);
      Then(sent, hooked, ChildrenSteps(ps, k, t, s, hook))
        == Then(sent + o.sent, hooked + o.hooked, ChildrenSteps(ps, k + 1, o.tree, o.slot, hook))
  {
  }

  lemma AppendAssociates<T>(a: seq<T>, b: seq<T>, c: seq<T>)
    ensures (a + b) + c == a + (b + c)
  {
  }

  // ----- the patcher over the live document -----

  /**
   * How the target element `el` stands towards `home`, the parent it had
   * when patching began, whose children were then `before`.
   */
  ghost predicate Settled<M>(el: Element<M>, home: Element?<M>, before: seq<Element<M>>, slot: Slot<M>, swap: Element?<M>)
    reads el`parent, (if home == null then {} else {home})`children, swap, Footprint(swap)
  {
    match slot
    case Attached => el.parent == home && home != null && el in before && home.children == before
    case Detached =>
      el.parent == null && (home != null ==> el in before && home.children == RemoveAt(before, IndexOf(before, el)))
    case SwappedFor(n) =>
      && el.parent == null && home != null && el in before && swap != null
      && home.children == before[IndexOf(before, el) := swap]
      && swap.parent == home && home !in swap.repr && swap.Valid() && swap.Abs() == n
  }

  /**
   * A patch target between two steps: a well-formed subtree that does not
   * contain its former parent, standing in it as `slot` says, with the element
   * swapped in for it (if any) kept apart from it.
   */
  ghost predicate Standing<M>(el: Element<M>, home: Element?<M>, before: seq<Element<M>>, slot: Slot<M>, swap: Element?<M>)
    reads el, el.repr, (if home == null then {} else {home})`children, swap, Footprint(swap)
  {
    && el.Valid()
    && (home != null ==> home !in el.repr)
    && Settled(el, home, before, slot, swap)
    && (slot.SwappedFor? ==> swap.repr !! el.repr)
  }

  /**
   * The target grew only by fresh elements and kept its parent link, and
   * neither the former parent's children nor the swapped-in subtree changed:
   * the target still stands as it did.
   */
  twostate lemma StandingKept<M>(el: Element<M>, new home: Element?<M>, new before: seq<Element<M>>,
                                 new slot: Slot<M>, new swap: Element?<M>)
    requires old(allocated(home)) && old(allocated(before)) && old(allocated(slot)) && old(allocated(swap))
    requires old(Standing(el, home, before, slot, swap))
    requires el.Valid() && old(el.repr) <= el.repr && fresh(el.repr - old(el.repr)) && el.parent == old(el.parent)
    requires home != null ==> home.children == old(home.children)
    requires slot.SwappedFor? ==> unchanged(old(Footprint(swap)))
    ensures Standing(el, home, before, slot, swap)
  {
  }

  /** Where a patch run starts: the target element in its current parent, if it has one. */
  lemma StandingAtStart<M>(el: Element<M>)
    requires el.Valid()
    requires el.parent != null ==> el in el.parent.children && el.parent !in el.repr
    ensures Standing(el, el.parent, if el.parent == null then [] else el.parent.children, InitialSlot(el.parent != null), null)
  {
  }

  /**
   * The target `el` was patched with outcome `o`: it stands in `home` as
   * `o.slot` says, its subtree is `o.tree`, it grew only by fresh elements,
   * and the messages and hook calls of `o` were appended to the context.
   */
  twostate predicate Applied<M>(el: Element<M>, ctx: Context<M>, home: Element?<M>, before: seq<Element<M>>,
                                slot: Slot<M>, swap: Element?<M>, new slot': Slot<M>, new swap': Element?<M>, new o: Outcome<M>)
    reads el, el.repr, ctx, (if home == null then {} else {home})`children, swap', Footprint(swap')
  {
    && Standing(el, home, before, slot', swap')
    && old(el.repr) <= el.repr && fresh(el.repr - old(el.repr))
    && el.Abs() == o.tree
    && ctx.channel == old(ctx.channel) + o.sent
    && ctx.hooked == old(ctx.hooked) + o.hooked
    && slot' == o.slot
    && (slot.SwappedFor? || !slot'.SwappedFor? ==> swap' == swap)
    && (!slot.SwappedFor? && slot'.SwappedFor? ==> fresh(swap'.repr))
  }

  /**
   * `Patch::apply` on the live element `el`, which stands in `home` as `slot`
   * says. The ghost parameters only track the standing; `home`'s children may
   * change only by replacing or removing `el`.
   */
  method Apply<M>(p: Patch<M>, el: Element<M>, ctx: Context<M>,
                  ghost home: Element?<M>, ghost before: seq<Element<M>>, ghost slot: Slot<M>, ghost swap: Element?<M>)
    returns (ghost slot': Slot<M>, ghost swap': Element?<M>)
    requires Applicable(p) && Standing(el, home, before, slot, swap)
    modifies el.repr, (if home == null then {} else {home})`children, ctx`channel, ctx`hooked
    ensures Applied(el, ctx, home, before, slot, swap, slot', swap', Step(p, old(el.Abs()), slot, ctx.onMount))
    decreases p, 2
  {
    match p {
      case Add(h) =>
        slot', swap' := ApplyAdd(h, el, ctx, home, before, slot, swap);
      case Replace(h) =>
        slot', swap' := ApplyReplace(h, el, ctx, home, before, slot, swap);
      case Update(cs, ats) =>
        slot', swap' := ApplyUpdate(cs, ats, el, ctx, home, before, slot, swap);
      case Remove(key) =>
        slot', swap' := ApplyRemove(key, el, ctx, home, before, slot, swap);
      case Nothing =>
        slot', swap' := slot, swap;
    }
  }

  /** The `Add` arm: render into the target and append the new element, if one was made. */
  method ApplyAdd<M>(h: Html<M>, el: Element<M>, ctx: Context<M>,
                     ghost home: Element?<M>, ghost before: seq<Element<M>>, ghost slot: Slot<M>, ghost swap: Element?<M>)
    returns (ghost slot': Slot<M>, ghost swap': Element?<M>)
    requires RenderableHtml(h) && Standing(el, home, before, slot, swap)
    modifies el.repr
    ensures Applied(el, ctx, home, before, slot, swap, slot', swap', Step(Add(h), old(el.Abs()), slot, ctx.onMount))
  {
    slot', swap' := slot, swap;
    var r := Render(h, el);
    if r.Some? {
      el.AppendChild(r.value);
    }
  }

  /** The `Replace` arm: a rendered element takes the target's place; a text is written into the target. */
  method ApplyReplace<M>(h: Html<M>, el: Element<M>, ctx: Context<M>,
                         ghost home: Element?<M>, ghost before: seq<Element<M>>, ghost slot: Slot<M>, ghost swap: Element?<M>)
    returns (ghost slot': Slot<M>, ghost swap': Element?<M>)
    requires RenderableHtml(h) && Standing(el, home, before, slot, swap)
    modifies el.repr, (if home == null then {} else {home})`children
    ensures Applied(el, ctx, home, before, slot, swap, slot', swap', Step(Replace(h), old(el.Abs()), slot, ctx.onMount))
  {
    slot', swap' := slot, swap;
    var r := Render(h, el);
    if r.Some? {
      if el.parent != null {
        slot', swap' := SwappedFor(r.value.Abs()), r.value;
      }
      el.ReplaceWith(r.value);
    }
  }

  /** The `Update` arm: the children first, then the attributes. */
  method ApplyUpdate<M>(cs: seq<Patch<M>>, ats: seq<AttrPatch<M>>, el: Element<M>, ctx: Context<M>,
                        ghost home: Element?<M>, ghost before: seq<Element<M>>, ghost slot: Slot<M>, ghost swap: Element?<M>)
    returns (ghost slot': Slot<M>, ghost swap': Element?<M>)
    requires Applicable(Update(cs, ats)) && Standing(el, home, before, slot, swap)
    modifies el.repr, (if home == null then {} else {home})`children, ctx`channel, ctx`hooked
    ensures Applied(el, ctx, home, before, slot, swap, slot', swap', Step(Update(cs, ats), old(el.Abs()), slot, ctx.onMount))
    decreases cs, 1
  {
    ghost var c := ChildrenSteps(cs, 0, el.Abs(), slot, ctx.onMount);
    slot', swap' := ApplyChildren(el, cs, ctx, home, before, slot, swap);
    label Children:
    ApplyAttributes(el, ats, ctx);
    StandingKept@Children(el, home, before, slot', swap');
    AppendAssociates(old(ctx.channel), c.sent, AttrSteps(ats, c.tree).1);
  }

  /** The `Remove` arm: the hook hears of a keyed removal first, then the target leaves its parent. */
  method ApplyRemove<M>(key: Option<string>, el: Element<M>, ctx: Context<M>,
                        ghost home: Element?<M>, ghost before: seq<Element<M>>, ghost slot: Slot<M>, ghost swap: Element?<M>)
    returns (ghost slot': Slot<M>, ghost swap': Element?<M>)
    requires Standing(el, home, before, slot, swap)
    modifies el`parent, (if home == null then {} else {home})`children, ctx`hooked
    ensures Applied(el, ctx, home, before, slot, swap, slot', swap', Step(Remove(key), old(el.Abs()), slot, ctx.onMount))
  {
    slot', swap' := slot, swap;
    if ctx.onMount && key.Some? {
      ctx.CallOnMount(key.value);
    }
    if el.parent != null {
      slot' := Detached;
    }
    el.Remove();
  }

  /** `apply_children`: patch i goes to the live child at index i, or else to the parent. */
  method ApplyChildren<M>(parent: Element<M>, ps: seq<Patch<M>>, ctx: Context<M>,
                          ghost home: Element?<M>, ghost before: seq<Element<M>>, ghost slot: Slot<M>, ghost swap: Element?<M>)
    returns (ghost slot': Slot<M>, ghost swap': Element?<M>)
    requires (forall i :: 0 <= i < |ps| ==> Applicable(ps[i])) && Standing(parent, home, before, slot, swap)
    modifies parent.repr, (if home == null then {} else {home})`children, ctx`channel, ctx`hooked
    ensures Applied(parent, ctx, home, before, slot, swap, slot', swap', ChildrenSteps(ps, 0, old(parent.Abs()), slot, ctx.onMount))
    decreases ps, 0, 1
  {
    ghost var total := Then(ctx.channel, ctx.hooked, ChildrenSteps(ps, 0, parent.Abs(), slot, ctx.onMount));
    slot', swap' := slot, swap;
    var i := 0;
    while i < |ps|
      invariant 0 <= i <= |ps|
      invariant Standing(parent, home, before, slot', swap')
      invariant old(parent.repr) <= parent.repr && fresh(parent.repr - old(parent.repr))
      invariant total == Then(ctx.channel, ctx.hooked, ChildrenSteps(ps, i, parent.Abs(), slot', ctx.onMount))
      invariant !slot.Attached? ==> slot' == slot
      invariant slot.SwappedFor? || !slot'.SwappedFor? ==> swap' == swap
      invariant !slot.SwappedFor? && slot'.SwappedFor? ==> fresh(swap'.repr)
    {
      slot', swap' := ApplyChildStep(parent, ps, i, ctx, home, before, slot', swap');
      i := i + 1;
    }
    ChildrenApplied(parent, ctx, ps, home, before, slot, swap, slot', swap');
  }

  /** When every child patch has been applied, the children steps as a whole have been. */
  twostate lemma ChildrenApplied<M>(parent: Element<M>, new ctx: Context<M>, new ps: seq<Patch<M>>,
                                    new home: Element?<M>, new before: seq<Element<M>>, new slot: Slot<M>, new swap: Element?<M>,
                                    new slot': Slot<M>, new swap': Element?<M>)
    requires old(allocated(ctx)) && old(allocated(ps)) && old(allocated(home)) && old(allocated(before))
    requires old(allocated(slot)) && old(allocated(swap)) && old(parent.Valid())
    requires forall i :: 0 <= i < |ps| ==> Applicable(ps[i])
    requires Standing(parent, home, before, slot', swap')
    requires old(parent.repr) <= parent.repr && fresh(parent.repr - old(parent.repr))
    requires Then(old(ctx.channel), old(ctx.hooked), ChildrenSteps(ps, 0, old(parent.Abs()), slot, ctx.onMount))
          == Then(ctx.channel, ctx.hooked, ChildrenSteps(ps, |ps|, parent.Abs(), slot', ctx.onMount))
    requires !slot.Attached? ==> slot' == slot
    requires slot.SwappedFor? || !slot'.SwappedFor? ==> swap' == swap
    requires !slot.SwappedFor? && slot'.SwappedFor? ==> fresh(swap'.repr)
    ensures Applied(parent, ctx, home, before, slot, swap, slot', swap', ChildrenSteps(ps, 0, old(parent.Abs()), slot, ctx.onMount))
  {
    ChildrenStepsDone(ps, old(parent.Abs()), slot, ctx.onMount, old(ctx.channel), old(ctx.hooked),
                      parent.Abs(), slot', ctx.channel, ctx.hooked);
  }

  /** Once every child patch is taken, what is left to do is nothing: the outcome is the state reached. */
  lemma ChildrenStepsDone<M>(ps: seq<Patch<M>>, t0: Tree<M>, s0: Slot<M>, hook: bool, sent0: seq<M>, hooked0: seq<string>,
                             t: Tree<M>, s: Slot<M>, sent: seq<M>, hooked: seq<string>)
    requires forall i :: 0 <= i < |ps| ==> Applicable(ps[i])
    requires Then(sent0, hooked0, ChildrenSteps(ps, 0, t0, s0, hook)) == Then(sent, hooked, ChildrenSteps(ps, |ps|, t, s, hook))
    ensures var o := ChildrenSteps(ps, 0, t0, s0, hook);
      o.tree == t && o.slot == s && sent == sent0 + o.sent && hooked == hooked0 + o.hooked
  {
    assert ChildrenSteps(ps, |ps|, t, s, hook) == Outcome(t, s, [], []);
    assert sent + [] == sent && hooked + [] == hooked;
  }

  /** One step of `apply_children`: patch `i` goes to the live child at index `i`, or else to the parent. */
  method ApplyChildStep<M>(parent: Element<M>, ps: seq<Patch<M>>, i: nat, ctx: Context<M>,
                           ghost home: Element?<M>, ghost before: seq<Element<M>>, ghost slot: Slot<M>, ghost swap: Element?<M>)
    returns (ghost slot': Slot<M>, ghost swap': Element?<M>)
    requires i < |ps| && (forall k :: 0 <= k < |ps| ==> Applicable(ps[k])) && Standing(parent, home, before, slot, swap)
    modifies parent.repr, (if home == null then {} else {home})`children, ctx`channel, ctx`hooked
    ensures Standing(parent, home, before, slot', swap')
    ensures old(parent.repr) <= parent.repr && fresh(parent.repr - old(parent.repr))
    ensures Then(old(ctx.channel), old(ctx.hooked), ChildrenSteps(ps, i, old(parent.Abs()), slot, ctx.onMount))
         == Then(ctx.channel, ctx.hooked, ChildrenSteps(ps, i + 1, parent.Abs(), slot', ctx.onMount))
    ensures !slot.Attached? ==> slot' == slot
    ensures slot.SwappedFor? || !slot'.SwappedFor? ==> swap' == swap
    ensures !slot.SwappedFor? && slot'.SwappedFor? ==> fresh(swap'.repr)
    decreases ps, 0, 0
  {
    ChildrenStepsThen(ps, i, parent.Abs(), slot, ctx.onMount, ctx.channel, ctx.hooked);
    if i < |parent.children| {
      ApplyToChild(parent, i, ps[i], ctx);
      StandingKept(parent, home, before, slot, swap);
      slot', swap' := slot, swap;
    } else {
      slot', swap' := Apply(ps[i], parent, ctx, home, before, slot, swap);
    }
  }

  /** One step of `apply_children` that lands on the live child at index `i`. */
  method ApplyToChild<M>(parent: Element<M>, i: nat, p: Patch<M>, ctx: Context<M>)
    requires Applicable(p) && parent.Valid() && i < |parent.children|
    modifies parent.repr, ctx`channel, ctx`hooked
    ensures parent.Valid() && old(parent.repr) <= parent.repr && fresh(parent.repr - old(parent.repr))
    ensures parent.parent == old(parent.parent)
    ensures
      var t := old(parent.Abs());
      var o := Step(p, t.kids[i], Attached, ctx.onMount);
      && parent.Abs() == t.(kids := Resettle(t.kids, i, o))
      && ctx.channel == old(ctx.channel) + o.sent
      && ctx.hooked == old(ctx.hooked) + o.hooked
    decreases p, 3
  {
    ghost var t := parent.Abs();
    var child := parent.children[i];
    ghost var before := parent.children;
    ghost var slot, swap := Apply(p, child, ctx, parent, before, Attached, null);
    parent.repr := parent.repr + child.repr + Footprint(swap);
    ChildApplied(parent, i, p, ctx, slot, swap);
  }

  /** The parent of a patched child is well-formed again, with the child resettled as the outcome says. */
  twostate lemma ChildApplied<M>(parent: Element<M>, new i: nat, new p: Patch<M>, new ctx: Context<M>,
                                 new slot: Slot<M>, new swap: Element?<M>)
    requires old(allocated(ctx)) && old(allocated(p)) && Applicable(p)
    requires old(parent.Valid()) && i < |old(parent.children)|
    requires forall o :: o in old(parent.repr) && o !in old(parent.children[i].repr) && o != parent ==> unchanged(o)
    requires parent.tag == old(parent.tag) && parent.attrs == old(parent.attrs)
    requires parent.onclick == old(parent.onclick) && parent.text == old(parent.text)
    requires Applied(old(parent.children)[i], ctx, parent, old(parent.children), Attached, null, slot, swap,
                     Step(p, old(parent.children[i].Abs()), Attached, ctx.onMount))
    requires parent.repr == old(parent.repr) + old(parent.children)[i].repr + Footprint(swap)
    ensures parent.Valid()
    ensures
      var t := old(parent.Abs());
      var o := Step(p, t.kids[i], Attached, ctx.onMount);
      && parent.Abs() == t.(kids := Resettle(t.kids, i, o))
      && ctx.channel == old(ctx.channel) + o.sent
      && ctx.hooked == old(ctx.hooked) + o.hooked
  {
    var t := old(parent.Abs());
    var child := old(parent.children)[i];
    var grown := child.repr + Footprint(swap);
    SiblingsKept(parent, i, grown);
    Resettled(parent, old(parent.children), i, t.kids, grown, Step(p, t.kids[i], Attached, ctx.onMount), swap);
  }

  /** After the child at `i` was patched, the parent is well-formed again with the child resettled as `o` says. */
  lemma Resettled<M>(parent: Element<M>, before: seq<Element<M>>, i: nat, kids: seq<Tree<M>>, grown: set<Element<M>>,
                     o: Outcome<M>, swap: Element?<M>)
    requires SiblingsStand(parent, before, i, kids, grown)
    requires Standing(before[i], parent, before, o.slot, swap) && before[i].Abs() == o.tree
    requires before[i].repr + Footprint(swap) <= grown <= parent.repr
    ensures parent.Valid()
    ensures parent.Abs() == Tree(parent.tag, parent.attrs, parent.onclick, parent.text, Resettle(kids, i, o))
  {
    forall j | 0 <= j < |before| && j != i
      ensures before[j] != before[i]
    {
      assert before[j] in before[j].repr && before[i] in before[i].repr;
    }
    IndexOfUnique(before, i);
    match o.slot
    case Attached => ReseatKept(parent, before, i, kids, grown);
    case Detached => ReseatRemoved(parent, before, i, kids, grown);
    case SwappedFor(_) => ReseatSwapped(parent, before, i, kids, grown, swap);
  }

  /** `apply_attributes`: each attribute patch in order. */
  method ApplyAttributes<M>(el: Element<M>, aps: seq<AttrPatch<M>>, ctx: Context<M>)
    requires (forall i :: 0 <= i < |aps| ==> AttrApplicable(aps[i])) && el.Valid()
    modifies el`attrs, el`onclick, ctx`channel
    ensures el.Valid()
    ensures el.Abs() == AttrSteps(aps, old(el.Abs())).0
    ensures ctx.channel == old(ctx.channel) + AttrSteps(aps, old(el.Abs())).1
  {
    ghost var t := el.Abs();
    var i := 0;
    while i < |aps|
      invariant 0 <= i <= |aps|
      invariant el.Valid()
      invariant el.Abs() == AttrSteps(aps[..i], t).0
      invariant ctx.channel == old(ctx.channel) + AttrSteps(aps[..i], t).1
    {
      match aps[i] {
        case AddAttr(a) =>
          var _ := RenderAttribute(a, el);
        case RemoveAttr(a) =>
          match a {
            case OnClick(_) => el.SetOnclick(None);
            case Custom(n, _) => el.SetAttribute(n, "");
            case OnMount(_) =>
            case OnUnmount(m) => ctx.Send(m);
          }
      }
      assert aps[..i + 1][..i] == aps[..i];
      i := i + 1;
    }
    assert aps[..i] == aps;
  }
}
