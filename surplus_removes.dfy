/**
 * Dropping trailing children, as `apply_children` (crates/roko-dom/src/patch.rs)
 * does it and as it evidently means to.
 *
 * The differ ends a child patch list with one `Remove` per surplus previous
 * child. `apply_children` sends patch i to the element found at index i of
 * the live children at that moment. Each removal shrinks that list, so from
 * the second surplus `Remove` on the index runs ahead of the children left:
 * every other surplus child is skipped, and once the index is past the end
 * the `Remove` falls back to the parent itself and detaches it.
 *
 * `FixedStep` is the semantics with the removals counted: patch i goes to
 * index i minus the number of children removed so far. Under it, dropping
 * trailing children turns the rendered previous document into the rendered
 * next one.
 */
module SurplusRemoves {
  import opened Wrappers
  import opened RokoHtml
  import opened Host
  import opened DomRender
  import opened DomPatch
  import DomDiff

  // ----- the corrected semantics -----

  /** `Patch::apply` with `apply_children` counting the children it has removed. */
  function FixedStep<M>(p: Patch<M>, t: Tree<M>, s: Slot<M>, hook: bool): (r: Outcome<M>)
    requires Applicable(p)
    ensures !s.Attached? ==> r.slot == s
    decreases p, 1
  {
    match p
    case Update(cs, ats) =>
      var o := FixedChildrenSteps(cs, 0, 0, t, s, hook);
      var a := AttrSteps(ats, o.tree);
      Outcome(a.0, o.slot, o.sent + a.1, o.hooked)
    case _ => Step(p, t, s, hook)
  }

  /**
   * Child patches from `k` on, `gone` children having been removed: patch k
   * goes to the live child at index `k - gone`, or else to the parent.
   */
  function FixedChildrenSteps<M>(ps: seq<Patch<M>>, k: nat, gone: nat, t: Tree<M>, s: Slot<M>, hook: bool): (r: Outcome<M>)
    requires gone <= k <= |ps| && forall i :: 0 <= i < |ps| ==> Applicable(ps[i])
    ensures !s.Attached? ==> r.slot == s
    decreases ps, 0, |ps| - k
  {
    if k == |ps| then Outcome(t, s, [], [])
    else if k - gone < |t.kids| then
      var o := FixedStep(ps[k], t.kids[k - gone], Attached, hook);
      Then(o.sent, o.hooked,
           FixedChildrenSteps(ps, k + 1, if o.slot.Detached? then gone + 1 else gone,
                              t.(kids := Resettle(t.kids, k - gone, o)), s, hook))
    else
      var o := FixedStep(ps[k], t, s, hook);
      Then(o.sent, o.hooked, FixedChildrenSteps(ps, k + 1, gone, o.tree, o.slot, hook))
  }

  /** The keys the `on_mount` hook hears of while a list of patches is applied, when they are all removals. */
  function RemovedKeys<M>(ps: seq<Patch<M>>, hook: bool): (r: seq<string>)
    ensures !hook ==> r == []
    ensures |r| <= |ps|
  {
    if ps == [] then []
    else (if hook && ps[0].Remove? && ps[0].key.Some? then [ps[0].key.value] else []) + RemovedKeys(ps[1..], hook)
  }

  // ----- dropping trailing children -----

  /** Child patches that keep the first `m` children as they are and remove the rest. */
  predicate Truncating<M>(ps: seq<Patch<M>>, m: nat) {
    && m <= |ps|
    && (forall i :: 0 <= i < m ==> Applicable(ps[i]) && Quiet(ps[i]))
    && (forall i :: m <= i < |ps| ==> ps[i].Remove?)
  }

  /** A quiet patch on child `k` leaves the children as they are (under either semantics). */
  lemma {:induction false} QuietFixedStepIsIdentity<M>(p: Patch<M>, t: Tree<M>, s: Slot<M>, hook: bool)
    requires Applicable(p) && Quiet(p)
    ensures FixedStep(p, t, s, hook) == Outcome(t, s, [], [])
    decreases p, 1
  {
    if p.Update? {
      QuietFixedChildrenStepsAreIdentity(p.children, 0, 0, t, s, hook);
    }
  }

  lemma {:induction false} QuietFixedChildrenStepsAreIdentity<M>(ps: seq<Patch<M>>, k: nat, gone: nat, t: Tree<M>, s: Slot<M>, hook: bool)
    requires gone <= k <= |ps| && forall i :: 0 <= i < |ps| ==> Applicable(ps[i]) && Quiet(ps[i])
    ensures FixedChildrenSteps(ps, k, gone, t, s, hook) == Outcome(t, s, [], [])
    decreases ps, 0, |ps| - k
  {
    if k < |ps| {
      if k - gone < |t.kids| {
        QuietFixedStepIsIdentity(ps[k], t.kids[k - gone], Attached, hook);
        assert t.(kids := t.kids[k - gone := t.kids[k - gone]]) == t;
        QuietFixedChildrenStepsAreIdentity(ps, k + 1, gone, t, s, hook);
      } else {
        QuietFixedStepIsIdentity(ps[k], t, s, hook);
        QuietFixedChildrenStepsAreIdentity(ps, k + 1, gone, t, s, hook);
      }
    }
  }

  /**
   * Corrected: the removals from `k` on take away exactly the children after
   * the first `m`, and the parent keeps its place.
   */
  lemma {:induction false} FixedRemovalsFrom<M>(ps: seq<Patch<M>>, m: nat, k: nat, t: Tree<M>, s: Slot<M>, hook: bool)
    requires Truncating(ps, m) && m <= k <= |ps| && |t.kids| == m + |ps| - k
    ensures FixedChildrenSteps(ps, k, k - m, t, s, hook) == Outcome(t.(kids := t.kids[..m]), s, [], RemovedKeys(ps[k..], hook))
    decreases |ps| - k
  {
    if k == |ps| {
      assert t.kids[..m] == t.kids;
    } else {
      var t' := t.(kids := RemoveAt(t.kids, m));
      FixedRemovalStep(ps, m, k, t, s, hook);
      FixedRemovalsFrom(ps, m, k + 1, t', s, hook);
      assert t'.kids[..m] == t.kids[..m];
      assert ps[k..][0] == ps[k] && ps[k..][1..] == ps[k + 1..];
    }
  }

  /** Corrected: one trailing removal detaches the child at index `m` and tells the hook of its key. */
  lemma FixedRemovalStep<M>(ps: seq<Patch<M>>, m: nat, k: nat, t: Tree<M>, s: Slot<M>, hook: bool)
    requires Truncating(ps, m) && m <= k < |ps| && |t.kids| == m + |ps| - k
    ensures FixedChildrenSteps(ps, k, k - m, t, s, hook)
         == Then([], if hook && ps[k].key.Some? then [ps[k].key.value] else [],
                 FixedChildrenSteps(ps, k + 1, k + 1 - m, t.(kids := RemoveAt(t.kids, m)), s, hook))
  {
    var o := FixedStep(ps[k], t.kids[m], Attached, hook);
    assert o == Outcome(t.kids[m], Detached, [], if hook && ps[k].key.Some? then [ps[k].key.value] else []);
  }

  /** Corrected: the quiet prefix leaves the children alone. */
  lemma {:induction false} FixedQuietPrefix<M>(ps: seq<Patch<M>>, m: nat, k: nat, t: Tree<M>, s: Slot<M>, hook: bool)
    requires Truncating(ps, m) && k <= m && |t.kids| == |ps|
    ensures FixedChildrenSteps(ps, k, 0, t, s, hook) == FixedChildrenSteps(ps, m, 0, t, s, hook)
    decreases m - k
  {
    if k < m {
      QuietFixedStepIsIdentity(ps[k], t.kids[k], Attached, hook);
      assert t.(kids := t.kids[k := t.kids[k]]) == t;
      FixedQuietPrefix(ps, m, k + 1, t, s, hook);
    }
  }

  /**
   * Corrected: truncating child patches applied to an element with one child
   * per patch leave the first `m` children, keep the element in its place,
   * send nothing, and tell the hook of each removed key in order.
   */
  lemma FixedTruncation<M>(ps: seq<Patch<M>>, m: nat, t: Tree<M>, s: Slot<M>, hook: bool)
    requires Truncating(ps, m) && |t.kids| == |ps|
    requires forall i :: m <= i < |ps| ==> Applicable(ps[i])
    ensures FixedChildrenSteps(ps, 0, 0, t, s, hook) == Outcome(t.(kids := t.kids[..m]), s, [], RemovedKeys(ps[m..], hook))
  {
    FixedQuietPrefix(ps, m, 0, t, s, hook);
    FixedRemovalsFrom(ps, m, m, t, s, hook);
  }

  /**
   * As written: while the remaining removals outnumber half the children
   * still ahead of the index, some removal finds no child at its index and
   * detaches the parent.
   */
  lemma {:induction false} RemovalsRunPastEnd<M>(ps: seq<Patch<M>>, k: nat, t: Tree<M>, s: Slot<M>, hook: bool)
    requires k < |ps| && forall i :: k <= i < |ps| ==> ps[i].Remove?
    requires forall i :: 0 <= i < |ps| ==> Applicable(ps[i])
    requires s.Attached? && 2 * (|ps| - k) >= |t.kids| - k + 2
    ensures ChildrenSteps(ps, k, t, s, hook).slot == Detached
    decreases |ps| - k
  {
    if k < |t.kids| {
      var o := Step(ps[k], t.kids[k], Attached, hook);
      RemovalsRunPastEnd(ps, k + 1, t.(kids := RemoveAt(t.kids, k)), s, hook);
    }
  }

  /** As written: the quiet prefix leaves the children alone. */
  lemma {:induction false} QuietPrefix<M>(ps: seq<Patch<M>>, m: nat, k: nat, t: Tree<M>, s: Slot<M>, hook: bool)
    requires Truncating(ps, m) && k <= m && |t.kids| == |ps|
    requires forall i :: 0 <= i < |ps| ==> Applicable(ps[i])
    ensures ChildrenSteps(ps, k, t, s, hook) == ChildrenSteps(ps, m, t, s, hook)
    decreases m - k
  {
    if k < m {
      QuietStepIsIdentity(ps[k], t.kids[k], Attached, hook);
      assert t.(kids := t.kids[k := t.kids[k]]) == t;
      QuietPrefix(ps, m, k + 1, t, s, hook);
    }
  }

  /**
   * As written: truncating child patches that remove two or more children
   * detach the element they are applied to from its parent.
   */
  lemma AsWrittenTruncationDetaches<M>(ps: seq<Patch<M>>, m: nat, t: Tree<M>, hook: bool)
    requires Truncating(ps, m) && |t.kids| == |ps| && m + 2 <= |ps|
    requires forall i :: 0 <= i < |ps| ==> Applicable(ps[i])
    ensures ChildrenSteps(ps, 0, t, Attached, hook).slot == Detached
  {
    QuietPrefix(ps, m, 0, t, Attached, hook);
    RemovalsRunPastEnd(ps, m, t, Attached, hook);
  }

  // ----- the round trip through the differ -----

  /** The rendered elements of a list of node children. */
  function RenderedEach<M>(cs: seq<Html<M>>): (r: seq<Tree<M>>)
    requires forall i :: 0 <= i < |cs| ==> cs[i].Node? && RenderableHtml(cs[i])
    ensures |r| == |cs| && forall i :: 0 <= i < |cs| ==> r[i] == Rendered(cs[i])
  {
    seq(|cs|, i requires 0 <= i < |cs| => Rendered(cs[i]))
  }

  /** The rendered elements of node children, the last one split off. */
  lemma RenderedEachSnoc<M>(cs: seq<Html<M>>)
    requires cs != [] && forall i :: 0 <= i < |cs| ==> cs[i].Node? && RenderableHtml(cs[i])
    ensures RenderedEach(cs) == RenderedEach(cs[..|cs| - 1]) + [Rendered(cs[|cs| - 1])]
  {
    var e, f := RenderedEach(cs), RenderedEach(cs[..|cs| - 1]) + [Rendered(cs[|cs| - 1])];
    assert |e| == |f|;
    forall i | 0 <= i < |e|
      ensures e[i] == f[i]
    {
    }
  }

  /** Rendering node children only appends their elements. */
  lemma {:induction false} NodeChildrenOnto<M>(t: Tree<M>, cs: seq<Html<M>>)
    requires forall i :: 0 <= i < |cs| ==> cs[i].Node? && RenderableHtml(cs[i])
    ensures ChildrenOnto(t, cs) == t.(kids := t.kids + RenderedEach(cs))
    decreases |cs|
  {
    if cs != [] {
      var k := |cs| - 1;
      NodeChildrenOnto(t, cs[..k]);
      var u := ChildrenOnto(t, cs[..k]);
      assert ChildrenOnto(t, cs) == u.(kids := u.kids + [Rendered(cs[k])]);
      RenderedEachSnoc(cs);
      assert u.kids + [Rendered(cs[k])] == t.kids + RenderedEach(cs);
    }
  }

  /** A node whose children are all nodes, and that has at least `m` of them. */
  predicate Truncatable<M>(prev: Html<M>, m: nat) {
    && prev.Node? && RenderableHtml(prev)
    && (forall i :: 0 <= i < |prev.children| ==> prev.children[i].Node?)
    && m <= |prev.children|
  }

  /** The same node keeping only its first `m` children. */
  function Truncated<M>(prev: Html<M>, m: nat): (next: Html<M>)
    requires Truncatable(prev, m)
    ensures next.Node? && next.tag == prev.tag && next.key == prev.key && next.attributes == prev.attributes
    ensures next.children == prev.children[..m] && RenderableHtml(next)
  {
    prev.(children := prev.children[..m])
  }

  /** The differ turns dropping trailing children into a truncating patch. */
  lemma DiffOfTruncation<M>(prev: Html<M>, m: nat)
    requires Truncatable(prev, m)
    ensures DomDiff.Diff(prev, Truncated(prev, m)) == Nothing || DomDiff.Diff(prev, Truncated(prev, m)) == Update(DomDiff.DiffChildren(prev.children, Truncated(prev, m).children), [])
    ensures |DomDiff.DiffChildren(prev.children, Truncated(prev, m).children)| == |prev.children|
    ensures Truncating(DomDiff.DiffChildren(prev.children, Truncated(prev, m).children), m)
    ensures Applicable(DomDiff.Diff(prev, Truncated(prev, m)))
    ensures DomDiff.Diff(prev, Truncated(prev, m)) == Nothing <==> prev.children == []
  {
    var next := Truncated(prev, m);
    var cs := DomDiff.DiffChildren(prev.children, next.children);
    DomDiff.DiffChildrenAt(prev.children, next.children);
    DomDiff.DiffAttrsEmptyIff(prev.attributes, next.attributes);
    forall i | 0 <= i < m
      ensures Applicable(cs[i]) && Quiet(cs[i])
    {
      DomDiff.DiffSelfIsQuiet(prev.children[i]);
      DomDiff.DiffApplicable(prev.children[i], prev.children[i]);
    }
    DomDiff.DiffApplicable(prev, next);
    if prev.children == [] {
      assert next == prev;
      DomDiff.DiffSelfIsQuiet(prev);
    }
  }

  /** The rendered truncated node is the rendered node keeping its first `m` child elements. */
  lemma RenderedTruncated<M>(prev: Html<M>, m: nat)
    requires Truncatable(prev, m)
    ensures |Rendered(prev).kids| == |prev.children|
    ensures Rendered(Truncated(prev, m)) == Rendered(prev).(kids := Rendered(prev).kids[..m])
  {
    var next := Truncated(prev, m);
    var a := AttrsOnto(Blank(prev.tag), prev.attributes);
    NodeChildrenOnto(a, prev.children);
    NodeChildrenOnto(a, next.children);
    assert RenderedEach(next.children) == RenderedEach(prev.children)[..m];
  }

  /**
   * Corrected round trip: patching the rendered previous document with the
   * diff of dropping its trailing children yields the rendered next document,
   * still in its place; the hook hears of each removed key, in order.
   */
  lemma FixedTruncationRoundTrip<M>(prev: Html<M>, m: nat, hook: bool)
    requires Truncatable(prev, m)
    ensures Applicable(DomDiff.Diff(prev, Truncated(prev, m)))
    ensures var o := FixedStep(DomDiff.Diff(prev, Truncated(prev, m)), Rendered(prev), Attached, hook);
      && o.tree == Rendered(Truncated(prev, m)) && o.slot == Attached && o.sent == []
      && o.hooked == RemovedKeys(DomDiff.DiffChildren(prev.children, Truncated(prev, m).children)[m..], hook)
  {
    var next := Truncated(prev, m);
    RenderedTruncated(prev, m);
    DiffOfTruncation(prev, m);
    var t := Rendered(prev);
    if prev.children == [] {
      assert t.kids[..m] == t.kids;
    } else {
      var cs := DomDiff.DiffChildren(prev.children, next.children);
      FixedTruncation(cs, m, t, Attached, hook);
      assert FixedStep(Update(cs, []), t, Attached, hook) == FixedChildrenSteps(cs, 0, 0, t, Attached, hook);
    }
  }

  /**
   * As written: the same patch, when it drops two or more children, detaches
   * the rendered previous document from its parent.
   */
  lemma AsWrittenTruncationFails<M>(prev: Html<M>, m: nat, hook: bool)
    requires Truncatable(prev, m) && m + 2 <= |prev.children|
    ensures Applicable(DomDiff.Diff(prev, Truncated(prev, m)))
    ensures Step(DomDiff.Diff(prev, Truncated(prev, m)), Rendered(prev), Attached, hook).slot == Detached
  {
    var next := Truncated(prev, m);
    RenderedTruncated(prev, m);
    DiffOfTruncation(prev, m);
    AsWrittenTruncationDetaches(DomDiff.DiffChildren(prev.children, next.children), m, Rendered(prev), hook);
  }

  /** The smallest instance: three empty paragraphs cut down to one give one quiet patch and two removals. */
  lemma ThreeParagraphsDiff<M>()
    ensures var p := Node("p", None, [], []);
      DomDiff.Diff<M>(Node("div", None, [], [p, p, p]), Node("div", None, [], [p]))
        == Update([Nothing, Remove(None), Remove(None)], [])
  {
    var p: Html<M> := Node("p", None, [], []);
    DomDiff.DiffChildrenAt<M>([p, p, p], [p]);
    DomDiff.DiffAttrsEmptyIff<M>([], []);
    DomDiff.DiffNothingIff(p, p);
  }

  /** On that instance the patcher as written detaches the element; the corrected one keeps it in place. */
  lemma ThreeParagraphsToOne<M>(hook: bool)
    ensures var p := Node("p", None, [], []);
      var prev: Html<M> := Node("div", None, [], [p, p, p]);
      var next: Html<M> := Node("div", None, [], [p]);
      && Applicable(DomDiff.Diff(prev, next))
      && Step(DomDiff.Diff(prev, next), Rendered(prev), Attached, hook).slot == Detached
      && FixedStep(DomDiff.Diff(prev, next), Rendered(prev), Attached, hook).slot == Attached
  {
    var p: Html<M> := Node("p", None, [], []);
    var prev: Html<M> := Node("div", None, [], [p, p, p]);
    assert Node("div", None, [], [p]) == Truncated(prev, 1);
    AsWrittenTruncationFails(prev, 1, hook);
    FixedTruncationRoundTrip(prev, 1, hook);
  }
}
