/**
 * The positional differ (crates/roko-dom/src/diff.rs): a total function from
 * the previous and the next virtual document to a patch script.
 *
 * Children and attributes are matched by position. The child patch list keeps
 * one entry per position, `Nothing` included, so that entry i addresses the
 * i-th live child when the patcher walks it.
 */
module DomDiff {
  import opened Wrappers
  import opened RokoHtml
  import opened Host
  import opened DomRender
  import opened DomPatch

  function Min(a: nat, b: nat): nat { if a <= b then a else b }
  function Max(a: nat, b: nat): nat { if a <= b then b else a }

  /** The identity key a `Remove` patch carries for the removed previous child. */
  function KeyOf<M>(h: Html<M>): Option<string> {
    if h.Node? then h.key else None
  }

  // ----- Diff for Html -----

  function Diff<M(==)>(prev: Html<M>, next: Html<M>): (r: Patch<M>)
    ensures !r.Add? && !r.Remove?
    ensures r.Replace? ==> r.html == next
    ensures r.Update? ==> prev.Node? && next.Node? && prev.tag == next.tag
    decreases prev, 1
  {
    match (prev, next)
    case (Node(_, _, _, _), Text(_)) => Replace(next)
    case (Text(_), Node(_, _, _, _)) => Replace(next)
    case (Text(a), Text(b)) => if a == b then Nothing else Replace(next)
    case (Node(tag, _, attributes, children), Node(tag', _, attributes', children')) =>
      if tag != tag' then Replace(next)
      else
        var cs := DiffChildren(children, children');
        var ats := DiffAttrs(attributes, attributes');
        if cs == [] && ats == [] then Nothing else Update(cs, ats)
  }

  // ----- Diff for Vec<Html> -----

  /** One `Add` per surplus next child, in order. */
  function AddEach<M>(hs: seq<Html<M>>): (r: seq<Patch<M>>)
    ensures |r| == |hs| && forall i :: 0 <= i < |hs| ==> r[i] == Add(hs[i])
  {
    seq(|hs|, i requires 0 <= i < |hs| => Add(hs[i]))
  }

  /** One `Remove` per surplus previous child, carrying that child's key. */
  function RemoveEach<M>(hs: seq<Html<M>>): (r: seq<Patch<M>>)
    ensures |r| == |hs| && forall i :: 0 <= i < |hs| ==> r[i] == Remove(KeyOf(hs[i]))
  {
    seq(|hs|, i requires 0 <= i < |hs| => Remove(KeyOf(hs[i])))
  }

  function DiffChildren<M(==)>(prev: seq<Html<M>>, next: seq<Html<M>>): (r: seq<Patch<M>>)
    ensures |r| == Max(|prev|, |next|)
    decreases prev, 0
  {
    var m := Min(|prev|, |next|);
    seq(m, i requires 0 <= i < m => Diff(prev[i], next[i])) + AddEach(next[m..]) + RemoveEach(prev[m..])
  }

  // ----- Diff for Vec<Attribute> -----

  /** The patches of the zipped prefix: a differing pair gives `Remove(prev)` then `Add(next)`. */
  function ChangedPairs<M(==)>(prev: seq<Attribute<M>>, next: seq<Attribute<M>>): (r: seq<AttrPatch<M>>)
    requires |prev| == |next|
    ensures |r| % 2 == 0 && |r| <= 2 * |prev|
    ensures forall i :: 0 <= i < |r| ==> (r[i].RemoveAttr? <==> i % 2 == 0)
    decreases |prev|
  {
    if prev == [] then []
    else
      var k := |prev| - 1;
      ChangedPairs(prev[..k], next[..k]) + (if prev[k] != next[k] then [RemoveAttr(prev[k]), AddAttr(next[k])] else [])
  }

  function DiffAttrs<M(==)>(prev: seq<Attribute<M>>, next: seq<Attribute<M>>): (r: seq<AttrPatch<M>>)
    ensures Max(|prev|, |next|) - Min(|prev|, |next|) <= |r| <= |prev| + |next|
  {
    var m := Min(|prev|, |next|);
    ChangedPairs(prev[..m], next[..m])
      + seq(|next| - m, i requires 0 <= i < |next| - m => AddAttr(next[m + i]))
      + seq(|prev| - m, i requires 0 <= i < |prev| - m => RemoveAttr(prev[m + i]))
  }

  // ----- the loops of the source, proved to compute the functions above -----

  /** `Diff for Vec<Html>` as the source runs it: push the zipped diffs, then extend with the surplus. */
  method CollectChildPatches<M(==)>(prev: seq<Html<M>>, next: seq<Html<M>>) returns (patches: seq<Patch<M>>)
    ensures patches == DiffChildren(prev, next)
  {
    var m := Min(|prev|, |next|);
    patches := [];
    var i := 0;
    while i < m
      invariant 0 <= i <= m
      invariant patches == seq(i, k requires 0 <= k < i => Diff(prev[k], next[k]))
    {
      patches := patches + [Diff(prev[i], next[i])];
      i := i + 1;
    }
    ghost var zipped := patches;
    var j := m;
    while j < |next|
      invariant m <= j <= |next|
      invariant patches == zipped + AddEach(next[m..j])
    {
      patches := patches + [Add(next[j])];
      assert AddEach(next[m..j + 1]) == AddEach(next[m..j]) + [Add(next[j])];
      j := j + 1;
    }
    ghost var added := patches;
    j := m;
    while j < |prev|
      invariant m <= j <= |prev|
      invariant patches == added + RemoveEach(prev[m..j])
    {
      patches := patches + [Remove(KeyOf(prev[j]))];
      assert RemoveEach(prev[m..j + 1]) == RemoveEach(prev[m..j]) + [Remove(KeyOf(prev[j]))];
      j := j + 1;
    }
  }

  /** `Diff for Vec<Attribute>` as the source runs it. */
  method CollectAttrPatches<M(==)>(prev: seq<Attribute<M>>, next: seq<Attribute<M>>) returns (patches: seq<AttrPatch<M>>)
    ensures patches == DiffAttrs(prev, next)
  {
    var m := Min(|prev|, |next|);
    patches := [];
    var i := 0;
    while i < m
      invariant 0 <= i <= m
      invariant patches == ChangedPairs(prev[..i], next[..i])
    {
      if prev[i] != next[i] {
        patches := patches + [RemoveAttr(prev[i])];
        patches := patches + [AddAttr(next[i])];
      }
      assert prev[..i + 1][..i] == prev[..i] && next[..i + 1][..i] == next[..i];
      i := i + 1;
    }
    ghost var paired := patches;
    var j := m;
    while j < |next|
      invariant m <= j <= |next|
      invariant patches == paired + seq(j - m, k requires 0 <= k < j - m => AddAttr(next[m + k]))
    {
      patches := patches + [AddAttr(next[j])];
      j := j + 1;
    }
    ghost var added := patches;
    j := m;
    while j < |prev|
      invariant m <= j <= |prev|
      invariant patches == added + seq(j - m, k requires 0 <= k < j - m => RemoveAttr(prev[m + k]))
    {
      patches := patches + [RemoveAttr(prev[j])];
      j := j + 1;
    }
  }

  // ----- properties -----

  /**
   * The child patch list has one entry per position of the longer list: the
   * zipped diffs (with `Nothing` kept), then an `Add` per surplus next child,
   * then a `Remove` per surplus previous child.
   */
  lemma DiffChildrenAt<M>(prev: seq<Html<M>>, next: seq<Html<M>>)
    ensures |DiffChildren(prev, next)| == Max(|prev|, |next|)
    ensures forall i :: 0 <= i < Min(|prev|, |next|) ==> DiffChildren(prev, next)[i] == Diff(prev[i], next[i])
    ensures forall i :: Min(|prev|, |next|) <= i < |next| ==> DiffChildren(prev, next)[i] == Add(next[i])
    ensures forall i :: Min(|prev|, |next|) <= i < |prev| ==> DiffChildren(prev, next)[i] == Remove(KeyOf(prev[i]))
  {
  }

  /** At most one of the surplus groups is present: a child list never gets both an `Add` and a `Remove`. */
  lemma SurplusIsOneSided<M>(prev: seq<Html<M>>, next: seq<Html<M>>, i: nat, j: nat)
    requires i < |DiffChildren(prev, next)| && j < |DiffChildren(prev, next)|
    requires DiffChildren(prev, next)[i].Add?
    ensures !DiffChildren(prev, next)[j].Remove?
  {
    DiffChildrenAt(prev, next);
  }

  /** Equal zipped prefixes produce no attribute patch, and differing ones produce some. */
  lemma {:induction false} ChangedPairsEmptyIff<M>(prev: seq<Attribute<M>>, next: seq<Attribute<M>>)
    requires |prev| == |next|
    ensures ChangedPairs(prev, next) == [] <==> prev == next
    decreases |prev|
  {
    if prev != [] {
      var k := |prev| - 1;
      ChangedPairsEmptyIff(prev[..k], next[..k]);
      if prev[..k] == next[..k] && prev[k] == next[k] {
        assert prev == prev[..k] + [prev[k]] && next == next[..k] + [next[k]];
      }
    }
  }

  /** The attribute diff is empty exactly when the two attribute lists are equal. */
  lemma DiffAttrsEmptyIff<M>(prev: seq<Attribute<M>>, next: seq<Attribute<M>>)
    ensures DiffAttrs(prev, next) == [] <==> prev == next
  {
    var m := Min(|prev|, |next|);
    ChangedPairsEmptyIff(prev[..m], next[..m]);
    if |prev| == |next| {
      assert prev[..m] == prev && next[..m] == next;
    }
  }

  /** Every attribute patch mentions an attribute of the list it came from. */
  lemma {:induction false} ChangedPairsFrom<M>(prev: seq<Attribute<M>>, next: seq<Attribute<M>>)
    requires |prev| == |next|
    ensures forall p :: p in ChangedPairs(prev, next) && p.RemoveAttr? ==> p.removed in prev
    ensures forall p :: p in ChangedPairs(prev, next) && p.AddAttr? ==> p.added in next
    decreases |prev|
  {
    if prev != [] {
      var k := |prev| - 1;
      ChangedPairsFrom(prev[..k], next[..k]);
      assert prev == prev[..k] + [prev[k]] && next == next[..k] + [next[k]];
    }
  }

  /** An attribute patch removes only previous attributes and adds only next ones. */
  lemma DiffAttrsFrom<M>(prev: seq<Attribute<M>>, next: seq<Attribute<M>>)
    ensures forall p :: p in DiffAttrs(prev, next) && p.RemoveAttr? ==> p.removed in prev
    ensures forall p :: p in DiffAttrs(prev, next) && p.AddAttr? ==> p.added in next
  {
    var m := Min(|prev|, |next|);
    ChangedPairsFrom(prev[..m], next[..m]);
    assert forall a :: a in prev[..m] ==> a in prev;
    assert forall a :: a in next[..m] ==> a in next;
  }

  /** The replacement cases: a kind mismatch, unequal texts, or a tag change; the replacement is the next tree. */
  lemma DiffReplaceIff<M>(prev: Html<M>, next: Html<M>)
    ensures Diff(prev, next).Replace? <==>
      || prev.Text? != next.Text?
      || (prev.Text? && next.Text? && prev.text != next.text)
      || (prev.Node? && next.Node? && prev.tag != next.tag)
    ensures Diff(prev, next).Replace? ==> Diff(prev, next).html == next
  {
  }

  /**
   * `Nothing` exactly for equal texts, and for same-tag nodes that both have no
   * children and have equal attribute lists (the key is not compared).
   */
  lemma DiffNothingIff<M>(prev: Html<M>, next: Html<M>)
    ensures Diff(prev, next) == Nothing <==>
      || (prev.Text? && next.Text? && prev.text == next.text)
      || (prev.Node? && next.Node? && prev.tag == next.tag
          && prev.children == [] && next.children == [] && prev.attributes == next.attributes)
  {
    if prev.Node? && next.Node? && prev.tag == next.tag {
      DiffAttrsEmptyIff(prev.attributes, next.attributes);
      DiffChildrenAt(prev.children, next.children);
    }
  }

  /**
   * Diffing a tree against itself adds, replaces and removes nothing anywhere:
   * `Nothing` for a text or a childless node, an all-quiet `Update` with one
   * entry per child otherwise.
   */
  lemma {:induction false} DiffSelfIsQuiet<M>(t: Html<M>)
    ensures Quiet(Diff(t, t))
    ensures Diff(t, t) == Nothing <==> (t.Text? || t.children == [])
    ensures t.Node? && t.children != [] ==>
      Diff(t, t) == Update(DiffChildren(t.children, t.children), [])
    decreases t
  {
    if t.Node? {
      DiffAttrsEmptyIff(t.attributes, t.attributes);
      DiffChildrenAt(t.children, t.children);
      forall i | 0 <= i < |t.children|
        ensures Quiet(DiffChildren(t.children, t.children)[i])
      {
        DiffSelfIsQuiet(t.children[i]);
      }
    }
  }

  /**
   * Inserting a child at the front is not detected: every following child is
   * diffed against its left neighbour and the last one is re-added.
   */
  lemma InsertAtFrontMisaligns<M>(tag: string, key: Option<string>, attrs: seq<Attribute<M>>, a: Html<M>, b: Html<M>, x: Html<M>)
    ensures Diff(Node(tag, key, attrs, [a, b]), Node(tag, key, attrs, [x, a, b]))
         == Update([Diff(a, x), Diff(b, a), Add(b)], [])
  {
    DiffAttrsEmptyIff(attrs, attrs);
    DiffChildrenAt([a, b], [x, a, b]);
  }

  /**
   * The patch between two trees that the renderer can build can be applied:
   * it adds and replaces only renderable subtrees and adds and removes only
   * attributes the patcher handles.
   */
  lemma {:induction false} DiffApplicable<M>(prev: Html<M>, next: Html<M>)
    requires RenderableHtml(prev) && RenderableHtml(next)
    ensures Applicable(Diff(prev, next))
    decreases prev
  {
    if prev.Node? && next.Node? && prev.tag == next.tag {
      var cs := DiffChildren(prev.children, next.children);
      DiffChildrenAt(prev.children, next.children);
      forall i | 0 <= i < |cs|
        ensures Applicable(cs[i])
      {
        if i < Min(|prev.children|, |next.children|) {
          DiffApplicable(prev.children[i], next.children[i]);
        }
      }
      var ats := DiffAttrs(prev.attributes, next.attributes);
      DiffAttrsFrom(prev.attributes, next.attributes);
      forall i | 0 <= i < |ats|
        ensures AttrApplicable(ats[i])
      {
        assert ats[i] in ats;
      }
    }
  }

  /** Patching with the diff of a tree against itself changes nothing, sends nothing and calls no hook. */
  lemma PatchOfSelfIsIdentity<M>(h: Html<M>, t: Tree<M>, s: Slot<M>, hook: bool)
    requires RenderableHtml(h)
    ensures Applicable(Diff(h, h)) && Step(Diff(h, h), t, s, hook) == Outcome(t, s, [], [])
  {
    DiffApplicable(h, h);
    DiffSelfIsQuiet(h);
    QuietStepIsIdentity(Diff(h, h), t, s, hook);
  }
}
