/**
 * The older differ of the roko-render crate (crates/roko-render/src/diff.rs).
 *
 * It has the same shape as the positional differ of roko-dom, but each list
 * diff first takes the leading `min(|prev|, |next|)` elements off BOTH lists
 * and only then zips what is left. One of the two remainders is always empty,
 * so no pair is ever diffed: the leading new elements are all added, as many
 * `Remove`s follow, and elements beyond the shorter length produce no patch.
 * Its `Remove` carries no key (crates/roko-render/src/patch.rs:11-17); its
 * attribute patches are those of roko-dom.
 */
module LegacyDiff {
  import opened Wrappers
  import opened RokoHtml
  import DomPatch
  import DomDiff

  datatype Patch<M> =
    | Add(html: Html<M>)
    | Replace(html: Html<M>)
    | Update(children: seq<Patch<M>>, attrs: seq<DomPatch.AttrPatch<M>>)
    | Remove
    | Nothing

  function Min(a: nat, b: nat): nat { if a <= b then a else b }

  // ----- the differ as written -----

  function Diff<M(==)>(prev: Html<M>, next: Html<M>): (r: Patch<M>)
    ensures !r.Add? && !r.Remove?
    ensures r.Replace? ==> r.html == next
    ensures r.Update? ==> prev.Node? && next.Node? && prev.tag == next.tag
    decreases prev, 2
  {
    match (prev, next)
    case (Node(_, _, _, _), Text(_)) => Replace(next)
    case (Text(_), Node(_, _, _, _)) => Replace(next)
    case (Text(a), Text(b)) => if a == b then Nothing else Replace(next)
    case (Node(tag, _, attributes, children), Node(tag', _, attributes', children')) =>
      if tag != tag' then Replace(next)
      else
        var cs := DiffChildren(children, children');
        var ats := DiffAttrs(attributes, attributes');
        if cs == [] && ats == [] then Nothing else Update(cs, ats)
  }

  /** The `zip` of what is left after `m` elements were taken off both lists: the diff of each pair, in order. */
  function ZipFrom<M(==)>(prev: seq<Html<M>>, next: seq<Html<M>>, m: nat): (r: seq<Patch<M>>)
    requires m <= |prev| && m <= |next|
    ensures |r| == Min(|prev| - m, |next| - m)
    ensures m == Min(|prev|, |next|) ==> r == []
    decreases prev, 0
  {
    seq(Min(|prev| - m, |next| - m), k requires 0 <= k < Min(|prev| - m, |next| - m) => Diff(prev[m + k], next[m + k]))
  }

  /**
   * `Diff for Vec<Html>`: the zipped diffs of what is left after `m` elements
   * were taken off both lists, then an `Add` per taken new child, then a
   * `Remove` per taken old child.
   */
  function DiffChildren<M(==)>(prev: seq<Html<M>>, next: seq<Html<M>>): (r: seq<Patch<M>>)
    ensures |r| == 2 * Min(|prev|, |next|)
    ensures forall i :: 0 <= i < |r| ==> (r[i].Add? <==> i < Min(|prev|, |next|)) && (r[i].Remove? <==> i >= Min(|prev|, |next|))
    decreases prev, 1
  {
    var m := Min(|prev|, |next|);
    ZipFrom(prev, next, m)
      + seq(m, i requires 0 <= i < m => Add(next[i]))
      + seq(m, _ => Remove)
  }

  /**
   * `Diff for Vec<Attribute>`: the changed pairs of what is left after `m`
   * attributes were taken off both lists, then an `Add` per taken new
   * attribute, then a `Remove` per taken old attribute.
   */
  function DiffAttrs<M(==)>(prev: seq<Attribute<M>>, next: seq<Attribute<M>>): (r: seq<DomPatch.AttrPatch<M>>)
    ensures |r| == 2 * Min(|prev|, |next|)
    ensures forall i :: 0 <= i < |r| ==> (r[i].AddAttr? <==> i < Min(|prev|, |next|))
  {
    var m := Min(|prev|, |next|);
    var z := Min(|prev| - m, |next| - m);
    DomDiff.ChangedPairs(prev[m..m + z], next[m..m + z])
      + seq(m, i requires 0 <= i < m => DomPatch.AddAttr(next[i]))
      + seq(m, i requires 0 <= i < m => DomPatch.RemoveAttr(prev[i]))
  }

  // ----- the loops of the source, proved to compute the functions above -----

  /** `Diff for Vec<Html>` as the source runs it: take, zip the rest, then extend. */
  method CollectChildPatches<M(==)>(prev: seq<Html<M>>, next: seq<Html<M>>) returns (patches: seq<Patch<M>>)
    ensures patches == DiffChildren(prev, next)
  {
    var m := Min(|prev|, |next|);
    var added := next[..m];
    var removed := prev[..m];
    patches := ZipDiffs(prev, next, m);
    ghost var zipped := patches;
    var j := 0;
    while j < |added|
      invariant 0 <= j <= m
      invariant patches == zipped + seq(j, k requires 0 <= k < j => Add(next[k]))
    {
      patches := patches + [Add(added[j])];
      j := j + 1;
    }
    ghost var adds := patches;
    j := 0;
    while j < |removed|
      invariant 0 <= j <= m
      invariant patches == adds + seq(j, _ => Remove)
    {
      patches := patches + [Remove];
      j := j + 1;
    }
  }

  /** `Diff for Vec<Attribute>` as the source runs it. */
  method CollectAttrPatches<M(==)>(prev: seq<Attribute<M>>, next: seq<Attribute<M>>) returns (patches: seq<DomPatch.AttrPatch<M>>)
    ensures patches == DiffAttrs(prev, next)
  {
    var m := Min(|prev|, |next|);
    var added := next[..m];
    var removed := prev[..m];
    patches := ZipChangedAttrs(prev, next, m);
    patches := ExtendAttrs(patches, added, true);
    patches := ExtendAttrs(patches, removed, false);
  }

  /** `extend` with the taken attributes: an `Add` for each when `adding`, a `Remove` for each otherwise. */
  method ExtendAttrs<M>(patches: seq<DomPatch.AttrPatch<M>>, taken: seq<Attribute<M>>, adding: bool)
    returns (extended: seq<DomPatch.AttrPatch<M>>)
    ensures |extended| == |patches| + |taken| && extended[..|patches|] == patches
    ensures adding ==> extended == patches + seq(|taken|, k requires 0 <= k < |taken| => DomPatch.AddAttr(taken[k]))
    ensures !adding ==> extended == patches + seq(|taken|, k requires 0 <= k < |taken| => DomPatch.RemoveAttr(taken[k]))
  {
    extended := patches;
    var j := 0;
    while j < |taken|
      invariant 0 <= j <= |taken|
      invariant adding ==> extended == patches + seq(j, k requires 0 <= k < j => DomPatch.AddAttr(taken[k]))
      invariant !adding ==> extended == patches + seq(j, k requires 0 <= k < j => DomPatch.RemoveAttr(taken[k]))
    {
      extended := extended + [if adding then DomPatch.AddAttr(taken[j]) else DomPatch.RemoveAttr(taken[j])];
      j := j + 1;
    }
  }

  /** The `zip` loop of `Diff for Vec<Html>` over what is left after `m` elements were taken off both lists. */
  method ZipDiffs<M(==)>(prev: seq<Html<M>>, next: seq<Html<M>>, m: nat) returns (patches: seq<Patch<M>>)
    requires m <= |prev| && m <= |next|
    ensures patches == ZipFrom(prev, next, m)
  {
    patches := [];
    var i := m;
    while i < |prev| && i < |next|
      invariant m <= i <= |prev| && i <= |next|
      invariant patches == seq(i - m, k requires 0 <= k < i - m => Diff(prev[m + k], next[m + k]))
    {
      patches := patches + [Diff(prev[i], next[i])];
      i := i + 1;
    }
  }

  /**
   * The `zip` loop of `Diff for Vec<Attribute>` over what is left after `m`
   * attributes were taken off both lists: each differing pair gives
   * `Remove(old)` then `Add(new)`.
   */
  method ZipChangedAttrs<M(==)>(prev: seq<Attribute<M>>, next: seq<Attribute<M>>, m: nat) returns (patches: seq<DomPatch.AttrPatch<M>>)
    requires m <= |prev| && m <= |next|
    ensures var z := Min(|prev| - m, |next| - m);
      patches == DomDiff.ChangedPairs(prev[m..m + z], next[m..m + z])
  {
    var z := Min(|prev| - m, |next| - m);
    patches := [];
    var i := 0;
    while i < z
      invariant 0 <= i <= z
      invariant patches == DomDiff.ChangedPairs(prev[m..m + i], next[m..m + i])
    {
      if prev[m + i] != next[m + i] {
        patches := patches + [DomPatch.RemoveAttr(prev[m + i])];
        patches := patches + [DomPatch.AddAttr(next[m + i])];
      }
      assert prev[m..m + i + 1][..i] == prev[m..m + i] && next[m..m + i + 1][..i] == next[m..m + i];
      i := i + 1;
    }
  }

  // ----- properties -----

  /**
   * The child diff never compares two children: it is `Add(next[i])` for each
   * i below the shorter length, followed by as many `Remove`s; children beyond
   * the shorter length, in either list, produce no patch.
   */
  lemma DiffChildrenShape<M>(prev: seq<Html<M>>, next: seq<Html<M>>)
    ensures var m := Min(|prev|, |next|);
      && |DiffChildren(prev, next)| == 2 * m
      && (forall i :: 0 <= i < m ==> DiffChildren(prev, next)[i] == Add(next[i]))
      && (forall i :: m <= i < 2 * m ==> DiffChildren(prev, next)[i] == Remove)
  {
    var m := Min(|prev|, |next|);
    assert Min(|prev| - m, |next| - m) == 0;
  }

  /**
   * The attribute diff is `Add(next[i])` for each i below the shorter length,
   * then `Remove(prev[i])` for the same positions, equal or not.
   */
  lemma DiffAttrsShape<M>(prev: seq<Attribute<M>>, next: seq<Attribute<M>>)
    ensures var m := Min(|prev|, |next|);
      && |DiffAttrs(prev, next)| == 2 * m
      && (forall i :: 0 <= i < m ==> DiffAttrs(prev, next)[i] == DomPatch.AddAttr(next[i]))
      && (forall i :: 0 <= i < m ==> DiffAttrs(prev, next)[m + i] == DomPatch.RemoveAttr(prev[i]))
  {
    var m := Min(|prev|, |next|);
    assert Min(|prev| - m, |next| - m) == 0;
    assert DomDiff.ChangedPairs(prev[m..m], next[m..m]) == [];
  }

  /** The replacement cases: a kind mismatch, unequal texts, or a tag change; the replacement is the next tree. */
  lemma DiffReplaceIff<M>(prev: Html<M>, next: Html<M>)
    ensures Diff(prev, next).Replace? <==>
      || prev.Text? != next.Text?
      || (prev.Text? && next.Text? && prev.text != next.text)
      || (prev.Node? && next.Node? && prev.tag != next.tag)
    ensures Diff(prev, next).Replace? ==> Diff(prev, next).html == next
  {
  }

  /**
   * Same-tag nodes give `Nothing` exactly when one of the child lists and one
   * of the attribute lists is empty; otherwise an `Update` holding only the
   * leading adds and removes, never a nested patch.
   */
  lemma SameTagDiff<M>(prev: Html<M>, next: Html<M>)
    requires prev.Node? && next.Node? && prev.tag == next.tag
    ensures var c := Min(|prev.children|, |next.children|);
      var a := Min(|prev.attributes|, |next.attributes|);
      && (Diff(prev, next) == Nothing <==> c == 0 && a == 0)
      && (Diff(prev, next).Update? ==>
            && |Diff(prev, next).children| == 2 * c && |Diff(prev, next).attrs| == 2 * a
            && forall i :: 0 <= i < 2 * c ==> Diff(prev, next).children[i].Add? || Diff(prev, next).children[i].Remove?)
  {
    DiffChildrenShape(prev.children, next.children);
    DiffAttrsShape(prev.attributes, next.attributes);
  }

  /**
   * A tree with children is never found equal to itself: its children are
   * all added again and as many removed, where the roko-dom differ finds
   * nothing to change.
   */
  lemma SelfDiffRebuilds<M>(t: Html<M>)
    requires t.Node? && t.children != []
    ensures Diff(t, t).Update? && |Diff(t, t).children| == 2 * |t.children|
    ensures Diff(t, t).children[0] == Add(t.children[0])
    ensures DomPatch.Quiet(DomDiff.Diff(t, t))
  {
    SameTagDiff(t, t);
    DiffChildrenShape(t.children, t.children);
    DomDiff.DiffSelfIsQuiet(t);
  }

  /**
   * One changed text child: the roko-dom differ replaces it in place, the
   * older differ adds the new text and removes one element.
   */
  lemma ChangedTextChild<M>(tag: string)
    ensures Diff<M>(Node(tag, None, [], [Text("a")]), Node(tag, None, [], [Text("b")]))
         == Update([Add(Text("b")), Remove], [])
    ensures DomDiff.Diff<M>(Node(tag, None, [], [Text("a")]), Node(tag, None, [], [Text("b")]))
         == DomPatch.Update([DomPatch.Replace(Text("b"))], [])
  {
    DiffChildrenShape<M>([Text("a")], [Text("b")]);
    DiffAttrsShape<M>([], []);
    DomDiff.DiffChildrenAt<M>([Text("a")], [Text("b")]);
    DomDiff.DiffAttrsEmptyIff<M>([], []);
  }
}
