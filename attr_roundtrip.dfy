/**
 * Attribute patches and the round trip they are meant to complete
 * (crates/roko-dom/src/diff.rs and crates/roko-dom/src/patch.rs).
 *
 * The differ turns a changed attribute into `RemoveAttr(old)` followed by
 * `AddAttr(new)`, and the patcher applies the list in order, removing a named
 * attribute by setting it to the empty string. Two documents show that this
 * does not reproduce the rendering of the next document: a removed attribute
 * stays on the element with an empty value, and when two named attributes
 * swap places the later removal clears the value the earlier addition set.
 *
 * `FixedAttrSteps` is the intended patcher: all removals first, a named
 * attribute removed outright, then all additions in order. For elements whose
 * attributes are named and pairwise distinct, patching the rendering of the
 * previous attributes with it gives exactly the rendering of the next ones.
 */
module AttributeRoundTrip {
  import opened Wrappers
  import opened RokoHtml
  import opened Host
  import opened DomRender
  import opened DomPatch
  import DomDiff

  // ----- the attribute lists the round trip is stated for -----

  /** Only named attributes, each name at most once. */
  predicate NamedOnce<M>(attributes: seq<Attribute<M>>) {
    && (forall i :: 0 <= i < |attributes| ==> attributes[i].Custom?)
    && (forall i, j :: 0 <= i < j < |attributes| ==> attributes[i].name != attributes[j].name)
  }

  /** The names of the named attributes of a list. */
  function NameSet<M>(attributes: seq<Attribute<M>>): set<string>
    decreases |attributes|
  {
    if attributes == [] then {}
    else
      var k := |attributes| - 1;
      NameSet(attributes[..k]) + (if attributes[k].Custom? then {attributes[k].name} else {})
  }

  /** A name is in the name set exactly when some named attribute of the list carries it. */
  lemma {:induction false} NameSetMembers<M>(attributes: seq<Attribute<M>>)
    ensures forall i :: 0 <= i < |attributes| && attributes[i].Custom? ==> attributes[i].name in NameSet(attributes)
    ensures forall n :: n in NameSet(attributes) ==>
      exists i :: 0 <= i < |attributes| && attributes[i].Custom? && attributes[i].name == n
    decreases |attributes|
  {
    if attributes != [] {
      var k := |attributes| - 1;
      var front := attributes[..k];
      NameSetMembers(front);
      assert forall i :: 0 <= i < k ==> front[i] == attributes[i];
    }
  }

  /** Rendering distinct named attributes sets exactly those names, each to its value, and keeps the click handler. */
  lemma {:induction false} NamedAttrsOnto<M>(t: Tree<M>, attributes: seq<Attribute<M>>)
    requires NamedOnce(attributes)
    ensures AttrsOnto(t, attributes).onclick == t.onclick
    ensures AttrsOnto(t, attributes).attrs.Keys == t.attrs.Keys + NameSet(attributes)
    ensures forall i :: 0 <= i < |attributes| ==>
      attributes[i].name in AttrsOnto(t, attributes).attrs && AttrsOnto(t, attributes).attrs[attributes[i].name] == attributes[i].value
    decreases |attributes|
  {
    if attributes != [] {
      var k := |attributes| - 1;
      var front := attributes[..k];
      assert NamedOnce(front) by {
        assert forall i :: 0 <= i < k ==> front[i] == attributes[i];
      }
      NamedAttrsOnto(t, front);
      var last := attributes[k];
      var r := AttrsOnto(t, front);
      assert AttrsOnto(t, attributes).attrs == r.attrs[last.name := last.value];
      forall i | 0 <= i < k
        ensures attributes[i].name in AttrsOnto(t, attributes).attrs
        ensures AttrsOnto(t, attributes).attrs[attributes[i].name] == attributes[i].value
      {
        assert front[i] == attributes[i] && attributes[i].name != last.name;
      }
    }
  }

  // ----- the corrected patcher -----

  /** The names a patch list removes. */
  function RemovedNames<M>(aps: seq<AttrPatch<M>>): set<string>
    decreases |aps|
  {
    if aps == [] then {}
    else
      var k := |aps| - 1;
      RemovedNames(aps[..k]) + (if aps[k].RemoveAttr? && aps[k].removed.Custom? then {aps[k].removed.name} else {})
  }

  /** A name is removed exactly when a removal of a named attribute carries it. */
  lemma {:induction false} RemovedNamesMembers<M>(aps: seq<AttrPatch<M>>)
    ensures forall p :: p in aps && p.RemoveAttr? && p.removed.Custom? ==> p.removed.name in RemovedNames(aps)
    ensures forall n :: n in RemovedNames(aps) ==> exists p :: p in aps && p.RemoveAttr? && p.removed.Custom? && p.removed.name == n
    decreases |aps|
  {
    if aps != [] {
      var k := |aps| - 1;
      RemovedNamesMembers(aps[..k]);
      assert aps == aps[..k] + [aps[k]];
    }
  }

  /** The names a patch list adds. */
  function AddedNames<M>(aps: seq<AttrPatch<M>>): set<string>
    decreases |aps|
  {
    if aps == [] then {}
    else
      var k := |aps| - 1;
      AddedNames(aps[..k]) + (if aps[k].AddAttr? && aps[k].added.Custom? then {aps[k].added.name} else {})
  }

  /** A name is added exactly when an addition of a named attribute carries it. */
  lemma {:induction false} AddedNamesMembers<M>(aps: seq<AttrPatch<M>>)
    ensures forall p :: p in aps && p.AddAttr? && p.added.Custom? ==> p.added.name in AddedNames(aps)
    ensures forall n :: n in AddedNames(aps) ==> exists p :: p in aps && p.AddAttr? && p.added.Custom? && p.added.name == n
    decreases |aps|
  {
    if aps != [] {
      var k := |aps| - 1;
      AddedNamesMembers(aps[..k]);
      assert aps == aps[..k] + [aps[k]];
    }
  }

  /**
   * The removals of a patch list, in order: a named attribute is removed from
   * the element, a click handler is dropped, an unmount handler sends its message.
   */
  function Removals<M>(aps: seq<AttrPatch<M>>, t: Tree<M>): (r: (Tree<M>, seq<M>))
    requires forall i :: 0 <= i < |aps| ==> AttrApplicable(aps[i])
    ensures r.0.tag == t.tag && r.0.text == t.text && r.0.kids == t.kids
    ensures r.0.attrs == t.attrs - RemovedNames(aps)
    ensures (forall i :: 0 <= i < |aps| && aps[i].RemoveAttr? ==> aps[i].removed.Custom?) ==> r.0.onclick == t.onclick && r.1 == []
    decreases |aps|
  {
    if aps == [] then (t, [])
    else
      var k := |aps| - 1;
      var r := Removals(aps[..k], t);
      assert AttrApplicable(aps[k]);
      match aps[k]
      case AddAttr(_) => r
      case RemoveAttr(a) =>
        match a
        case OnClick(_) => (r.0.(onclick := None), r.1)
        case Custom(n, _) => (r.0.(attrs := r.0.attrs - {n}), r.1)
        case OnMount(_) => r
        case OnUnmount(m) => (r.0, r.1 + [m])
  }

  /** The additions of a patch list, rendered in order. */
  function Additions<M>(aps: seq<AttrPatch<M>>, t: Tree<M>): (r: Tree<M>)
    requires forall i :: 0 <= i < |aps| ==> AttrApplicable(aps[i])
    ensures r.tag == t.tag && r.text == t.text && r.kids == t.kids
    ensures (forall i :: 0 <= i < |aps| && aps[i].AddAttr? ==> aps[i].added.Custom?) ==> r.onclick == t.onclick
    decreases |aps|
  {
    if aps == [] then t
    else
      var k := |aps| - 1;
      var r := Additions(aps[..k], t);
      assert AttrApplicable(aps[k]);
      if aps[k].AddAttr? then AttrOnto(r, aps[k].added) else r
  }

  /** The corrected `apply_attributes`: every removal, then every addition. */
  function FixedAttrSteps<M>(aps: seq<AttrPatch<M>>, t: Tree<M>): (r: (Tree<M>, seq<M>))
    requires forall i :: 0 <= i < |aps| ==> AttrApplicable(aps[i])
    ensures r.0.tag == t.tag && r.0.text == t.text && r.0.kids == t.kids
    ensures (forall i :: 0 <= i < |aps| && aps[i].RemoveAttr? ==> aps[i].removed.Custom?) ==> r.1 == []
  {
    var removed := Removals(aps, t);
    (Additions(aps, removed.0), removed.1)
  }

  /**
   * Additions that agree with a target map: every added name ends up with its
   * target value, and the names nobody adds keep their values.
   */
  lemma {:induction false} AdditionsAgree<M>(aps: seq<AttrPatch<M>>, t: Tree<M>, target: map<string, string>)
    requires forall i :: 0 <= i < |aps| ==> AttrApplicable(aps[i])
    requires forall i :: 0 <= i < |aps| && aps[i].AddAttr? ==>
      aps[i].added.Custom? && aps[i].added.name in target && target[aps[i].added.name] == aps[i].added.value
    ensures Additions(aps, t).attrs.Keys == t.attrs.Keys + AddedNames(aps)
    ensures forall n :: n in AddedNames(aps) ==> n in target && Additions(aps, t).attrs[n] == target[n]
    ensures forall n :: n in t.attrs && n !in AddedNames(aps) ==> Additions(aps, t).attrs[n] == t.attrs[n]
    decreases |aps|
  {
    if aps != [] {
      var k := |aps| - 1;
      var front := aps[..k];
      assert forall i :: 0 <= i < k ==> front[i] == aps[i];
      AdditionsAgree(front, t, target);
    }
  }

  // ----- which attributes the differ removes and adds -----

  /** Previous attribute j has no equal counterpart at its position in the next list. */
  predicate Gone<M(==)>(prev: seq<Attribute<M>>, next: seq<Attribute<M>>, j: nat)
    requires j < |prev|
  {
    j >= |next| || prev[j] != next[j]
  }

  /** Next attribute j has no equal counterpart at its position in the previous list. */
  predicate Arrived<M(==)>(prev: seq<Attribute<M>>, next: seq<Attribute<M>>, j: nat)
    requires j < |next|
  {
    j >= |prev| || prev[j] != next[j]
  }

  /** Every differing pair of the zipped prefix is removed and added. */
  lemma {:induction false} ChangedPairsCover<M>(prev: seq<Attribute<M>>, next: seq<Attribute<M>>)
    requires |prev| == |next|
    ensures forall j :: 0 <= j < |prev| && prev[j] != next[j] ==>
      RemoveAttr(prev[j]) in DomDiff.ChangedPairs(prev, next) && AddAttr(next[j]) in DomDiff.ChangedPairs(prev, next)
    decreases |prev|
  {
    if prev != [] {
      var k := |prev| - 1;
      var prev', next' := prev[..k], next[..k];
      ChangedPairsCover(prev', next');
      assert forall j :: 0 <= j < k ==> prev'[j] == prev[j] && next'[j] == next[j];
    }
  }

  /** The zipped prefix removes only attributes of differing pairs. */
  lemma {:induction false} ChangedPairsRemoveOnlyChanged<M>(prev: seq<Attribute<M>>, next: seq<Attribute<M>>)
    requires |prev| == |next|
    ensures forall p :: p in DomDiff.ChangedPairs(prev, next) && p.RemoveAttr? ==>
      exists j :: 0 <= j < |prev| && prev[j] != next[j] && p.removed == prev[j]
    decreases |prev|
  {
    if prev != [] {
      var k := |prev| - 1;
      var prev', next' := prev[..k], next[..k];
      ChangedPairsRemoveOnlyChanged(prev', next');
      forall p | p in DomDiff.ChangedPairs(prev, next) && p.RemoveAttr?
        ensures exists j :: 0 <= j < |prev| && prev[j] != next[j] && p.removed == prev[j]
      {
        if p in DomDiff.ChangedPairs(prev', next') {
          var j :| 0 <= j < k && prev'[j] != next'[j] && p.removed == prev'[j];
          assert prev[j] != next[j] && p.removed == prev[j];
        } else {
          assert p.removed == prev[k];
        }
      }
    }
  }

  /** The attribute diff removes every gone attribute and adds every arrived one. */
  lemma DiffAttrsCover<M>(prev: seq<Attribute<M>>, next: seq<Attribute<M>>)
    ensures forall j :: 0 <= j < |prev| && Gone(prev, next, j) ==> RemoveAttr(prev[j]) in DomDiff.DiffAttrs(prev, next)
    ensures forall j :: 0 <= j < |next| && Arrived(prev, next, j) ==> AddAttr(next[j]) in DomDiff.DiffAttrs(prev, next)
  {
    var m := DomDiff.Min(|prev|, |next|);
    var prev', next' := prev[..m], next[..m];
    ChangedPairsCover(prev', next');
    var zipped := DomDiff.ChangedPairs(prev', next');
    var adds := seq(|next| - m, i requires 0 <= i < |next| - m => AddAttr(next[m + i]));
    var removes := seq(|prev| - m, i requires 0 <= i < |prev| - m => RemoveAttr(prev[m + i]));
    assert DomDiff.DiffAttrs(prev, next) == zipped + adds + removes;
    forall j | 0 <= j < |prev| && Gone(prev, next, j)
      ensures RemoveAttr(prev[j]) in zipped + adds + removes
    {
      if j < m {
        assert prev'[j] == prev[j] && next'[j] == next[j];
      } else {
        assert removes[j - m] == RemoveAttr(prev[j]);
      }
    }
    forall j | 0 <= j < |next| && Arrived(prev, next, j)
      ensures AddAttr(next[j]) in zipped + adds + removes
    {
      if j < m {
        assert prev'[j] == prev[j] && next'[j] == next[j];
      } else {
        assert adds[j - m] == AddAttr(next[j]);
      }
    }
  }

  /** The attribute diff removes only gone attributes. */
  lemma DiffAttrsRemoveOnlyGone<M>(prev: seq<Attribute<M>>, next: seq<Attribute<M>>)
    ensures forall p :: p in DomDiff.DiffAttrs(prev, next) && p.RemoveAttr? ==>
      exists j :: 0 <= j < |prev| && Gone(prev, next, j) && p.removed == prev[j]
  {
    var m := DomDiff.Min(|prev|, |next|);
    var prev', next' := prev[..m], next[..m];
    ChangedPairsRemoveOnlyChanged(prev', next');
    var zipped := DomDiff.ChangedPairs(prev', next');
    var adds := seq(|next| - m, i requires 0 <= i < |next| - m => AddAttr(next[m + i]));
    var removes := seq(|prev| - m, i requires 0 <= i < |prev| - m => RemoveAttr(prev[m + i]));
    assert DomDiff.DiffAttrs(prev, next) == zipped + adds + removes;
    assert forall q :: q in adds ==> q.AddAttr?;
    forall p | p in zipped + adds + removes && p.RemoveAttr?
      ensures exists j :: 0 <= j < |prev| && Gone(prev, next, j) && p.removed == prev[j]
    {
      if p in zipped {
        var j :| 0 <= j < m && prev'[j] != next'[j] && p.removed == prev'[j];
        assert Gone(prev, next, j) && p.removed == prev[j];
      } else {
        assert p in removes;
        var i :| 0 <= i < |removes| && removes[i] == p;
        assert Gone(prev, next, m + i);
      }
    }
  }

  // ----- the round trip under the corrected patcher -----

  /** Patches of distinct named attribute lists act on named attributes only, and add next values. */
  lemma DiffOfNamedIsNamed<M>(prev: seq<Attribute<M>>, next: seq<Attribute<M>>)
    requires NamedOnce(prev) && NamedOnce(next)
    ensures forall i :: 0 <= i < |DomDiff.DiffAttrs(prev, next)| ==>
      var p := DomDiff.DiffAttrs(prev, next)[i];
      && AttrApplicable(p)
      && (p.RemoveAttr? ==> p.removed.Custom?)
      && (p.AddAttr? ==> p.added in next && p.added.Custom?)
  {
    var d := DomDiff.DiffAttrs(prev, next);
    DomDiff.DiffAttrsFrom(prev, next);
    forall i | 0 <= i < |d|
      ensures AttrApplicable(d[i]) && (d[i].RemoveAttr? ==> d[i].removed.Custom?)
      ensures d[i].AddAttr? ==> d[i].added in next && d[i].added.Custom?
    {
      assert d[i] in d;
    }
  }

  /** A previous attribute whose name the diff does not remove is unchanged at its position in the next list. */
  lemma KeptAttributeStays<M>(prev: seq<Attribute<M>>, next: seq<Attribute<M>>, j: nat)
    requires NamedOnce(prev) && j < |prev|
    requires prev[j].name !in RemovedNames(DomDiff.DiffAttrs(prev, next))
    ensures j < |next| && next[j] == prev[j]
  {
    if Gone(prev, next, j) {
      DiffAttrsCover(prev, next);
      RemovedNamesMembers(DomDiff.DiffAttrs(prev, next));
    }
  }

  /** A previous name the diff does not remove keeps its value in the next rendering. */
  lemma KeptNamesAgree<M>(t: Tree<M>, prev: seq<Attribute<M>>, next: seq<Attribute<M>>)
    requires NamedOnce(prev) && NamedOnce(next) && t.attrs == map[]
    ensures forall n :: n in AttrsOnto(t, prev).attrs && n !in RemovedNames(DomDiff.DiffAttrs(prev, next)) ==>
      n in AttrsOnto(t, next).attrs && AttrsOnto(t, next).attrs[n] == AttrsOnto(t, prev).attrs[n]
  {
    var before, after := AttrsOnto(t, prev), AttrsOnto(t, next);
    NamedAttrsOnto(t, prev);
    NamedAttrsOnto(t, next);
    NameSetMembers(prev);
    forall n | n in before.attrs && n !in RemovedNames(DomDiff.DiffAttrs(prev, next))
      ensures n in after.attrs && after.attrs[n] == before.attrs[n]
    {
      var j :| 0 <= j < |prev| && prev[j].Custom? && prev[j].name == n;
      KeptAttributeStays(prev, next, j);
    }
  }

  /** Every name of the next list is added by the diff, or kept from the previous list. */
  lemma NextNamesCovered<M>(t: Tree<M>, prev: seq<Attribute<M>>, next: seq<Attribute<M>>)
    requires NamedOnce(prev) && NamedOnce(next)
    ensures forall n :: n in NameSet(next) ==>
      n in AddedNames(DomDiff.DiffAttrs(prev, next)) || (n in NameSet(prev) && n !in RemovedNames(DomDiff.DiffAttrs(prev, next)))
  {
    var d := DomDiff.DiffAttrs(prev, next);
    NameSetMembers(prev);
    NameSetMembers(next);
    DiffAttrsCover(prev, next);
    DiffAttrsRemoveOnlyGone(prev, next);
    AddedNamesMembers(d);
    RemovedNamesMembers(d);
    forall n | n in NameSet(next)
      ensures n in AddedNames(d) || (n in NameSet(prev) && n !in RemovedNames(d))
    {
      var j :| 0 <= j < |next| && next[j].Custom? && next[j].name == n;
      if Arrived(prev, next, j) {
        assert AddAttr(next[j]) in d;
      } else {
        assert prev[j] == next[j];
      }
    }
  }

  /**
   * For distinct named attributes, the element rendered with the previous
   * attributes, patched with their diff by the corrected patcher, is the
   * element rendered with the next attributes, and no message is sent.
   */
  lemma FixedAttributesRoundTrip<M>(t: Tree<M>, prev: seq<Attribute<M>>, next: seq<Attribute<M>>)
    requires NamedOnce(prev) && NamedOnce(next) && t.attrs == map[]
    ensures forall i :: 0 <= i < |DomDiff.DiffAttrs(prev, next)| ==> AttrApplicable(DomDiff.DiffAttrs(prev, next)[i])
    ensures FixedAttrSteps(DomDiff.DiffAttrs(prev, next), AttrsOnto(t, prev)) == (AttrsOnto(t, next), [])
  {
    var d := DomDiff.DiffAttrs(prev, next);
    DiffOfNamedIsNamed(prev, next);
    var before, after := AttrsOnto(t, prev), AttrsOnto(t, next);
    NamedAttrsOnto(t, prev);
    NamedAttrsOnto(t, next);
    forall i | 0 <= i < |d| && d[i].AddAttr?
      ensures d[i].added.name in after.attrs && after.attrs[d[i].added.name] == d[i].added.value
    {
      var j :| 0 <= j < |next| && next[j] == d[i].added;
    }
    var removed := Removals(d, before);
    AdditionsAgree(d, removed.0, after.attrs);
    KeptNamesAgree(t, prev, next);
    NextNamesCovered(t, prev, next);
    var kept := removed.0.attrs;
    var patched := FixedAttrSteps(d, before).0.attrs;
    assert kept == before.attrs - RemovedNames(d);
    assert patched.Keys == kept.Keys + AddedNames(d);
    forall n | n in patched
      ensures n in after.attrs && patched[n] == after.attrs[n]
    {
      if n !in AddedNames(d) {
        assert n in kept && patched[n] == kept[n];
      }
    }
    SameMaps(patched, after.attrs);
  }

  /** Two maps with the same keys that agree on each key are equal. */
  lemma SameMaps(x: map<string, string>, y: map<string, string>)
    requires forall n :: n in x ==> n in y && x[n] == y[n]
    requires forall n :: n in y ==> n in x
    ensures x == y
  {
  }

  // ----- the patcher as written -----

  /** An update without child patches patches only the attributes of its target. */
  lemma AttributesOnlyUpdate<M>(ats: seq<AttrPatch<M>>, t: Tree<M>, s: Slot<M>, hook: bool)
    requires forall i :: 0 <= i < |ats| ==> AttrApplicable(ats[i])
    ensures Applicable(Update([], ats))
    ensures Step(Update([], ats), t, s, hook).tree == AttrSteps(ats, t).0
  {
  }

  /** A node without children renders to its attributes on a blank element. */
  lemma RenderedLeaf<M>(tag: string, attributes: seq<Attribute<M>>)
    requires forall i :: 0 <= i < |attributes| ==> Renderable(attributes[i])
    ensures RenderableHtml(Node(tag, None, attributes, []))
    ensures Rendered(Node(tag, None, attributes, [])) == AttrsOnto(Blank(tag), attributes)
  {
  }

  /**
   * Removing the only attribute of an element leaves it on the rendered
   * element with an empty value, where rendering the next document sets none.
   */
  lemma RemovedAttributeLeftEmpty<M>(prev: Html<M>, next: Html<M>, hook: bool)
    requires prev == Node("div", None, [Custom("class", "x")], [])
    requires next == Node("div", None, [], [])
    ensures RenderableHtml(prev) && RenderableHtml(next) && Applicable(DomDiff.Diff(prev, next))
    ensures Step(DomDiff.Diff(prev, next), Rendered(prev), Attached, hook).tree.attrs == map["class" := ""]
    ensures Rendered(next).attrs == map[]
  {
    var a: Attribute<M> := Custom("class", "x");
    var d := [RemoveAttr(a)];
    assert [a][..0] == [];
    assert DomDiff.ChangedPairs<M>([], []) == [];
    assert DomDiff.DiffAttrs([a], []) == d;
    assert DomDiff.DiffChildren<M>([], []) == [];
    assert DomDiff.Diff(prev, next) == Update([], d);
    RenderedLeaf("div", [a]);
    RenderedLeaf<M>("div", []);
    var before := AttrsOnto(Blank("div"), [a]);
    assert before == AttrOnto(Blank("div"), a);
    AttributesOnlyUpdate(d, before, Attached, hook);
    assert d[..0] == [];
  }

  /** The four attribute patches of a swap, applied in order by the patcher as written. */
  lemma SwapSteps<M>(t: Tree<M>)
    requires t.attrs == map["a" := "1", "b" := "2"]
    ensures var a: Attribute<M> := Custom("a", "1");
            var b: Attribute<M> := Custom("b", "2");
            AttrSteps([RemoveAttr(a), AddAttr(b), RemoveAttr(b), AddAttr(a)], t).0.attrs == map["a" := "1", "b" := ""]
  {
    var a: Attribute<M> := Custom("a", "1");
    var b: Attribute<M> := Custom("b", "2");
    var q1 := [RemoveAttr(a)];
    var q2 := q1 + [AddAttr(b)];
    var q3 := q2 + [RemoveAttr(b)];
    var q4 := q3 + [AddAttr(a)];
    assert q1[..0] == [] && q2[..1] == q1 && q3[..2] == q2 && q4[..3] == q3;
    assert AttrSteps(q1, t).0.attrs == t.attrs["a" := ""];
    assert AttrSteps(q2, t).0.attrs == t.attrs["a" := ""]["b" := "2"];
    assert AttrSteps(q3, t).0.attrs == t.attrs["a" := ""]["b" := "2"]["b" := ""];
    assert q4 == [RemoveAttr(a), AddAttr(b), RemoveAttr(b), AddAttr(a)];
    var got := AttrSteps(q4, t).0.attrs;
    assert got == t.attrs["a" := ""]["b" := "2"]["b" := ""]["a" := "1"];
    assert got.Keys == {"a", "b"};
  }

  /** Rendering two attributes: the first, then the second. */
  lemma TwoAttrsOnto<M>(t: Tree<M>, x: Attribute<M>, y: Attribute<M>)
    requires Renderable(x) && Renderable(y)
    ensures AttrsOnto(t, [x, y]) == AttrOnto(AttrOnto(t, x), y)
  {
    assert [x, y][..1] == [x] && [x][..0] == [];
    assert AttrsOnto(t, [x]) == AttrOnto(AttrsOnto(t, []), x);
  }

  /** The attribute diff of a swap: each position differs, so each gives a removal and an addition. */
  lemma SwapDiff<M>(prev: Html<M>, next: Html<M>)
    requires prev == Node("div", None, [Custom("a", "1"), Custom("b", "2")], [])
    requires next == Node("div", None, [Custom("b", "2"), Custom("a", "1")], [])
    ensures DomDiff.Diff(prev, next)
      == Update([], [RemoveAttr(Custom("a", "1")), AddAttr(Custom("b", "2")), RemoveAttr(Custom("b", "2")), AddAttr(Custom("a", "1"))])
  {
    var a: Attribute<M> := Custom("a", "1");
    var b: Attribute<M> := Custom("b", "2");
    var d := [RemoveAttr(a), AddAttr(b), RemoveAttr(b), AddAttr(a)];
    assert [a, b][..1] == [a] && [b, a][..1] == [b] && [a][..0] == [] && [b][..0] == [];
    assert DomDiff.ChangedPairs<M>([], []) == [];
    assert DomDiff.ChangedPairs([a], [b]) == d[..2];
    assert [a, b][..2] == [a, b] && [b, a][..2] == [b, a];
    assert DomDiff.ChangedPairs([a, b], [b, a]) == d;
    assert DomDiff.DiffAttrs([a, b], [b, a]) == d;
    assert DomDiff.DiffChildren<M>([], []) == [];
  }

  /** The renderings of the two documents of a swap. */
  lemma SwapRenderings<M>(prev: Html<M>, next: Html<M>)
    requires prev == Node("div", None, [Custom("a", "1"), Custom("b", "2")], [])
    requires next == Node("div", None, [Custom("b", "2"), Custom("a", "1")], [])
    ensures RenderableHtml(prev) && Rendered(prev) == Tree("div", map["a" := "1", "b" := "2"], None, "", [])
    ensures RenderableHtml(next) && Rendered(next) == Tree("div", map["b" := "2", "a" := "1"], None, "", [])
  {
    var a: Attribute<M> := Custom("a", "1");
    var b: Attribute<M> := Custom("b", "2");
    var blank := Blank<M>("div");
    RenderedLeaf("div", [a, b]);
    RenderedLeaf("div", [b, a]);
    TwoAttrsOnto(blank, a, b);
    TwoAttrsOnto(blank, b, a);
  }

  /**
   * Two named attributes that swap places: the removal of the second previous
   * attribute runs after the addition of the first next one and clears it.
   */
  lemma SwappedAttributesLoseOne<M>(prev: Html<M>, next: Html<M>, hook: bool)
    requires prev == Node("div", None, [Custom("a", "1"), Custom("b", "2")], [])
    requires next == Node("div", None, [Custom("b", "2"), Custom("a", "1")], [])
    ensures RenderableHtml(prev) && RenderableHtml(next) && Applicable(DomDiff.Diff(prev, next))
    ensures Step(DomDiff.Diff(prev, next), Rendered(prev), Attached, hook).tree.attrs == map["a" := "1", "b" := ""]
    ensures Rendered(next).attrs == map["b" := "2", "a" := "1"]
  {
    SwapDiff(prev, next);
    SwapRenderings(prev, next);
    var t := Rendered(prev);
    var d := DomDiff.Diff(prev, next).attrs;
    AttributesOnlyUpdate(d, t, Attached, hook);
    SwapSteps(t);
  }

  /** Rendering a node with one child node and no attributes. */
  lemma RenderedWithOneChild<M>(tag: string, child: Html<M>)
    requires child.Node? && RenderableHtml(child)
    ensures RenderableHtml(Node(tag, None, [], [child]))
    ensures Rendered(Node(tag, None, [], [child])) == Blank(tag).(kids := [Rendered(child)])
  {
    assert [child][..0] == [];
    var blank := Blank<M>(tag);
    assert AttrsOnto(blank, []) == blank && ChildrenOnto(blank, []) == blank;
    assert ChildrenOnto(blank, [child]) == ChildOnto(blank, child);
    assert blank.kids + [Rendered(child)] == [Rendered(child)];
  }

  /** The diff of an element child replaced by a text child: one `Replace` child patch, no attribute patch. */
  lemma TextReplaceDiff<M>(prev: Html<M>, next: Html<M>)
    requires prev == Node("div", None, [], [Node("p", None, [], [])])
    requires next == Node("div", None, [], [Text("hi")])
    ensures DomDiff.Diff(prev, next) == Update([Replace(Text("hi"))], [])
  {
    var p: Html<M> := Node("p", None, [], []);
    var hi: Html<M> := Text("hi");
    assert [p][..0] == [] && [hi][..0] == [];
    assert DomDiff.DiffChildren([p], [hi]) == [Replace(hi)];
    assert DomDiff.ChangedPairs<M>([], []) == [];
    assert DomDiff.DiffAttrs<M>([], []) == [];
  }

  /**
   * A text child that replaces an element child: the `Replace` patch goes to
   * the element child and sets that child's text, where rendering the next
   * document sets the parent's text and has no child element.
   */
  lemma TextReplacingElementLandsInChild<M>(prev: Html<M>, next: Html<M>, hook: bool)
    requires prev == Node("div", None, [], [Node("p", None, [], [])])
    requires next == Node("div", None, [], [Text("hi")])
    ensures RenderableHtml(prev) && RenderableHtml(next) && Applicable(DomDiff.Diff(prev, next))
    ensures Step(DomDiff.Diff(prev, next), Rendered(prev), Attached, hook).tree
      == Tree("div", map[], None, "", [Tree("p", map[], None, "hi", [])])
    ensures Rendered(next) == Tree("div", map[], None, "hi", [])
  {
    var p: Html<M> := Node("p", None, [], []);
    TextReplaceDiff(prev, next);
    RenderedLeaf<M>("p", []);
    RenderedWithOneChild("div", p);
    var blank := Blank<M>("div");
    var hi: Html<M> := Text("hi");
    assert [hi][..0] == [];
    assert AttrsOnto(blank, []) == blank && ChildrenOnto(blank, []) == blank;
    assert Rendered(next) == WithText(blank, "hi");
  }
}
