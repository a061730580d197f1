/**
 Choosing a product variant (apps/web/src/components/VariantSelector.tsx) as a state machine driven
 by clicks on enabled swatches.
 */
module VariantSelection {
  import opened Options

  type Id = string

  datatype ProductOption = ProductOption(attributeId: Id, values: seq<Id>)

  datatype Variant = Variant(id: Id, attributeValueIds: seq<Id>)

  datatype Product = Product(options: seq<ProductOption>, variants: seq<Variant>)

  type Selection = map<Id, Id>

  /** Every chosen value belongs to the variant. */
  predicate Covers(v: Variant, selected: Selection) {
    forall a :: a in selected ==> selected[a] in v.attributeValueIds
  }

  /** `variants.find(...)`. */
  function FirstCovering(variants: seq<Variant>, selected: Selection): Option<Variant> {
    if variants == [] then None
    else if Covers(variants[0], selected) then Some(variants[0])
    else FirstCovering(variants[1..], selected)
  }

  predicate SomeCovers(variants: seq<Variant>, selected: Selection) {
    exists i :: 0 <= i < |variants| && Covers(variants[i], selected)
  }

  /** `v` stands at `i` in the list and covers the selection, and none before it does. */
  predicate IsFirstCovering(variants: seq<Variant>, selected: Selection, i: nat, v: Variant) {
    && i < |variants| && variants[i] == v && Covers(v, selected)
    && forall j :: 0 <= j < i ==> !Covers(variants[j], selected)
  }

  /** The first variant covering a selection of as many values as there are options. */
  function MatchOf(p: Product, selected: Selection): Option<Variant> {
    if |selected| != |p.options| then None else FirstCovering(p.variants, selected)
  }

  lemma {:induction false} FindFinds(variants: seq<Variant>, selected: Selection)
    ensures FirstCovering(variants, selected).Some? <==> SomeCovers(variants, selected)
    ensures FirstCovering(variants, selected).Some? ==>
      exists i: nat :: IsFirstCovering(variants, selected, i, FirstCovering(variants, selected).value)
  {
    var found := FirstCovering(variants, selected);
    if variants == [] {
    } else if Covers(variants[0], selected) {
      assert IsFirstCovering(variants, selected, 0, variants[0]);
    } else {
      FindFinds(variants[1..], selected);
      if found.Some? {
        var i: nat :| IsFirstCovering(variants[1..], selected, i, found.value);
        assert forall j :: 0 < j < |variants| ==> variants[j] == variants[1..][j - 1];
        assert IsFirstCovering(variants, selected, i + 1, found.value);
      }
      if i :| 0 <= i < |variants| && Covers(variants[i], selected) {
        assert i > 0 && Covers(variants[1..][i - 1], selected);
      }
    }
  }

  /** The component's state and handlers. */
  class VariantSelector {
    const product: Product
    var selected: Selection

    constructor (product: Product)
      ensures this.product == product && selected == map[]
    {
      this.product := product;
      selected := map[];
    }

    /** What is displayed: of a selection of every option the first variant with all its values. */
    method MatchedVariant() returns (shown: Option<Variant>)
      ensures shown == MatchOf(product, selected)
      ensures shown == None <==>
        || |selected| != |product.options|
        || forall i :: 0 <= i < |product.variants| ==>
             exists a :: a in selected && selected[a] !in product.variants[i].attributeValueIds
      ensures shown.Some? ==>
        && (forall a :: a in selected ==> selected[a] in shown.value.attributeValueIds)
        && exists i: nat :: IsFirstCovering(product.variants, selected, i, shown.value)
    {
      FindFinds(product.variants, selected);
      if |selected| != |product.options| {
        return None;
      }
      shown := FirstCovering(product.variants, selected);
    }

    /** `passed` is what `onVariantChange` receives: the match that is displayed afterwards. */
    method SelectValue(attributeId: Id, valueId: Id) returns (passed: Option<Variant>)
      modifies this
      ensures selected == old(selected)[attributeId := valueId]
      ensures passed == MatchOf(product, selected)
    {
      var next := selected[attributeId := valueId];
      selected := next;
      passed := if |next| == |product.options| then FirstCovering(product.variants, next) else None;
    }

    method IsValueAvailable(attributeId: Id, valueId: Id) returns (available: bool)
      ensures available == SomeCovers(product.variants, selected[attributeId := valueId])
      ensures available <==> exists i ::
        && 0 <= i < |product.variants|
        && valueId in product.variants[i].attributeValueIds
        && forall a :: a in selected && a != attributeId ==> selected[a] in product.variants[i].attributeValueIds
    {
      var candidate := selected[attributeId := valueId];
      available := false;
      for k := 0 to |product.variants|
        invariant available <==> exists i :: 0 <= i < k && Covers(product.variants[i], candidate)
      {
        if Covers(product.variants[k], candidate) {
          available := true;
        }
      }
      forall i | 0 <= i < |product.variants|
        ensures Covers(product.variants[i], candidate) <==>
          && valueId in product.variants[i].attributeValueIds
          && forall a :: a in selected && a != attributeId ==> selected[a] in product.variants[i].attributeValueIds
      {
        assert candidate[attributeId] == valueId;
        assert forall a :: a in selected && a != attributeId ==> a in candidate && candidate[a] == selected[a];
      }
    }
  }

  // ---------------------------------------------------------------- clicks

  ghost predicate Enabled(p: Product, selected: Selection, i: nat, x: Id) {
    && i < |p.options| && x in p.options[i].values
    && SomeCovers(p.variants, selected[p.options[i].attributeId := x])
  }

  ghost predicate Clicked(p: Product, before: Selection, after: Selection) {
    exists i: nat, x :: Enabled(p, before, i, x) && after == before[p.options[i].attributeId := x]
  }

  ghost predicate IsRun(p: Product, states: seq<Selection>) {
    states != [] && forall k :: 0 <= k < |states| - 1 ==> Clicked(p, states[k], states[k + 1])
  }

  ghost predicate Reachable(p: Product, selected: Selection) {
    exists states :: IsRun(p, states) && states[0] == map[] && states[|states| - 1] == selected
  }

  /** A selection over the product's options, each with one of its own values. */
  ghost predicate OverOptions(p: Product, selected: Selection) {
    forall a :: a in selected ==>
      exists i :: 0 <= i < |p.options| && p.options[i].attributeId == a && selected[a] in p.options[i].values
  }

  lemma {:induction false} RunIsCovered(p: Product, states: seq<Selection>, k: nat)
    requires IsRun(p, states) && states[0] == map[] && k < |states|
    ensures OverOptions(p, states[k])
    ensures states[k] != map[] ==> SomeCovers(p.variants, states[k])
  {
    if k > 0 {
      RunIsCovered(p, states, k - 1);
      assert Clicked(p, states[k - 1], states[k]);
    }
  }

  /** Whatever enabled swatches are clicked, a variant with all the chosen values remains. */
  lemma ReachableIsCovered(p: Product, selected: Selection)
    requires Reachable(p, selected)
    ensures OverOptions(p, selected)
    ensures selected != map[] ==> SomeCovers(p.variants, selected)
  {
    var states :| IsRun(p, states) && states[0] == map[] && states[|states| - 1] == selected;
    RunIsCovered(p, states, |states| - 1);
  }

  /** A reachable selection of every option shows a variant, and one that has all its values. */
  lemma FullSelectionMatches(p: Product, selected: Selection)
    requires Reachable(p, selected) && |selected| == |p.options| > 0
    ensures MatchOf(p, selected).Some?
    ensures MatchOf(p, selected).value in p.variants && Covers(MatchOf(p, selected).value, selected)
  {
    ReachableIsCovered(p, selected);
    FindFinds(p.variants, selected);
    var i: nat :| IsFirstCovering(p.variants, selected, i, MatchOf(p, selected).value);
  }

  // ---------------------------------------------------------------- one value per option

  /** `x` is the one value that the variant has for the option. */
  ghost predicate IsOnlyValue(v: Variant, o: ProductOption, x: Id) {
    x in o.values && x in v.attributeValueIds && forall y :: y in o.values && y in v.attributeValueIds ==> y == x
  }

  ghost predicate HasOneValue(v: Variant, o: ProductOption) {
    exists x :: IsOnlyValue(v, o, x)
  }

  ghost predicate Complete(p: Product) {
    && (forall i, j :: 0 <= i < j < |p.options| ==> p.options[i].attributeId != p.options[j].attributeId)
    && (forall v, i :: v in p.variants && 0 <= i < |p.options| ==> HasOneValue(v, p.options[i]))
  }

  ghost function ValueOf(v: Variant, o: ProductOption): (x: Id)
    requires HasOneValue(v, o)
    ensures IsOnlyValue(v, o, x)
  {
    var x :| IsOnlyValue(v, o, x);
    x
  }

  ghost function AttributeIds(p: Product, n: nat): set<Id>
    requires n <= |p.options|
  {
    set i | 0 <= i < n :: p.options[i].attributeId
  }

  lemma {:induction false} CountAttributeIds(p: Product, n: nat)
    requires Complete(p) && n <= |p.options|
    ensures |AttributeIds(p, n)| == n
  {
    if n > 0 {
      CountAttributeIds(p, n - 1);
      assert AttributeIds(p, n) == AttributeIds(p, n - 1) + {p.options[n - 1].attributeId};
    }
  }

  lemma SubsetCount<T>(a: set<T>, b: set<T>)
    requires a <= b
    ensures |a| <= |b| && (|a| == |b| <==> a == b)
  {
    assert b == a + (b - a);
    assert |b| == |a| + |b - a|;
  }

  lemma OverOptionsKeys(p: Product, selected: Selection)
    requires OverOptions(p, selected)
    ensures selected.Keys <= AttributeIds(p, |p.options|)
  {
  }

  lemma SelectedCount(p: Product, selected: Selection)
    requires Complete(p) && OverOptions(p, selected)
    ensures selected.Keys <= AttributeIds(p, |p.options|) && |selected| <= |p.options|
    ensures |selected| == |p.options| <==> selected.Keys == AttributeIds(p, |p.options|)
  {
    OverOptionsKeys(p, selected);
    CountAttributeIds(p, |p.options|);
    SubsetCount(selected.Keys, AttributeIds(p, |p.options|));
    assert |selected.Keys| == |selected|;
  }

  /** While an option is open, some swatch of an open option is enabled: the shopper can go on. */
  lemma PartialSelectionCanGrow(p: Product, selected: Selection)
    requires Complete(p) && p.variants != [] && Reachable(p, selected) && |selected| < |p.options|
    ensures exists i: nat, x :: Enabled(p, selected, i, x) && p.options[i].attributeId !in selected
  {
    ReachableIsCovered(p, selected);
    SelectedCount(p, selected);
    var k: nat := if selected == map[] then 0 else var k :| 0 <= k < |p.variants| && Covers(p.variants[k], selected); k;
    var a :| a in AttributeIds(p, |p.options|) && a !in selected;
    var i :| 0 <= i < |p.options| && p.options[i].attributeId == a;
    var v := p.variants[k];
    assert v in p.variants && HasOneValue(v, p.options[i]);
    var x := ValueOf(v, p.options[i]);
    assert Covers(v, selected[a := x]);
    assert SomeCovers(p.variants, selected[a := x]);
    assert Enabled(p, selected, i, x);
  }

  /** The selection that spells out a variant, option by option in the given order. */
  ghost function Spelled(p: Product, v: Variant, order: seq<nat>): Selection
    requires Complete(p) && v in p.variants
    requires forall k :: 0 <= k < |order| ==> order[k] < |p.options|
  {
    if order == [] then map[]
    else
      var n := |order| - 1;
      Spelled(p, v, order[..n])[p.options[order[n]].attributeId := ValueOf(v, p.options[order[n]])]
  }

  ghost predicate InRange(p: Product, order: seq<nat>) {
    forall k :: 0 <= k < |order| ==> order[k] < |p.options|
  }

  lemma {:induction false} SpelledMeaning(p: Product, v: Variant, order: seq<nat>)
    requires Complete(p) && v in p.variants && InRange(p, order)
    ensures var s := Spelled(p, v, order);
      && Covers(v, s)
      && (forall i :: 0 <= i < |p.options| ==>
           (p.options[i].attributeId in s <==> i in order) &&
           (i in order ==> s[p.options[i].attributeId] == ValueOf(v, p.options[i])))
  {
    if order != [] {
      var n := |order| - 1;
      SpelledMeaning(p, v, order[..n]);
      assert order == order[..n] + [order[n]];
    }
  }

  lemma SpelledNext(p: Product, v: Variant, order: seq<nat>, k: nat)
    requires Complete(p) && v in p.variants && InRange(p, order) && k < |order|
    ensures HasOneValue(v, p.options[order[k]])
    ensures Spelled(p, v, order[..k + 1]) ==
      Spelled(p, v, order[..k])[p.options[order[k]].attributeId := ValueOf(v, p.options[order[k]])]
  {
    assert order[..k + 1][..k] == order[..k];
  }

  /** In whatever order the options are taken, clicking a variant's values is always allowed. */
  lemma SpellingIsEnabled(p: Product, v: Variant, order: seq<nat>, k: nat)
    requires Complete(p) && v in p.variants && InRange(p, order) && k < |order|
    ensures HasOneValue(v, p.options[order[k]])
    ensures Enabled(p, Spelled(p, v, order[..k]), order[k], ValueOf(v, p.options[order[k]]))
    ensures Clicked(p, Spelled(p, v, order[..k]), Spelled(p, v, order[..k + 1]))
  {
    SpelledNext(p, v, order, k);
    SpelledMeaning(p, v, order[..k + 1]);
    var i :| 0 <= i < |p.variants| && p.variants[i] == v;
    assert Covers(p.variants[i], Spelled(p, v, order[..k + 1]));
    assert Enabled(p, Spelled(p, v, order[..k]), order[k], ValueOf(v, p.options[order[k]]));
  }

  lemma RunGoesOn(p: Product, states: seq<Selection>, after: Selection)
    requires IsRun(p, states) && Clicked(p, states[|states| - 1], after)
    ensures IsRun(p, states + [after])
  {
    var longer := states + [after];
    forall k | 0 <= k < |longer| - 1 ensures Clicked(p, longer[k], longer[k + 1]) {
      assert k < |states| - 1 ==> Clicked(p, states[k], states[k + 1]);
    }
  }

  lemma ReachableNext(p: Product, before: Selection, after: Selection)
    requires Reachable(p, before) && Clicked(p, before, after)
    ensures Reachable(p, after)
  {
    var states :| IsRun(p, states) && states[0] == map[] && states[|states| - 1] == before;
    RunGoesOn(p, states, after);
    assert (states + [after])[|states + [after]| - 1] == after;
  }

  lemma {:induction false} SpelledIsReachable(p: Product, v: Variant, order: seq<nat>)
    requires Complete(p) && v in p.variants && InRange(p, order)
    ensures Reachable(p, Spelled(p, v, order))
  {
    if order == [] {
      assert IsRun(p, [map[]]);
    } else {
      var n := |order| - 1;
      SpelledIsReachable(p, v, order[..n]);
      SpellingIsEnabled(p, v, order, n);
      assert order[..n + 1] == order;
      ReachableNext(p, Spelled(p, v, order[..n]), Spelled(p, v, order));
    }
  }

  /** Every variant can be selected, in any order of the options, and a variant with its values is then shown. */
  lemma EveryVariantIsReachable(p: Product, v: Variant, order: seq<nat>)
    requires Complete(p) && v in p.variants && InRange(p, order) && p.options != []
    requires forall i :: 0 <= i < |p.options| ==> i in order
    ensures var s := Spelled(p, v, order);
      Reachable(p, s) && |s| == |p.options| && Covers(v, s) && MatchOf(p, s).Some? && Covers(MatchOf(p, s).value, s)
  {
    var s := Spelled(p, v, order);
    SpelledIsReachable(p, v, order);
    SpelledMeaning(p, v, order);
    ReachableIsCovered(p, s);
    SelectedCount(p, s);
    assert s.Keys == AttributeIds(p, |p.options|);
    FullSelectionMatches(p, s);
  }

  // ---------------------------------------------------------------- changing a full selection

  ghost function AllOptions(p: Product): (order: seq<nat>)
    ensures InRange(p, order) && forall i :: 0 <= i < |p.options| ==> i in order
  {
    var order := seq(|p.options|, i requires 0 <= i < |p.options| => i);
    assert forall i :: 0 <= i < |p.options| ==> i in order by {
      forall i | 0 <= i < |p.options| ensures i in order {
        assert order[i] == i;
      }
    }
    order
  }

  /** The full selection that shows a variant. */
  ghost function FullOf(p: Product, v: Variant): Selection
    requires Complete(p) && v in p.variants
  {
    Spelled(p, v, AllOptions(p))
  }

  ghost predicate IsFull(p: Product, s: Selection) {
    OverOptions(p, s) && s.Keys == AttributeIds(p, |p.options|)
  }

  lemma FullOfMeaning(p: Product, v: Variant)
    requires Complete(p) && v in p.variants
    ensures var s := FullOf(p, v);
      && IsFull(p, s) && Covers(v, s)
      && (forall i :: 0 <= i < |p.options| ==>
           p.options[i].attributeId in s && HasOneValue(v, p.options[i]) && s[p.options[i].attributeId] ==
             ValueOf(v, p.options[i]))
  {
    SpelledMeaning(p, v, AllOptions(p));
    SpelledIsReachable(p, v, AllOptions(p));
    ReachableIsCovered(p, FullOf(p, v));
    OverOptionsKeys(p, FullOf(p, v));
  }

  /** A variant covers a full selection only if it is the one spelled out. */
  lemma CoversFull(p: Product, w: Variant, s: Selection)
    requires Complete(p) && w in p.variants && IsFull(p, s)
    ensures Covers(w, s) <==> s == FullOf(p, w)
  {
    FullOfMeaning(p, w);
    if Covers(w, s) {
      forall a | a in s ensures s[a] == FullOf(p, w)[a] {
        var i :| 0 <= i < |p.options| && p.options[i].attributeId == a && s[a] in p.options[i].values;
        assert HasOneValue(w, p.options[i]);
      }
    }
  }

  lemma ChangedIsFull(p: Product, s: Selection, i: nat, x: Id)
    requires Complete(p) && IsFull(p, s) && i < |p.options| && x in p.options[i].values
    ensures IsFull(p, s[p.options[i].attributeId := x])
  {
    assert p.options[i].attributeId in AttributeIds(p, |p.options|);
  }

  ghost predicate IsFullOfSome(p: Product, s: Selection)
    requires Complete(p)
  {
    exists w :: w in p.variants && FullOf(p, w) == s
  }

  lemma CoveredIffFullOfSome(p: Product, s: Selection)
    requires Complete(p) && IsFull(p, s)
    ensures SomeCovers(p.variants, s) <==> IsFullOfSome(p, s)
  {
    if k :| 0 <= k < |p.variants| && Covers(p.variants[k], s) {
      CoversFull(p, p.variants[k], s);
      assert p.variants[k] in p.variants && FullOf(p, p.variants[k]) == s;
    }
    if w :| w in p.variants && FullOf(p, w) == s {
      CoversFull(p, w, s);
      var k :| 0 <= k < |p.variants| && p.variants[k] == w;
      assert Covers(p.variants[k], s);
    }
  }

  /** From a full selection a swatch is enabled exactly when it leads to some variant's full selection. */
  lemma SwatchEnabledIff(p: Product, v: Variant, i: nat, x: Id)
    requires Complete(p) && v in p.variants && i < |p.options| && x in p.options[i].values
    ensures Enabled(p, FullOf(p, v), i, x) <==> IsFullOfSome(p, FullOf(p, v)[p.options[i].attributeId := x])
  {
    FullOfMeaning(p, v);
    ChangedIsFull(p, FullOf(p, v), i, x);
    CoveredIffFullOfSome(p, FullOf(p, v)[p.options[i].attributeId := x]);
  }

  /** `w` differs from `v` in option `i` and in no other. */
  ghost predicate DiffersOnlyIn(p: Product, v: Variant, w: Variant, i: nat)
    requires Complete(p) && v in p.variants && w in p.variants && i < |p.options|
  {
    forall j :: 0 <= j < |p.options| ==>
      HasOneValue(v, p.options[j]) && HasOneValue(w, p.options[j]) &&
      (ValueOf(w, p.options[j]) == ValueOf(v, p.options[j]) <==> j != i)
  }

  ghost predicate HasNeighbour(p: Product, v: Variant)
    requires Complete(p) && v in p.variants
  {
    exists w, i :: w in p.variants && 0 <= i < |p.options| && DiffersOnlyIn(p, v, w, i)
  }

  lemma SameFull(p: Product, s: Selection, t: Selection)
    requires IsFull(p, s) && IsFull(p, t)
    requires forall j :: 0 <= j < |p.options| && p.options[j].attributeId in s && p.options[j].attributeId in t ==>
      s[p.options[j].attributeId] == t[p.options[j].attributeId]
    ensures s == t
  {
    forall a | a in s ensures s[a] == t[a] {
      var j :| 0 <= j < |p.options| && p.options[j].attributeId == a;
    }
  }

  lemma UpdateSame(s: Selection, a: Id, x: Id)
    requires a in s
    ensures s[a := x] == s <==> s[a] == x
  {
    assert s[a := x][a] == x;
  }

  lemma NeighbourByOneChange(p: Product, v: Variant, w: Variant, i: nat)
    requires Complete(p) && v in p.variants && w in p.variants && i < |p.options|
    requires DiffersOnlyIn(p, v, w, i)
    ensures HasOneValue(w, p.options[i]) && ValueOf(w, p.options[i]) in p.options[i].values
    ensures FullOf(p, w) == FullOf(p, v)[p.options[i].attributeId := ValueOf(w, p.options[i])] != FullOf(p, v)
  {
    FullOfMeaning(p, v);
    FullOfMeaning(p, w);
    var x := ValueOf(w, p.options[i]);
    ChangedIsFull(p, FullOf(p, v), i, x);
    SameFull(p, FullOf(p, w), FullOf(p, v)[p.options[i].attributeId := x]);
    UpdateSame(FullOf(p, v), p.options[i].attributeId, x);
  }

  lemma OneChangeIsNeighbour(p: Product, v: Variant, w: Variant, i: nat, x: Id)
    requires Complete(p) && v in p.variants && w in p.variants && i < |p.options|
    requires FullOf(p, w) == FullOf(p, v)[p.options[i].attributeId := x] != FullOf(p, v)
    ensures DiffersOnlyIn(p, v, w, i)
  {
    FullOfMeaning(p, v);
    FullOfMeaning(p, w);
    UpdateSame(FullOf(p, v), p.options[i].attributeId, x);
    forall j | 0 <= j < |p.options|
      ensures HasOneValue(v, p.options[j]) && HasOneValue(w, p.options[j])
      ensures ValueOf(w, p.options[j]) == ValueOf(v, p.options[j]) <==> j != i
    {
      assert p.options[j].attributeId in FullOf(p, w) && p.options[j].attributeId in FullOf(p, v);
    }
  }

  /**
   A shown variant can be left by a click exactly when another variant differs from it in a single
   option: a choice cannot be taken back, so otherwise no enabled swatch changes anything.
   */
  lemma StuckIffNoNeighbour(p: Product, v: Variant)
    requires Complete(p) && v in p.variants
    ensures (forall s :: Clicked(p, FullOf(p, v), s) ==> s == FullOf(p, v)) <==> !HasNeighbour(p, v)
  {
    var full := FullOf(p, v);
    if w, i :| w in p.variants && 0 <= i < |p.options| && DiffersOnlyIn(p, v, w, i) {
      NeighbourByOneChange(p, v, w, i);
      var x := ValueOf(w, p.options[i]);
      SwatchEnabledIff(p, v, i, x);
      assert Enabled(p, full, i, x);
      assert Clicked(p, full, FullOf(p, w));
    }
    forall s | Clicked(p, full, s) && s != full ensures HasNeighbour(p, v) {
      var i: nat, x :| Enabled(p, full, i, x) && s == full[p.options[i].attributeId := x];
      SwatchEnabledIff(p, v, i, x);
      var w :| w in p.variants && FullOf(p, w) == s;
      OneChangeIsNeighbour(p, v, w, i, x);
    }
  }

  /** Then every run of enabled clicks stays there: the other variants cannot be shown any more. */
  lemma {:induction false} StuckForEver(p: Product, v: Variant, states: seq<Selection>, k: nat)
    requires Complete(p) && v in p.variants && !HasNeighbour(p, v)
    requires IsRun(p, states) && states[0] == FullOf(p, v) && k < |states|
    ensures states[k] == FullOf(p, v)
  {
    if k > 0 {
      StuckForEver(p, v, states, k - 1);
      StuckIffNoNeighbour(p, v);
      assert Clicked(p, states[k - 1], states[k]);
    }
  }

  // ---------------------------------------------------------------- which variants can be shown

  ghost predicate SomeRunLeads(p: Product, s: Selection, t: Selection) {
    exists states :: IsRun(p, states) && states[0] == s && states[|states| - 1] == t
  }

  /** The two have the same values, or differ in one option only. */
  ghost predicate Linked(p: Product, v: Variant, w: Variant)
    requires Complete(p) && v in p.variants && w in p.variants
  {
    FullOf(p, v) == FullOf(p, w) || exists i :: 0 <= i < |p.options| && DiffersOnlyIn(p, v, w, i)
  }

  ghost predicate IsChain(p: Product, chain: seq<Variant>)
    requires Complete(p)
  {
    && chain != [] && (forall k :: 0 <= k < |chain| ==> chain[k] in p.variants)
    && (forall k :: 0 <= k < |chain| - 1 ==> Linked(p, chain[k], chain[k + 1]))
  }

  ghost predicate ChainLinks(p: Product, chain: seq<Variant>, v: Variant, w: Variant)
    requires Complete(p)
  {
    IsChain(p, chain) && chain[0] == v && chain[|chain| - 1] == w
  }

  lemma LinkedIsClick(p: Product, v: Variant, w: Variant)
    requires Complete(p) && v in p.variants && w in p.variants && Linked(p, v, w)
    ensures FullOf(p, v) == FullOf(p, w) || Clicked(p, FullOf(p, v), FullOf(p, w))
  {
    if i :| 0 <= i < |p.options| && DiffersOnlyIn(p, v, w, i) {
      NeighbourByOneChange(p, v, w, i);
      SwatchEnabledIff(p, v, i, ValueOf(w, p.options[i]));
      assert Enabled(p, FullOf(p, v), i, ValueOf(w, p.options[i]));
    }
  }

  lemma ClickIsLinked(p: Product, v: Variant, s: Selection) returns (w: Variant)
    requires Complete(p) && v in p.variants && Clicked(p, FullOf(p, v), s)
    ensures w in p.variants && FullOf(p, w) == s && Linked(p, v, w)
  {
    var i: nat, x :| Enabled(p, FullOf(p, v), i, x) && s == FullOf(p, v)[p.options[i].attributeId := x];
    SwatchEnabledIff(p, v, i, x);
    w :| w in p.variants && FullOf(p, w) == s;
    if s != FullOf(p, v) {
      OneChangeIsNeighbour(p, v, w, i, x);
    }
  }

  lemma OneClickMore(p: Product, s: Selection, t: Selection, u: Selection)
    requires SomeRunLeads(p, s, t) && (t == u || Clicked(p, t, u))
    ensures SomeRunLeads(p, s, u)
  {
    if t != u {
      var states :| IsRun(p, states) && states[0] == s && states[|states| - 1] == t;
      RunGoesOn(p, states, u);
      assert (states + [u])[0] == s;
    }
  }

  lemma {:induction false} ChainIsRun(p: Product, chain: seq<Variant>)
    requires Complete(p) && IsChain(p, chain)
    ensures SomeRunLeads(p, FullOf(p, chain[0]), FullOf(p, chain[|chain| - 1]))
  {
    var n := |chain| - 1;
    if n == 0 {
      assert IsRun(p, [FullOf(p, chain[0])]);
    } else {
      ChainIsRun(p, chain[..n]);
      LinkedIsClick(p, chain[n - 1], chain[n]);
      OneClickMore(p, FullOf(p, chain[0]), FullOf(p, chain[n - 1]), FullOf(p, chain[n]));
    }
  }

  lemma {:induction false} RunIsChain(p: Product, v: Variant, states: seq<Selection>) returns (chain: seq<Variant>)
    requires Complete(p) && v in p.variants && IsRun(p, states) && states[0] == FullOf(p, v)
    ensures IsChain(p, chain) && chain[0] == v && FullOf(p, chain[|chain| - 1]) == states[|states| - 1]
    decreases |states|
  {
    var n := |states| - 1;
    if n == 0 {
      chain := [v];
    } else {
      chain := RunIsChain(p, v, states[..n]);
      assert Clicked(p, states[n - 1], states[n]);
      var w := ClickIsLinked(p, chain[|chain| - 1], states[n]);
      chain := chain + [w];
    }
  }

  /**
   From one variant's full selection another's can be reached by enabled swatches exactly if a chain
   of variants leads from the one to the other in which neighbours differ in one option at most.
   */
  lemma ShownFromIffChain(p: Product, v: Variant, w: Variant)
    requires Complete(p) && v in p.variants && w in p.variants
    ensures SomeRunLeads(p, FullOf(p, v), FullOf(p, w)) <==> exists chain :: ChainLinks(p, chain, v, w)
  {
    if SomeRunLeads(p, FullOf(p, v), FullOf(p, w)) {
      var states :| IsRun(p, states) && states[0] == FullOf(p, v) && states[|states| - 1] == FullOf(p, w);
      var chain := RunIsChain(p, v, states);
      assert ChainLinks(p, chain + [w], v, w);
    }
    if chain :| ChainLinks(p, chain, v, w) {
      ChainIsRun(p, chain);
    }
  }

  /** Two options of two values each, of whose four combinations only two, in no option alike, exist. */
  function TwoOfFour(size: Id, colour: Id, small: Id, large: Id, red: Id, blue: Id): Product {
    Product([ProductOption(size, [small, large]), ProductOption(colour, [red, blue])],
            [Variant("1", [small, red]), Variant("2", [large, blue])])
  }

  lemma OneOfTwo(v: Variant, o: ProductOption, k: nat, x: Id, y: Id)
    requires k < 2 && |v.attributeValueIds| == 2 && v.attributeValueIds[k] == x && y !in v.attributeValueIds
    requires o.values == [x, y] || o.values == [y, x]
    ensures HasOneValue(v, o) && ValueOf(v, o) == x
  {
    assert IsOnlyValue(v, o, x);
  }

  /** There a shopper who has chosen the small red one can never see the large blue one. */
  lemma ShopperCanBeStuck(size: Id, colour: Id, small: Id, large: Id, red: Id, blue: Id)
    requires size != colour && small != large && red != blue && {small, large} !! {red, blue}
    ensures var p := TwoOfFour(size, colour, small, large, red, blue);
      Complete(p) && p.variants[0] in p.variants && !HasNeighbour(p, p.variants[0])
  {
    var p := TwoOfFour(size, colour, small, large, red, blue);
    var v, w, o, c := p.variants[0], p.variants[1], p.options[0], p.options[1];
    OneOfTwo(v, o, 0, small, large);
    OneOfTwo(v, c, 1, red, blue);
    OneOfTwo(w, o, 0, large, small);
    OneOfTwo(w, c, 1, blue, red);
    assert forall u :: u in p.variants ==> u == v || u == w;
    assert Complete(p);
    forall u, i | u in p.variants && 0 <= i < |p.options| ensures !DiffersOnlyIn(p, v, u, i) {
      assert ValueOf(u, p.options[1 - i]) == ValueOf(v, p.options[1 - i]) ==> u == v;
      assert u == v ==> ValueOf(u, p.options[i]) == ValueOf(v, p.options[i]);
    }
  }
}
