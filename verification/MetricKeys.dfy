/**
 The key under which the metrics registry files a name and its labels
 (`key` in apps/api/src/common/metrics/metrics.service.ts).  The collation order of `localeCompare`
 is a parameter, taken to be a strict total order on the label names.
 */
module MetricKeys {
  import opened JsStrings
  import opened Sequences

  /** A property of the label record; a record lists its properties in insertion order. */
  datatype Label = Label(name: string, value: string)

  type Order = (string, string) -> bool

  ghost predicate StrictTotal(less: Order) {
    && (forall a :: !less(a, a))
    && (forall a, b, c :: less(a, b) && less(b, c) ==> less(a, c))
    && (forall a, b :: a != b ==> less(a, b) || less(b, a))
  }

  ghost predicate DistinctNames(labels: seq<Label>) {
    forall i, j :: 0 <= i < j < |labels| ==> labels[i].name != labels[j].name
  }

  ghost predicate SameLabels(a: seq<Label>, b: seq<Label>) {
    forall l :: l in a <==> l in b
  }

  function Insert(l: Label, labels: seq<Label>, less: Order): seq<Label> {
    if labels == [] then [l]
    else if less(l.name, labels[0].name) then [l] + labels
    else [labels[0]] + Insert(l, labels[1..], less)
  }

  function Sort(labels: seq<Label>, less: Order): seq<Label> {
    if labels == [] then [] else Insert(labels[0], Sort(labels[1..], less), less)
  }

  function TextOf(l: Label): string {
    l.name + "=" + l.value
  }

  function LabelTexts(labels: seq<Label>): (texts: seq<string>)
    ensures |texts| == |labels|
  {
    if labels == [] then [] else [TextOf(labels[0])] + LabelTexts(labels[1..])
  }

  function LabelPart(labels: seq<Label>, less: Order): string {
    Join(LabelTexts(Sort(labels, less)), ",")
  }

  function Key(name: string, labels: seq<Label>, less: Order): string {
    var labelPart := LabelPart(labels, less);
    if labelPart != "" then name + "{" + labelPart + "}" else name
  }

  /** The order by code units: one that meets `StrictTotal`. */
  predicate Before(a: string, b: string) {
    b != "" && (a == "" || a[0] < b[0] || (a[0] == b[0] && Before(a[1..], b[1..])))
  }

  lemma {:induction false} BeforeIsTotal(a: string, b: string)
    ensures !Before(a, a) && (a != b ==> Before(a, b) || Before(b, a))
  {
    if a != "" {
      BeforeIsTotal(a[1..], if b != "" then b[1..] else "");
      assert b != "" && a[0] == b[0] && a[1..] == b[1..] ==> a == [a[0]] + a[1..] == [b[0]] + b[1..] == b;
    }
  }

  lemma {:induction false} BeforeIsTransitive(a: string, b: string, c: string)
    requires Before(a, b) && Before(b, c)
    ensures Before(a, c)
  {
    if a != "" && a[0] == b[0] == c[0] {
      BeforeIsTransitive(a[1..], b[1..], c[1..]);
    }
  }

  lemma OrderExists()
    ensures StrictTotal(Before)
  {
    forall a, b ensures !Before(a, a) && (a != b ==> Before(a, b) || Before(b, a)) {
      BeforeIsTotal(a, b);
    }
    forall a, b, c | Before(a, b) && Before(b, c) ensures Before(a, c) {
      BeforeIsTransitive(a, b, c);
    }
  }

  // ---------------------------------------------------------------- sorting forgets the order

  ghost predicate Sorted(labels: seq<Label>, less: Order) {
    forall i, j :: 0 <= i < j < |labels| ==> less(labels[i].name, labels[j].name)
  }

  lemma {:induction false} InsertHas(l: Label, labels: seq<Label>, less: Order, x: Label)
    ensures x in Insert(l, labels, less) <==> x == l || x in labels
  {
    if labels != [] && !less(l.name, labels[0].name) {
      InsertHas(l, labels[1..], less, x);
    }
  }

  lemma {:induction false} InsertSorts(l: Label, labels: seq<Label>, less: Order)
    requires StrictTotal(less) && Sorted(labels, less)
    requires forall x :: x in labels ==> x.name != l.name
    ensures Sorted(Insert(l, labels, less), less)
  {
    if labels != [] && !less(l.name, labels[0].name) {
      var tail := Insert(l, labels[1..], less);
      InsertSorts(l, labels[1..], less);
      assert labels[0] in labels && less(labels[0].name, l.name);
      forall i | 0 <= i < |tail| ensures less(labels[0].name, tail[i].name) {
        InsertHas(l, labels[1..], less, tail[i]);
        if tail[i] in labels[1..] {
          var j :| 0 <= j < |labels[1..]| && labels[1..][j] == tail[i];
          assert tail[i] == labels[j + 1];
        }
      }
    }
  }

  lemma {:induction false} SortMeaning(labels: seq<Label>, less: Order)
    requires StrictTotal(less) && DistinctNames(labels)
    ensures Sorted(Sort(labels, less), less)
    ensures SameLabels(Sort(labels, less), labels)
  {
    if labels != [] {
      var rest := Sort(labels[1..], less);
      SortMeaning(labels[1..], less);
      forall x ensures x in Sort(labels, less) <==> x in labels {
        InsertHas(labels[0], rest, less, x);
        assert x in labels <==> x == labels[0] || x in labels[1..];
        assert x in rest <==> x in labels[1..];
      }
      forall x | x in rest ensures x.name != labels[0].name {
        assert x in labels[1..];
      }
      InsertSorts(labels[0], rest, less);
    }
  }

  /** A sorted list is determined by its elements. */
  lemma {:induction false} SortedIsUnique(a: seq<Label>, b: seq<Label>, less: Order)
    requires StrictTotal(less) && Sorted(a, less) && Sorted(b, less) && SameLabels(a, b)
    ensures a == b
  {
    assert b != [] ==> b[0] in b;
    if a == [] {
      assert b == [];
    } else {
      assert a[0] in b;
      assert b[0] in a;
      assert a[0] == b[0];
      forall x ensures x in a[1..] <==> x in b[1..] {
        FirstIsAlone(a, less);
        FirstIsAlone(b, less);
        assert x in a <==> x == a[0] || x in a[1..];
        assert x in b <==> x == b[0] || x in b[1..];
      }
      SortedIsUnique(a[1..], b[1..], less);
    }
  }

  lemma FirstIsAlone(a: seq<Label>, less: Order)
    requires StrictTotal(less) && Sorted(a, less) && a != []
    ensures a[0] !in a[1..]
  {
    forall i | 0 <= i < |a| - 1 ensures a[1..][i] != a[0] {
      assert less(a[0].name, a[i + 1].name);
    }
  }

  /** The key depends on the label record only, not on the order of its properties. */
  lemma KeyIgnoresInsertionOrder(name: string, a: seq<Label>, b: seq<Label>, less: Order)
    requires StrictTotal(less) && DistinctNames(a) && DistinctNames(b) && SameLabels(a, b)
    ensures Key(name, a, less) == Key(name, b, less)
  {
    SortMeaning(a, less);
    SortMeaning(b, less);
    SortedIsUnique(Sort(a, less), Sort(b, less), less);
  }

  lemma {:induction false} SortedStays(labels: seq<Label>, less: Order)
    requires StrictTotal(less) && Sorted(labels, less)
    ensures Sort(labels, less) == labels
  {
    if labels != [] {
      assert forall i :: 0 <= i < |labels| - 1 ==> labels[1..][i] == labels[i + 1];
      SortedStays(labels[1..], less);
      assert labels == [labels[0]] + labels[1..];
      assert |labels| > 1 ==> less(labels[0].name, labels[1].name);
    }
  }

  /** Of labels in the order of their names the key is the name and, in braces, the labels between commas. */
  lemma KeyOfSorted(name: string, labels: seq<Label>, texts: seq<string>, less: Order)
    requires StrictTotal(less) && Sorted(labels, less) && |texts| == |labels|
    requires forall i :: 0 <= i < |labels| ==> texts[i] == labels[i].name + "=" + labels[i].value
    ensures Key(name, labels, less) == if labels == [] then name else name + "{" + Join(texts, ",") + "}"
  {
    SortedStays(labels, less);
    TextsAre(labels, texts);
    JoinIsEmptyIff(labels);
  }

  lemma {:induction false} TextsAre(labels: seq<Label>, texts: seq<string>)
    requires |texts| == |labels|
    requires forall i :: 0 <= i < |labels| ==> texts[i] == labels[i].name + "=" + labels[i].value
    ensures LabelTexts(labels) == texts
  {
    if labels != [] {
      TextsAre(labels[1..], texts[1..]);
    }
  }

  // ---------------------------------------------------------------- keys can be read back

  /** Names hold no separator; in the value no comma is followed later by an equals sign. */
  predicate PlainLabel(l: Label) {
    PlainName(l.name) && !CommaThenEquals(l.value)
  }

  predicate PlainName(name: string) {
    '=' !in name && ',' !in name
  }

  predicate CommaThenEquals(value: string) {
    exists i, j :: 0 <= i < j < |value| && value[i] == ',' && value[j] == '='
  }

  ghost predicate Plain(name: string, labels: seq<Label>) {
    '{' !in name && DistinctNames(labels) && forall l :: l in labels ==> PlainLabel(l)
  }

  /** What precedes the first `c` is determined by the whole. */
  lemma FirstOccurrence(a: string, b: string, s: string, t: string, c: char)
    requires c !in a && c !in b && a + [c] + s == b + [c] + t
    ensures a == b && s == t
  {
    var x, y := a + [c] + s, b + [c] + t;
    assert x[|a|] == c && y[|b|] == c;
    assert forall i :: 0 <= i < |a| ==> x[i] == a[i];
    assert forall i :: 0 <= i < |b| ==> y[i] == b[i];
    assert |a| == |b|;
    assert a == x[..|a|] && b == y[..|b|];
    assert s == x[|a| + 1..] && t == y[|b| + 1..];
  }

  /** What follows the value of a label: nothing, or a comma and the labels after it. */
  function Tail(labels: seq<Label>): string {
    if labels == [] then "" else "," + Join(LabelTexts(labels), ",")
  }

  /** The text from a label on, opened at the equals sign. */
  lemma OpenFirst(labels: seq<Label>)
    requires labels != []
    ensures Join(LabelTexts(labels), ",") == labels[0].name + ['='] + (labels[0].value + Tail(labels[1..]))
  {
    var text, rest := labels[0].name + ['='] + labels[0].value, labels[1..];
    JoinCons(text, LabelTexts(rest), ",");
    if rest == [] {
      assert text + Tail(rest) == text;
    } else {
      Concat3(text, ",", Join(LabelTexts(rest), ","));
    }
    Concat3(labels[0].name + ['='], labels[0].value, Tail(rest));
  }

  /** A plain value cannot run on into the label that follows the other value. */
  lemma ValueEndsFirst(v: string, n: string, rest: string, w: string, t: string)
    requires PlainName(n) && !CommaThenEquals(w) && (t != "" ==> t[0] == ',')
    requires v + ("," + (n + ['='] + rest)) == w + t
    ensures |w| <= |v|
  {
    var x := w + t;
    var at := |v| + 1 + |n|;
    assert x[|v|] == ',' && x[at] == '=';
    assert forall i :: 0 <= i < |w| ==> w[i] == x[i];
    assert |w| <= at;
    assert |w| < |x| ==> x[|w|] == t[0];
    assert forall i :: |v| < i < at ==> x[i] == n[i - |v| - 1] && x[i] in n;
  }

  lemma ValueIsNotLonger(v: string, a: seq<Label>, w: string, b: seq<Label>)
    requires !CommaThenEquals(w) && v + Tail(a) == w + Tail(b)
    requires a != [] ==> PlainName(a[0].name)
    ensures |w| <= |v|
  {
    if a != [] {
      OpenFirst(a);
      ValueEndsFirst(v, a[0].name, a[0].value + Tail(a[1..]), w, Tail(b));
    }
  }

  lemma SameLengthParts(a: string, s: string, b: string, t: string)
    requires |a| == |b| && a + s == b + t
    ensures a == b && s == t
  {
    assert a == (a + s)[..|a|] && b == (b + t)[..|b|];
    assert s == (a + s)[|a|..] && t == (b + t)[|b|..];
  }

  lemma TailTells(a: seq<Label>, b: seq<Label>)
    requires Tail(a) == Tail(b)
    ensures Join(LabelTexts(a), ",") == Join(LabelTexts(b), ",")
  {
    assert a != [] ==> Join(LabelTexts(a), ",") == Tail(a)[1..];
    assert b != [] ==> Join(LabelTexts(b), ",") == Tail(b)[1..];
  }

  lemma JoinIsEmptyIff(labels: seq<Label>)
    ensures Join(LabelTexts(labels), ",") == "" <==> labels == []
  {
    if labels != [] {
      OpenFirst(labels);
    }
  }

  lemma FirstLabelTells(a: seq<Label>, b: seq<Label>)
    requires a != [] && b != [] && PlainLabel(a[0]) && PlainLabel(b[0])
    requires (|a| > 1 ==> PlainName(a[1].name)) && (|b| > 1 ==> PlainName(b[1].name))
    requires Join(LabelTexts(a), ",") == Join(LabelTexts(b), ",")
    ensures a[0] == b[0] && Join(LabelTexts(a[1..]), ",") == Join(LabelTexts(b[1..]), ",")
  {
    var v, w := a[0].value, b[0].value;
    OpenFirst(a);
    OpenFirst(b);
    FirstOccurrence(a[0].name, b[0].name, v + Tail(a[1..]), w + Tail(b[1..]), '=');
    ValueIsNotLonger(v, a[1..], w, b[1..]);
    ValueIsNotLonger(w, b[1..], v, a[1..]);
    SameLengthParts(v, Tail(a[1..]), w, Tail(b[1..]));
    TailTells(a[1..], b[1..]);
  }

  lemma {:induction false} JoinedTextsAreInjective(a: seq<Label>, b: seq<Label>)
    requires forall l :: l in a + b ==> PlainLabel(l)
    requires Join(LabelTexts(a), ",") == Join(LabelTexts(b), ",")
    ensures a == b
  {
    JoinIsEmptyIff(a);
    JoinIsEmptyIff(b);
    if a != [] {
      assert forall l :: l in a || l in b ==> l in a + b;
      assert a[0] in a && b[0] in b && (|a| > 1 ==> a[1] in a) && (|b| > 1 ==> b[1] in b);
      FirstLabelTells(a, b);
      JoinedTextsAreInjective(a[1..], b[1..]);
      assert a == [a[0]] + a[1..] && b == [b[0]] + b[1..];
    }
  }

  /** Equal keys of plain names and labels come from the same name and the same labels. */
  lemma KeyIsInjective(n: string, a: seq<Label>, m: string, b: seq<Label>, less: Order)
    requires StrictTotal(less) && Plain(n, a) && Plain(m, b)
    requires Key(n, a, less) == Key(m, b, less)
    ensures n == m && SameLabels(a, b)
  {
    SortMeaning(a, less);
    SortMeaning(b, less);
    var sa, sb := Sort(a, less), Sort(b, less);
    BracePartsAgree(n, LabelPart(a, less), m, LabelPart(b, less));
    forall l | l in sa + sb ensures PlainLabel(l) {
      assert l in sa || l in sb;
      assert l in sa ==> l in a;
      assert l in sb ==> l in b;
    }
    JoinedTextsAreInjective(sa, sb);
    assert forall l :: l in a <==> l in sa;
    assert forall l :: l in b <==> l in sb;
  }

  lemma BraceInside(n: string, p: string)
    ensures '{' in n + "{" + p + "}"
  {
    assert (n + "{" + p + "}")[|n|] == '{';
  }

  lemma BracePartsAgree(n: string, p: string, m: string, q: string)
    requires '{' !in n && '{' !in m
    requires (if p != "" then n + "{" + p + "}" else n) == (if q != "" then m + "{" + q + "}" else m)
    ensures n == m && p == q
  {
    if p != "" && q != "" {
      assert n + "{" + p + "}" == n + ['{'] + (p + "}");
      assert m + "{" + q + "}" == m + ['{'] + (q + "}");
      FirstOccurrence(n, m, p + "}", q + "}", '{');
      assert p == (p + "}")[..|p|] && q == (q + "}")[..|q|];
    } else if p != "" {
      BraceInside(n, p);
    } else if q != "" {
      BraceInside(m, q);
    }
  }

  // ---------------------------------------------------------------- labels that run together

  lemma TextAt(labels: seq<Label>, i: nat)
    requires i < |labels|
    ensures LabelTexts(labels)[i] == TextOf(labels[i])
  {
    if i > 0 {
      TextAt(labels[1..], i - 1);
    }
  }

  lemma {:induction false} LabelTextsConcat(a: seq<Label>, b: seq<Label>)
    ensures LabelTexts(a + b) == LabelTexts(a) + LabelTexts(b)
  {
    if a == [] {
      assert a + b == b;
    } else {
      LabelTextsConcat(a[1..], b);
      assert (a + b)[1..] == a[1..] + b && (a + b)[0] == a[0];
      Concat3([TextOf(a[0])], LabelTexts(a[1..]), LabelTexts(b));
    }
  }

  /** The text of a label whose value is `x,k=y` is that of two labels. */
  lemma SplitKeepsText(pre: seq<Label>, n: string, x: string, k: string, y: string, post: seq<Label>)
    ensures Join(LabelTexts(pre + [Label(n, x + "," + k + "=" + y)] + post), ",") ==
      Join(LabelTexts(pre + [Label(n, x), Label(k, y)] + post), ",")
  {
    var one, two := [Label(n, x + "," + k + "=" + y)], [Label(n, x), Label(k, y)];
    LabelTextsConcat(pre + one, post);
    LabelTextsConcat(pre, one);
    LabelTextsConcat(pre + two, post);
    LabelTextsConcat(pre, two);
    var first, second := n + "=" + x, k + "=" + y;
    assert two[1..] == [Label(k, y)];
    assert LabelTexts([Label(k, y)]) == [second];
    assert LabelTexts(two) == [first, second];
    JoinCons(first, [second], ",");
    assert LabelTexts(one) == [n + "=" + (x + "," + k + "=" + y)];
    assert n + "=" + (x + "," + k + "=" + y) == first + "," + second;
    assert [first, second] == [first] + [second];
    JoinInside(LabelTexts(pre), LabelTexts(two), LabelTexts(post), ",");
  }

  /** The record in which the label at `i` becomes the two labels that its value reads as. */
  function SplitAt(labels: seq<Label>, i: nat, x: string, k: string, y: string): seq<Label>
    requires i < |labels|
  {
    labels[..i] + [Label(labels[i].name, x), Label(k, y)] + labels[i + 1..]
  }

  /** `k` sorts right after the name of the label at `i`. */
  ghost predicate SortsNext(labels: seq<Label>, i: nat, k: string, less: Order)
    requires i < |labels|
  {
    && less(labels[i].name, k)
    && forall j :: 0 <= j < |labels| && j != i ==> less(labels[j].name, labels[i].name) || less(k, labels[j].name)
  }

  lemma SplitNamesDiffer(labels: seq<Label>, i: nat, x: string, k: string, y: string, less: Order)
    requires StrictTotal(less) && DistinctNames(labels) && i < |labels| && SortsNext(labels, i, k, less)
    ensures DistinctNames(SplitAt(labels, i, x, k, y))
    ensures forall l :: l in labels ==> l.name != k
  {
    forall j | 0 <= j < |labels| ensures labels[j].name != k {
      assert j != i ==> less(labels[j].name, labels[i].name) || less(k, labels[j].name);
    }
  }

  lemma SplitSorted(s: seq<Label>, p: nat, x: string, k: string, y: string, less: Order)
    requires StrictTotal(less) && Sorted(s, less) && p < |s|
    requires less(s[p].name, k) && forall j :: p < j < |s| ==> less(k, s[j].name)
    ensures Sorted(SplitAt(s, p, x, k, y), less)
  {
    var t := SplitAt(s, p, x, k, y);
    forall i, j | 0 <= i < j < |t| ensures less(t[i].name, t[j].name) {
      assert t[i].name == if i <= p then s[i].name else if i == p + 1 then k else s[i - 1].name;
      assert t[j].name == if j <= p then s[j].name else if j == p + 1 then k else s[j - 1].name;
    }
  }

  /** In the sorted list the new label stands right after the one it was cut from. */
  lemma SplitStaysSorted(labels: seq<Label>, i: nat, x: string, k: string, y: string, less: Order, p: nat)
    requires StrictTotal(less) && DistinctNames(labels) && i < |labels| && SortsNext(labels, i, k, less)
    requires p < |Sort(labels, less)| && Sort(labels, less)[p] == labels[i]
    ensures Sort(SplitAt(labels, i, x, k, y), less) == SplitAt(Sort(labels, less), p, x, k, y)
  {
    var s, split := Sort(labels, less), SplitAt(labels, i, x, k, y);
    SortMeaning(labels, less);
    SplitNamesDiffer(labels, i, x, k, y, less);
    SortMeaning(split, less);
    forall j | p < j < |s| ensures less(k, s[j].name) {
      assert s[j] in s && less(s[p].name, s[j].name);
      var h :| 0 <= h < |labels| && labels[h] == s[j];
    }
    SplitSorted(s, p, x, k, y, less);
    SortedNamesDiffer(s, less);
    forall l ensures l in SplitAt(s, p, x, k, y) <==> l in split {
      OthersOf(s, p, l, x, k, y);
      OthersOf(labels, i, l, x, k, y);
    }
    SortedIsUnique(Sort(split, less), SplitAt(s, p, x, k, y), less);
  }

  lemma SortedNamesDiffer(s: seq<Label>, less: Order)
    requires StrictTotal(less) && Sorted(s, less)
    ensures DistinctNames(s)
  {
  }

  lemma OthersOf(labels: seq<Label>, i: nat, l: Label, x: string, k: string, y: string)
    requires i < |labels| && DistinctNames(labels)
    ensures l in SplitAt(labels, i, x, k, y) <==>
      (l in labels && l != labels[i]) || l == Label(labels[i].name, x) || l == Label(k, y)
  {
    assert l in labels <==> l in labels[..i] || l == labels[i] || l in labels[i + 1..];
    assert l in SplitAt(labels, i, x, k, y) <==>
      l in labels[..i] || l == Label(labels[i].name, x) || l == Label(k, y) || l in labels[i + 1..];
  }

  /**
   A label whose value reads `x,k=y` makes its record share the key of the record that has the two
   labels instead, whenever `k` sorts right after the label's name.
   */
  lemma SplitLabelCollides(name: string, labels: seq<Label>, i: nat, x: string, k: string, y: string, less: Order)
    requires StrictTotal(less) && DistinctNames(labels) && i < |labels| && SortsNext(labels, i, k, less)
    requires labels[i].value == x + "," + k + "=" + y
    ensures var split := SplitAt(labels, i, x, k, y);
      DistinctNames(split) && !SameLabels(split, labels) && Key(name, split, less) == Key(name, labels, less)
  {
    var s := Sort(labels, less);
    SortMeaning(labels, less);
    assert labels[i] in s;
    var p :| 0 <= p < |s| && s[p] == labels[i];
    SplitNamesDiffer(labels, i, x, k, y, less);
    SplitStaysSorted(labels, i, x, k, y, less, p);
    assert s == s[..p] + [Label(s[p].name, x + "," + k + "=" + y)] + s[p + 1..];
    SplitKeepsText(s[..p], s[p].name, x, k, y, s[p + 1..]);
    OthersOf(labels, i, Label(k, y), x, k, y);
  }

  ghost predicate PlainNames(labels: seq<Label>) {
    DistinctNames(labels) && forall l :: l in labels ==> PlainName(l.name)
  }

  /** The value reads as the rest of a label and one more label that sorts after `name`. */
  ghost predicate HidesLabel(name: string, value: string, less: Order) {
    exists x, k, y :: value == x + "," + k + "=" + y && PlainName(k) && less(name, k)
  }

  lemma SameNameSameParts(name: string, p: string, q: string)
    requires (if p != "" then name + "{" + p + "}" else name) == (if q != "" then name + "{" + q + "}" else name)
    ensures p == q
  {
    if p != "" && q != "" {
      var s, t := name + "{" + p + "}", name + "{" + q + "}";
      assert p == s[|name| + 1..|s| - 1] && q == t[|name| + 1..|t| - 1];
    }
  }

  lemma OpenBoth(a: seq<Label>, b: seq<Label>)
    requires |a| == 1 && b != [] && PlainName(a[0].name) && PlainName(b[0].name)
    requires Join(LabelTexts(a), ",") == Join(LabelTexts(b), ",")
    ensures a[0].name == b[0].name && a[0].value == b[0].value + Tail(b[1..])
    ensures |b| == 1 ==> a[0] == b[0]
  {
    OpenFirst(a);
    OpenFirst(b);
    FirstOccurrence(a[0].name, b[0].name, a[0].value + Tail(a[1..]), b[0].value + Tail(b[1..]), '=');
    assert a[0].value + Tail(a[1..]) == a[0].value;
    assert b[0].value + "" == b[0].value;
  }

  lemma ReadsAsLabel(w: string, rest: seq<Label>)
    requires rest != []
    ensures w + Tail(rest) == w + "," + rest[0].name + "=" + (rest[0].value + Tail(rest[1..]))
  {
    OpenFirst(rest);
    var k, y := rest[0].name, rest[0].value + Tail(rest[1..]);
    assert w + ("," + (k + ['='] + y)) == w + "," + k + "=" + y;
  }

  lemma SingleHides(a: seq<Label>, s: seq<Label>, less: Order)
    requires |a| == 1 && s != [] && PlainName(a[0].name) && Sorted(s, less)
    requires forall l :: l in s ==> PlainName(l.name)
    requires Join(LabelTexts(a), ",") == Join(LabelTexts(s), ",")
    ensures a == s || HidesLabel(a[0].name, a[0].value, less)
  {
    assert s[0] in s;
    OpenBoth(a, s);
    if |s| == 1 {
      assert s == a;
    } else {
      var rest := s[1..];
      assert rest[0] == s[1] && s[1] in s;
      ReadsAsLabel(s[0].value, rest);
    }
  }

  /** A one-label record shares its key with the same record only, or its value hides a label. */
  lemma SharedSingleHides(name: string, a: seq<Label>, b: seq<Label>, less: Order)
    requires StrictTotal(less) && |a| == 1 && PlainNames(a) && PlainNames(b)
    requires Key(name, a, less) == Key(name, b, less)
    ensures SameLabels(a, b) || HidesLabel(a[0].name, a[0].value, less)
  {
    SortMeaning(b, less);
    assert Sort(a, less) == a && a[0] in a;
    SameNameSameParts(name, LabelPart(a, less), LabelPart(b, less));
    JoinIsEmptyIff(a);
    JoinIsEmptyIff(Sort(b, less));
    SingleHides(a, Sort(b, less), less);
  }

  /** The first two labels written as one. */
  function MergeFirst(s: seq<Label>): seq<Label>
    requires |s| >= 2
  {
    [Label(s[0].name, s[0].value + "," + s[1].name + "=" + s[1].value)] + s[2..]
  }

  lemma MergedSplitsBack(s: seq<Label>, less: Order)
    requires StrictTotal(less) && Sorted(s, less) && PlainNames(s) && |s| >= 2
    ensures PlainNames(MergeFirst(s)) && SortsNext(MergeFirst(s), 0, s[1].name, less)
    ensures SplitAt(MergeFirst(s), 0, s[0].value, s[1].name, s[1].value) == s
  {
    var b := MergeFirst(s);
    assert s[0] in s;
    forall i | 0 < i < |b| ensures b[i] == s[i + 1] && b[i] in s && less(s[1].name, b[i].name) {
      assert s[i + 1] in s;
    }
    assert b[..0] == [] && b[1..] == s[2..];
    assert s == [s[0], s[1]] + s[2..];
    forall i, j | 0 <= i < j < |b| ensures b[i].name != b[j].name {
      assert b[j] == s[j + 1] && b[i].name == if i == 0 then s[0].name else s[i + 1].name;
    }
  }

  lemma TwoStayTwo(a: seq<Label>, b: seq<Label>)
    requires DistinctNames(a) && SameLabels(a, b) && |a| >= 2
    ensures |b| >= 2
  {
    assert a[0] in b && a[1] in b && a[0].name != a[1].name;
  }

  lemma MergedCollides(name: string, a: seq<Label>, less: Order) returns (b: seq<Label>)
    requires StrictTotal(less) && PlainNames(a) && |a| >= 2
    ensures PlainNames(b) && !SameLabels(a, b) && Key(name, a, less) == Key(name, b, less)
  {
    var s := Sort(a, less);
    SortMeaning(a, less);
    SortedNamesDiffer(s, less);
    TwoStayTwo(a, s);
    MergedSplitsBack(s, less);
    b := MergeFirst(s);
    SplitLabelCollides(name, b, 0, s[0].value, s[1].name, s[1].value, less);
    KeyIgnoresInsertionOrder(name, a, s, less);
  }

  /**
   Among records whose label names hold no separator, a key is shared by different labels exactly if
   there are two labels or more, or the only one's value hides another.
   */
  lemma KeyIsSharedIff(name: string, a: seq<Label>, less: Order)
    requires StrictTotal(less) && PlainNames(a)
    ensures (exists b :: PlainNames(b) && !SameLabels(a, b) && Key(name, a, less) == Key(name, b, less)) <==>
      |a| >= 2 || (|a| == 1 && HidesLabel(a[0].name, a[0].value, less))
  {
    forall b | PlainNames(b) && !SameLabels(a, b) && Key(name, a, less) == Key(name, b, less)
      ensures |a| >= 2 || (|a| == 1 && HidesLabel(a[0].name, a[0].value, less))
    {
      if |a| == 1 {
        SharedSingleHides(name, a, b, less);
      } else if a == [] {
        SortMeaning(b, less);
        JoinIsEmptyIff(Sort(b, less));
        SameNameSameParts(name, LabelPart(a, less), LabelPart(b, less));
      }
    }
    if |a| >= 2 {
      var b := MergedCollides(name, a, less);
    } else if |a| == 1 && HidesLabel(a[0].name, a[0].value, less) {
      var x, k, y :| a[0].value == x + "," + k + "=" + y && PlainName(k) && less(a[0].name, k);
      assert a[0] in a;
      SplitLabelCollides(name, a, 0, x, k, y, less);
      assert PlainNames(SplitAt(a, 0, x, k, y));
    }
  }

  // ---------------------------------------------------------------- records with the same label names

  ghost predicate SameNames(a: seq<Label>, b: seq<Label>) {
    |a| == |b| && forall i :: 0 <= i < |a| ==> a[i].name == b[i].name
  }

  lemma {:induction false} InsertSameNames(l: Label, a: seq<Label>, k: Label, b: seq<Label>, less: Order)
    requires l.name == k.name && SameNames(a, b)
    ensures SameNames(Insert(l, a, less), Insert(k, b, less))
  {
    if a != [] && !less(l.name, a[0].name) {
      InsertSameNames(l, a[1..], k, b[1..], less);
    }
  }

  /** Records with the same names are sorted into the same order. */
  lemma {:induction false} SortSameNames(a: seq<Label>, b: seq<Label>, less: Order)
    requires SameNames(a, b)
    ensures SameNames(Sort(a, less), Sort(b, less))
  {
    if a != [] {
      SortSameNames(a[1..], b[1..], less);
      InsertSameNames(a[0], Sort(a[1..], less), b[0], Sort(b[1..], less), less);
    }
  }

  /** No comma in any label but in the value of the one named `open`. */
  predicate CommasOnlyIn(labels: seq<Label>, open: string) {
    forall l :: l in labels ==> ',' !in l.name && (l.name == open || ',' !in l.value)
  }

  lemma TextsFree(labels: seq<Label>, open: string)
    requires CommasOnlyIn(labels, open) && forall l :: l in labels ==> l.name != open
    ensures FreeOf(LabelTexts(labels), ',')
  {
    forall text | text in LabelTexts(labels) ensures ',' !in text {
      var i :| 0 <= i < |labels| && LabelTexts(labels)[i] == text;
      TextAt(labels, i);
      assert labels[i] in labels;
    }
  }

  lemma OpenIndex(labels: seq<Label>, open: string) returns (at: nat)
    requires labels != [] && DistinctNames(labels)
    ensures at < |labels|
    ensures forall i :: 0 <= i < |labels| && i != at ==> labels[i].name != open
  {
    at := if exists i :: 0 <= i < |labels| && labels[i].name == open
      then var i :| 0 <= i < |labels| && labels[i].name == open; i else 0;
  }

  lemma TextsAround(labels: seq<Label>, at: nat)
    requires at < |labels|
    ensures LabelTexts(labels) == LabelTexts(labels[..at]) + [TextOf(labels[at])] + LabelTexts(labels[at + 1..])
  {
    var pre, one, post := labels[..at], [labels[at]], labels[at + 1..];
    Around(labels, at);
    LabelTextsConcat(pre + one, post);
    LabelTextsConcat(pre, one);
    assert LabelTexts([]) == [] && [TextOf(labels[at])] + [] == [TextOf(labels[at])];
  }

  lemma SameTextsSameLabels(a: seq<Label>, b: seq<Label>)
    requires SameNames(a, b) && LabelTexts(a) == LabelTexts(b)
    ensures a == b
  {
    forall i | 0 <= i < |a| ensures a[i] == b[i] {
      TextAt(a, i);
      TextAt(b, i);
      SameLengthParts(a[i].name + "=", a[i].value, b[i].name + "=", b[i].value);
    }
  }

  lemma OthersAreFree(labels: seq<Label>, at: nat, open: string)
    requires at < |labels| && CommasOnlyIn(labels, open)
    requires forall i :: 0 <= i < |labels| && i != at ==> labels[i].name != open
    ensures FreeOf(LabelTexts(labels[..at]), ',') && FreeOf(LabelTexts(labels[at + 1..]), ',')
  {
    TextsFree(labels[..at], open);
    TextsFree(labels[at + 1..], open);
  }

  lemma OpenTextsAreInjective(a: seq<Label>, b: seq<Label>, open: string)
    requires SameNames(a, b) && DistinctNames(a) && CommasOnlyIn(a, open) && CommasOnlyIn(b, open)
    requires Join(LabelTexts(a), ",") == Join(LabelTexts(b), ",")
    ensures a == b
  {
    if a != [] {
      var at := OpenIndex(a, open);
      TextsAround(a, at);
      TextsAround(b, at);
      OthersAreFree(a, at, open);
      OthersAreFree(b, at, open);
      OneOpenPart(LabelTexts(a[..at]), TextOf(a[at]), LabelTexts(a[at + 1..]),
        LabelTexts(b[..at]), TextOf(b[at]), LabelTexts(b[at + 1..]), ',');
      SameTextsSameLabels(a, b);
    }
  }

  /**
   Records with the same names, of which one may have any value: their keys under a metric's name
   are equal exactly if the records are.
   */
  lemma SameNamesKeyIff(name: string, a: seq<Label>, b: seq<Label>, open: string, less: Order)
    requires StrictTotal(less) && SameNames(a, b) && DistinctNames(a)
    requires CommasOnlyIn(a, open) && CommasOnlyIn(b, open)
    ensures Key(name, a, less) == Key(name, b, less) <==> SameLabels(a, b)
  {
    if Key(name, a, less) == Key(name, b, less) {
      SortMeaning(a, less);
      SortMeaning(b, less);
      SortSameNames(a, b, less);
      SortedNamesDiffer(Sort(a, less), less);
      SameNameSameParts(name, LabelPart(a, less), LabelPart(b, less));
      OpenTextsAreInjective(Sort(a, less), Sort(b, less), open);
    }
    if SameLabels(a, b) {
      KeyIgnoresInsertionOrder(name, a, b, less);
    }
  }
}
