/**
 Template previews of the admin client (apps/admin/src/lib/notification-meta.ts): one split/join
 pass for each supported placeholder, then one pass that blanks every token left.
 */
module NotificationMeta {
  import opened JsStrings
  import opened Sequences

  datatype NotificationType =
    | OrderConfirmed | OrderCancelled | OrderPacked | OrderShipped | OrderDelivered
    | PaymentSuccess | PaymentFailed
    | ReviewApproved | ReviewRejected
    | PromotionAvailable
    | CouponAvailable

  function PlaceholdersForType(t: NotificationType): seq<string> {
    match t
    case OrderConfirmed | OrderCancelled | OrderPacked | OrderShipped | OrderDelivered =>
      ["customerName", "orderNumber", "orderTotal", "shippingMethod"]
    case PaymentSuccess | PaymentFailed => ["customerName", "orderNumber", "orderTotal"]
    case ReviewApproved | ReviewRejected => ["productName"]
    case PromotionAvailable => ["promotionName"]
    case CouponAvailable => ["couponCode"]
  }

  /** The example value of a placeholder, empty for a name without one. */
  function ExampleValue(name: string): string {
    if name == "customerName" then "Jane Doe"
    else if name == "orderNumber" then "PES-20260101-ABC123"
    else if name == "orderTotal" then "\U{20B9}500.00"
    else if name == "shippingMethod" then "Standard Shipping"
    else if name == "productName" then "Wireless Headphones"
    else if name == "promotionName" then "Festive Season Sale"
    else if name == "couponCode" then "FEST25"
    else ""
  }

  function TokenOf(name: string): string {
    "{{" + name + "}}"
  }

  function SubstitutePass(text: string, name: string): string {
    Join(Split(text, TokenOf(name)), ExampleValue(name))
  }

  function SubstituteAll(text: string, names: seq<string>): string
    decreases names
  {
    if names == [] then text else SubstituteAll(SubstitutePass(text, names[0]), names[1..])
  }

  /** `[\w.]` of ECMA-262. */
  predicate IsWordOrDot(c: char) {
    'a' <= c <= 'z' || 'A' <= c <= 'Z' || '0' <= c <= '9' || c == '_' || c == '.'
  }

  function SpaceRun(s: string): (n: nat)
    ensures n <= |s|
  {
    if s != "" && IsSpace(s[0]) then 1 + SpaceRun(s[1..]) else 0
  }

  function WordRun(s: string): (n: nat)
    ensures n <= |s|
  {
    if s != "" && IsWordOrDot(s[0]) then 1 + WordRun(s[1..]) else 0
  }

  /**
   The length of the match of `\{\{\s*[\w.]+\s*\}\}` at the start of `s`, or 0.  Neighbouring
   classes are disjoint, so the greedy runs are the only way to match.
   */
  function TokenLength(s: string): (n: nat)
    ensures n <= |s|
  {
    if !("{{" <= s) then 0
    else
      var i := 2 + SpaceRun(s[2..]);
      var j := i + WordRun(s[i..]);
      var k := j + SpaceRun(s[j..]);
      if i < j && "}}" <= s[k..] then k + 2 else 0
  }

  /** `s.replace(/\{\{\s*[\w.]+\s*\}\}/g, '')`. */
  function BlankTokens(s: string): string
    decreases |s|
  {
    if s == "" then ""
    else if TokenLength(s) > 0 then BlankTokens(s[TokenLength(s)..])
    else [s[0]] + BlankTokens(s[1..])
  }

  method RenderTemplatePreview(body: string, t: NotificationType) returns (result: string)
    ensures result == BlankTokens(SubstituteAll(body, PlaceholdersForType(t)))
    ensures forall ps :: WellFormed(ps) && body == TemplateText(ps) ==>
      result == PreviewMeaning(ps, set n | n in PlaceholdersForType(t))
  {
    var supported := PlaceholdersForType(t);
    result := body;
    for k := 0 to |supported|
      invariant SubstituteAll(result, supported[k..]) == SubstituteAll(body, supported)
    {
      var name := supported[k];
      var value := ExampleValue(name);
      result := Join(Split(result, TokenOf(name)), value);
    }
    result := BlankTokens(result);
    forall ps | WellFormed(ps) && body == TemplateText(ps)
      ensures result == PreviewMeaning(ps, set n | n in PlaceholdersForType(t))
    {
      PreviewIsSimultaneous(ps, t);
    }
  }

  // ---------------------------------------------------------------- what a template means

  /** A template is literal text without braces, and tokens with optional spaces around the name. */
  datatype Piece =
    | Literal(text: string)
    | Token(before: string, name: string, after: string)

  /** Letters, digits, underscores and points. */
  predicate IsName(name: string) {
    && name != ""
    && forall i :: 0 <= i < |name| ==>
         'a' <= name[i] <= 'z' || 'A' <= name[i] <= 'Z' || '0' <= name[i] <= '9' || name[i] in {'_', '.'}
  }

  predicate NoBraces(s: string) {
    forall i :: 0 <= i < |s| ==> s[i] != '{' && s[i] != '}'
  }

  predicate AllSpace(s: string) {
    forall i :: 0 <= i < |s| ==> IsSpace(s[i])
  }

  predicate WellFormedPiece(p: Piece) {
    match p
    case Literal(text) => NoBraces(text)
    case Token(before, name, after) => AllSpace(before) && IsName(name) && AllSpace(after)
  }

  predicate WellFormed(ps: seq<Piece>) {
    forall i :: 0 <= i < |ps| ==> WellFormedPiece(ps[i])
  }

  function PieceText(p: Piece): string {
    match p
    case Literal(text) => text
    case Token(before, name, after) => "{{" + (before + name + after) + "}}"
  }

  function TemplateText(ps: seq<Piece>): string {
    if ps == [] then "" else PieceText(ps[0]) + TemplateText(ps[1..])
  }

  /** The reference: all tokens at once; one spelled exactly as a supported name has its value. */
  function Meaning(p: Piece, names: set<string>): string {
    match p
    case Literal(text) => text
    case Token(before, name, after) => if before == "" && after == "" && name in names then ExampleValue(name) else ""
  }

  function PreviewMeaning(ps: seq<Piece>, names: set<string>): string {
    if ps == [] then "" else Meaning(ps[0], names) + PreviewMeaning(ps[1..], names)
  }

  // ---------------------------------------------------------------- one pass on pieces

  function SubstitutePiece(p: Piece, name: string): Piece {
    if p == Token("", name, "") then Literal(ExampleValue(name)) else p
  }

  function SubstitutePieces(ps: seq<Piece>, name: string): seq<Piece> {
    if ps == [] then [] else [SubstitutePiece(ps[0], name)] + SubstitutePieces(ps[1..], name)
  }

  lemma OrderExamplesHaveNoBraces()
    ensures NoBraces("Jane Doe") && NoBraces("PES-20260101-ABC123") && NoBraces("\U{20B9}500.00")
  {
  }

  lemma OtherExamplesHaveNoBraces()
    ensures NoBraces("Standard Shipping") && NoBraces("Wireless Headphones")
    ensures NoBraces("Festive Season Sale") && NoBraces("FEST25")
  {
  }

  lemma ExampleValuesHaveNoBraces(name: string)
    ensures NoBraces(ExampleValue(name))
  {
    OrderExamplesHaveNoBraces();
    OtherExamplesHaveNoBraces();
  }

  lemma {:induction false} SubstitutedIsWellFormed(ps: seq<Piece>, name: string)
    requires WellFormed(ps)
    ensures WellFormed(SubstitutePieces(ps, name))
  {
    if ps != [] {
      SubstitutedIsWellFormed(ps[1..], name);
      ExampleValuesHaveNoBraces(name);
      assert WellFormedPiece(ps[0]);
    }
  }

  /** No occurrence of a token starts at a character other than an opening brace. */
  lemma {:induction false} ReplaceSkips(text: string, rest: string, token: string, sub: string)
    requires token != "" && token[0] == '{'
    requires forall i :: 0 <= i < |text| ==> text[i] != '{'
    ensures ReplaceAll(text + rest, token, sub) == text + ReplaceAll(rest, token, sub)
  {
    if text == "" {
      assert text + rest == rest;
    } else {
      ReplaceSkips(text[1..], rest, token, sub);
      assert (text + rest)[1..] == text[1..] + rest;
      assert [text[0]] + text[1..] == text;
    }
  }

  /** The token of `name` starts a text that begins with a token exactly if it is that token. */
  lemma TokenPrefix(inner: string, name: string, rest: string)
    requires NoBraces(inner) && NoBraces(name)
    ensures TokenOf(name) <= "{{" + inner + "}}" + rest <==> inner == name
  {
    var text, token := "{{" + inner + "}}" + rest, TokenOf(name);
    if token <= text {
      var n, m := |name|, |inner|;
      assert forall i :: 0 <= i < n ==> text[2 + i] == token[2 + i] == name[i];
      assert forall i :: 0 <= i < m ==> text[2 + i] == inner[i];
      assert text[2 + n] == token[2 + n] == '}' == text[2 + m];
      assert n == m;
    }
    if inner == name {
      assert text == token + rest;
    }
  }

  lemma ReplaceHere(token: string, rest: string, sub: string)
    requires token != ""
    ensures ReplaceAll(token + rest, token, sub) == sub + ReplaceAll(rest, token, sub)
  {
    assert (token + rest)[|token|..] == rest;
  }

  lemma ReplaceNotHere(c: char, rest: string, token: string, sub: string)
    requires token != "" && !(token <= [c] + rest)
    ensures ReplaceAll([c] + rest, token, sub) == [c] + ReplaceAll(rest, token, sub)
  {
    assert ([c] + rest)[1..] == rest;
  }

  lemma ReplaceInToken(inner: string, name: string, rest: string, sub: string)
    requires NoBraces(inner) && inner != "" && NoBraces(name)
    ensures ReplaceAll("{{" + inner + "}}" + rest, TokenOf(name), sub) ==
      (if inner == name then sub else "{{" + inner + "}}") + ReplaceAll(rest, TokenOf(name), sub)
  {
    var token, tail := TokenOf(name), inner + "}}";
    TokenPrefix(inner, name, rest);
    if inner == name {
      ReplaceHere(token, rest, sub);
    } else {
      var text := "{{" + inner + "}}" + rest;
      BracesInFront(inner, rest);
      ReplaceNotHere('{', ['{'] + (tail + rest), token, sub);
      assert !(token <= ['{'] + (tail + rest)) by {
        assert token[1] == '{' && (['{'] + (tail + rest))[1] == inner[0];
      }
      ReplaceNotHere('{', tail + rest, token, sub);
      ReplaceSkips(tail, rest, token, sub);
      BracesInFront(inner, ReplaceAll(rest, token, sub));
    }
  }

  lemma BracesInFront(inner: string, rest: string)
    ensures ['{'] + (['{'] + ((inner + "}}") + rest)) == "{{" + inner + "}}" + rest
  {
  }

  lemma InnerHasNoBraces(p: Piece)
    requires p.Token? && WellFormedPiece(p)
    ensures var inner := p.before + p.name + p.after; NoBraces(inner) && inner != ""
  {
  }

  /** A token spells a name exactly when it is that name without spaces around it. */
  lemma SpellsName(p: Piece, name: string)
    requires p.Token? && WellFormedPiece(p) && IsName(name)
    ensures p.before + p.name + p.after == name <==> p == Token("", name, "")
  {
    var inner := p.before + p.name + p.after;
    if p.before == "" && p.after == "" {
      assert inner == p.name;
    } else {
      var k := if p.before != "" then 0 else |inner| - 1;
      assert inner[k] == if p.before != "" then p.before[0] else p.after[|p.after| - 1];
      assert !IsWordOrDot(inner[k]);
    }
  }

  /** On text made of pieces a pass replaces whole tokens, and only the exact ones. */
  lemma {:induction false} PassOnPieces(ps: seq<Piece>, name: string)
    requires WellFormed(ps) && IsName(name)
    ensures SubstitutePass(TemplateText(ps), name) == TemplateText(SubstitutePieces(ps, name))
  {
    JoinOfSplit(TemplateText(ps), TokenOf(name), ExampleValue(name));
    if ps != [] {
      var p, rest := ps[0], TemplateText(ps[1..]);
      assert WellFormedPiece(p);
      PassOnPieces(ps[1..], name);
      JoinOfSplit(rest, TokenOf(name), ExampleValue(name));
      if p.Literal? {
        ReplaceSkips(p.text, rest, TokenOf(name), ExampleValue(name));
      } else {
        InnerHasNoBraces(p);
        SpellsName(p, name);
        ReplaceInToken(p.before + p.name + p.after, name, rest, ExampleValue(name));
      }
      assert SubstitutePieces(ps, name)[1..] == SubstitutePieces(ps[1..], name);
    }
  }

  // ---------------------------------------------------------------- the blanking pass on pieces

  lemma NoTokenAt(c: char, rest: string)
    requires c != '{'
    ensures BlankTokens([c] + rest) == [c] + BlankTokens(rest)
  {
    var s := [c] + rest;
    assert !("{{" <= s) by {
      assert "{{"[0] != s[0];
    }
    assert s[1..] == rest;
  }

  lemma FirstInFront(text: string, rest: string)
    requires text != ""
    ensures text + rest == [text[0]] + (text[1..] + rest)
  {
  }

  lemma {:induction false} BlankSkips(text: string, rest: string)
    requires forall i :: 0 <= i < |text| ==> text[i] != '{'
    ensures BlankTokens(text + rest) == text + BlankTokens(rest)
  {
    if text == "" {
      assert text + rest == rest && text + BlankTokens(rest) == BlankTokens(rest);
    } else {
      BlankSkips(text[1..], rest);
      NoTokenAt(text[0], text[1..] + rest);
      FirstInFront(text, rest);
      FirstInFront(text, BlankTokens(rest));
    }
  }

  lemma {:induction false} SpaceRunOf(s: string, rest: string)
    requires AllSpace(s) && (rest == "" || !IsSpace(rest[0]))
    ensures SpaceRun(s + rest) == |s|
  {
    if s == "" {
      assert s + rest == rest;
    } else {
      SpaceRunOf(s[1..], rest);
      assert (s + rest)[1..] == s[1..] + rest;
    }
  }

  lemma {:induction false} WordRunOf(s: string, rest: string)
    requires (forall i :: 0 <= i < |s| ==> IsWordOrDot(s[i])) && (rest == "" || !IsWordOrDot(rest[0]))
    ensures WordRun(s + rest) == |s|
  {
    if s == "" {
      assert s + rest == rest;
    } else {
      WordRunOf(s[1..], rest);
      assert (s + rest)[1..] == s[1..] + rest;
    }
  }

  lemma TokenShape(before: string, name: string, after: string, rest: string)
    ensures var text, end := "{{" + (before + name + after) + "}}" + rest, "}}" + rest;
      && text[2..] == before + (name + (after + end))
      && text[2 + |before|..] == name + (after + end)
      && text[2 + |before| + |name|..] == after + end
      && text[2 + |before| + |name| + |after|..] == end
  {
  }

  lemma TokenLengthOf(before: string, name: string, after: string, rest: string)
    requires AllSpace(before) && IsName(name) && AllSpace(after)
    ensures TokenLength("{{" + (before + name + after) + "}}" + rest) == 4 + |before| + |name| + |after|
  {
    var end := "}}" + rest;
    TokenShape(before, name, after, rest);
    SpaceRunOf(before, name + (after + end));
    WordRunOf(name, after + end);
    SpaceRunOf(after, end);
  }

  lemma {:induction false} SpacesRun(s: string)
    ensures AllSpace(s[..SpaceRun(s)])
  {
    if s != "" && IsSpace(s[0]) {
      SpacesRun(s[1..]);
      assert s[..SpaceRun(s)] == [s[0]] + s[1..][..SpaceRun(s[1..])];
    }
  }

  lemma {:induction false} NameRuns(s: string)
    ensures WordRun(s) > 0 ==> IsName(s[..WordRun(s)])
  {
    if s != "" && IsWordOrDot(s[0]) {
      NameRuns(s[1..]);
      assert s[..WordRun(s)] == [s[0]] + s[1..][..WordRun(s[1..])];
    }
  }

  /** `s` starts with a token of `n` characters, spaces around the name included. */
  ghost predicate StartsWithToken(s: string, n: nat) {
    exists before, name, after :: IsTokenOf(s, n, before, name, after)
  }

  predicate IsTokenOf(s: string, n: nat, before: string, name: string, after: string) {
    && AllSpace(before) && IsName(name) && AllSpace(after)
    && n == 4 + |before| + |name| + |after|
    && "{{" + (before + name + after) + "}}" <= s
  }

  /** The pattern matches at the start of a text exactly if the text starts with a token, and all of that. */
  lemma TokenLengthIff(s: string, n: nat)
    requires n > 0
    ensures TokenLength(s) == n <==> StartsWithToken(s, n)
  {
    if TokenLength(s) == n {
      MatchIsToken(s);
    }
    if before, name, after :| IsTokenOf(s, n, before, name, after) {
      var text := "{{" + (before + name + after) + "}}";
      TokenLengthOf(before, name, after, s[|text|..]);
      assert s == text + s[|text|..];
    }
  }

  lemma MatchIsToken(s: string)
    requires TokenLength(s) > 0
    ensures StartsWithToken(s, TokenLength(s))
  {
    var i := 2 + SpaceRun(s[2..]);
    var j := i + WordRun(s[i..]);
    var k := j + SpaceRun(s[j..]);
    SpacesRun(s[2..]);
    NameRuns(s[i..]);
    SpacesRun(s[j..]);
    SlicesJoin(s, i, j, k);
    assert IsTokenOf(s, k + 2, s[2..][..i - 2], s[i..][..j - i], s[j..][..k - j]);
  }

  lemma SlicesJoin(s: string, i: nat, j: nat, k: nat)
    requires 2 <= i <= j <= k && k + 2 <= |s| && "{{" <= s && "}}" <= s[k..]
    ensures "{{" + (s[2..][..i - 2] + s[i..][..j - i] + s[j..][..k - j]) + "}}" <= s
  {
    assert s[2..][..i - 2] + s[i..][..j - i] + s[j..][..k - j] == s[2..k];
    assert s[..2] == "{{" && s[k..k + 2] == s[k..][..2] == "}}";
    assert s[..k + 2] == s[..2] + s[2..k] + s[k..k + 2];
  }

  lemma BlankToken(p: Piece, rest: string)
    requires p.Token? && WellFormedPiece(p)
    ensures BlankTokens(PieceText(p) + rest) == BlankTokens(rest)
  {
    TokenLengthOf(p.before, p.name, p.after, rest);
    BlankMatch(PieceText(p), rest);
  }

  lemma BlankMatch(token: string, rest: string)
    requires TokenLength(token + rest) == |token| > 0
    ensures BlankTokens(token + rest) == BlankTokens(rest)
  {
    assert (token + rest)[|token|..] == rest;
  }

  lemma BlankPiece(p: Piece, rest: string)
    requires WellFormedPiece(p)
    ensures BlankTokens(PieceText(p) + rest) == Meaning(p, {}) + BlankTokens(rest)
  {
    if p.Literal? {
      BlankSkips(p.text, rest);
    } else {
      BlankToken(p, rest);
      assert "" + BlankTokens(rest) == BlankTokens(rest);
    }
  }

  lemma {:induction false} BlankOnPieces(ps: seq<Piece>)
    requires WellFormed(ps)
    ensures BlankTokens(TemplateText(ps)) == PreviewMeaning(ps, {})
  {
    if ps != [] {
      assert WellFormedPiece(ps[0]);
      BlankOnPieces(ps[1..]);
      BlankPiece(ps[0], TemplateText(ps[1..]));
    }
  }

  // ---------------------------------------------------------------- main results

  lemma {:induction false} OnePassLess(ps: seq<Piece>, name: string, names: set<string>)
    ensures PreviewMeaning(SubstitutePieces(ps, name), names) == PreviewMeaning(ps, names + {name})
  {
    if ps != [] {
      OnePassLess(ps[1..], name, names);
      assert SubstitutePieces(ps, name)[1..] == SubstitutePieces(ps[1..], name);
    }
  }

  /** Any list of passes followed by the blanking is one simultaneous substitution. */
  lemma {:induction false} PassesAreSimultaneous(ps: seq<Piece>, names: seq<string>)
    requires WellFormed(ps) && forall i :: 0 <= i < |names| ==> IsName(names[i])
    ensures BlankTokens(SubstituteAll(TemplateText(ps), names)) == PreviewMeaning(ps, set n | n in names)
    decreases names
  {
    if names == [] {
      BlankOnPieces(ps);
      assert (set n | n in names) == {};
    } else {
      var qs := SubstitutePieces(ps, names[0]);
      PassOnPieces(ps, names[0]);
      SubstitutedIsWellFormed(ps, names[0]);
      PassesAreSimultaneous(qs, names[1..]);
      OnePassLess(ps, names[0], set n | n in names[1..]);
      assert (set n | n in names[1..]) + {names[0]} == (set n | n in names);
    }
  }

  /** The preview of a well-formed template does not depend on the order, or repetition, of the passes. */
  lemma {:induction false} PassOrderDoesNotMatter(ps: seq<Piece>, names: seq<string>, others: seq<string>)
    requires WellFormed(ps)
    requires forall i :: 0 <= i < |names| ==> IsName(names[i])
    requires forall n :: n in names <==> n in others
    ensures BlankTokens(SubstituteAll(TemplateText(ps), names)) == BlankTokens(SubstituteAll(TemplateText(ps), others))
  {
    forall i | 0 <= i < |others| ensures IsName(others[i]) {
      assert others[i] in names;
    }
    PassesAreSimultaneous(ps, names);
    PassesAreSimultaneous(ps, others);
    assert (set n | n in names) == (set n | n in others);
  }

  lemma PlaceholdersAreNames(t: NotificationType)
    ensures forall i :: 0 <= i < |PlaceholdersForType(t)| ==> IsName(PlaceholdersForType(t)[i])
  {
    OrderNames();
    OtherNames();
  }

  lemma OrderNames()
    ensures IsName("customerName") && IsName("orderNumber") && IsName("orderTotal") && IsName("shippingMethod")
  {
  }

  lemma OtherNames()
    ensures IsName("productName") && IsName("promotionName") && IsName("couponCode")
  {
  }

  /** For every notification type the preview is the simultaneous substitution of its placeholders. */
  lemma {:induction false} PreviewIsSimultaneous(ps: seq<Piece>, t: NotificationType)
    requires WellFormed(ps)
    ensures BlankTokens(SubstituteAll(TemplateText(ps), PlaceholdersForType(t))) ==
      PreviewMeaning(ps, set n | n in PlaceholdersForType(t))
  {
    PlaceholdersAreNames(t);
    PassesAreSimultaneous(ps, PlaceholdersForType(t));
  }

  // ---------------------------------------------------------------- what each type shows

  /** In a template for `t` the exactly spelled token of `name` is previewed as `value`. */
  predicate Shows(t: NotificationType, name: string, value: string) {
    BlankTokens(SubstituteAll("{{" + name + "}}", PlaceholdersForType(t))) == value
  }

  lemma OneToken(name: string)
    ensures TemplateText([Token("", name, "")]) == "{{" + name + "}}"
  {
    var p := Token("", name, "");
    assert [p][1..] == [] && "" + name + "" == name;
    assert PieceText(p) + "" == PieceText(p);
  }

  lemma OneMeaning(p: Piece, names: set<string>)
    ensures PreviewMeaning([p], names) == Meaning(p, names)
  {
    assert [p][1..] == [] && Meaning(p, names) + "" == Meaning(p, names);
  }

  lemma ShowsExample(t: NotificationType, name: string)
    requires IsName(name)
    ensures Shows(t, name, if name in PlaceholdersForType(t) then ExampleValue(name) else "")
  {
    var p := Token("", name, "");
    assert WellFormedPiece(p);
    PreviewIsSimultaneous([p], t);
    OneToken(name);
    OneMeaning(p, set n | n in PlaceholdersForType(t));
  }

  predicate IsOrderType(t: NotificationType) {
    t in {OrderConfirmed, OrderCancelled, OrderPacked, OrderShipped, OrderDelivered}
  }

  predicate IsPaymentType(t: NotificationType) {
    t in {PaymentSuccess, PaymentFailed}
  }

  predicate IsReviewType(t: NotificationType) {
    t in {ReviewApproved, ReviewRejected}
  }

  lemma NamesDiffer()
    ensures Distinct(["customerName", "orderNumber", "orderTotal", "shippingMethod", "productName", "promotionName",
                      "couponCode"])
  {
    assert |"customerName"| == 12 && |"orderNumber"| == 11 && |"orderTotal"| == 10 && |"shippingMethod"| == 14;
    assert |"productName"| == 11 && |"promotionName"| == 13 && |"couponCode"| == 10;
    assert "orderNumber"[0] == 'o' && "productName"[0] == 'p' && "orderTotal"[0] == 'o' && "couponCode"[0] == 'c';
  }

  lemma Examples()
    ensures ExampleValue("customerName") == "Jane Doe" && ExampleValue("orderNumber") == "PES-20260101-ABC123"
    ensures ExampleValue("orderTotal") == "\U{20B9}500.00" && ExampleValue("shippingMethod") == "Standard Shipping"
    ensures ExampleValue("productName") == "Wireless Headphones"
    ensures ExampleValue("promotionName") == "Festive Season Sale" && ExampleValue("couponCode") == "FEST25"
  {
    NamesDiffer();
  }

  lemma OrderTable(t: NotificationType)
    ensures "customerName" in PlaceholdersForType(t) <==> IsOrderType(t) || IsPaymentType(t)
    ensures "orderNumber" in PlaceholdersForType(t) <==> IsOrderType(t) || IsPaymentType(t)
    ensures "orderTotal" in PlaceholdersForType(t) <==> IsOrderType(t) || IsPaymentType(t)
    ensures "shippingMethod" in PlaceholdersForType(t) <==> IsOrderType(t)
  {
    NamesDiffer();
  }

  lemma OtherTable(t: NotificationType)
    ensures "productName" in PlaceholdersForType(t) <==> IsReviewType(t)
    ensures "promotionName" in PlaceholdersForType(t) <==> t == PromotionAvailable
    ensures "couponCode" in PlaceholdersForType(t) <==> t == CouponAvailable
  {
    NamesDiffer();
  }

  /** What the seven placeholders show in templates of each type: their example where supported, else nothing. */
  lemma PlaceholdersShow(t: NotificationType)
    ensures Shows(t, "customerName", if IsOrderType(t) || IsPaymentType(t) then "Jane Doe" else "")
    ensures Shows(t, "orderNumber", if IsOrderType(t) || IsPaymentType(t) then "PES-20260101-ABC123" else "")
    ensures Shows(t, "orderTotal", if IsOrderType(t) || IsPaymentType(t) then "\U{20B9}500.00" else "")
    ensures Shows(t, "shippingMethod", if IsOrderType(t) then "Standard Shipping" else "")
    ensures Shows(t, "productName", if IsReviewType(t) then "Wireless Headphones" else "")
    ensures Shows(t, "promotionName", if t == PromotionAvailable then "Festive Season Sale" else "")
    ensures Shows(t, "couponCode", if t == CouponAvailable then "FEST25" else "")
  {
    OrderNames();
    OtherNames();
    ShowsExample(t, "customerName");
    ShowsExample(t, "orderNumber");
    ShowsExample(t, "orderTotal");
    ShowsExample(t, "shippingMethod");
    ShowsExample(t, "productName");
    ShowsExample(t, "promotionName");
    ShowsExample(t, "couponCode");
    OrderTable(t);
    OtherTable(t);
    Examples();
  }
}
