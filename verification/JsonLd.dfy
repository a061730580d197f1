/**
 Script-safe JSON (apps/web/src/lib/json-ld.ts): five split/join passes over the text that
 `JSON.stringify` wrote.
 */
module JsonLd {
  import opened Options
  import opened JsStrings
  import opened JsonText
  import opened Sequences

  const LESS_THAN: CodeUnit := 0x3c
  const GREATER_THAN: CodeUnit := 0x3e
  const AMPERSAND: CodeUnit := 0x26
  const LINE_SEPARATOR: CodeUnit := 0x2028
  const PARAGRAPH_SEPARATOR: CodeUnit := 0x2029

  // The five replacement texts: \u003c, \u003e, \u0026, \u2028 and \u2029.
  const LESS_THAN_ESCAPE: Text := [0x5c, 0x75, 0x30, 0x30, 0x33, 0x63]
  const GREATER_THAN_ESCAPE: Text := [0x5c, 0x75, 0x30, 0x30, 0x33, 0x65]
  const AMPERSAND_ESCAPE: Text := [0x5c, 0x75, 0x30, 0x30, 0x32, 0x36]
  const LINE_SEPARATOR_ESCAPE: Text := [0x5c, 0x75, 0x32, 0x30, 0x32, 0x38]
  const PARAGRAPH_SEPARATOR_ESCAPE: Text := [0x5c, 0x75, 0x32, 0x30, 0x32, 0x39]

  predicate IsUnsafe(c: CodeUnit) {
    c == LESS_THAN || c == GREATER_THAN || c == AMPERSAND || c == LINE_SEPARATOR || c == PARAGRAPH_SEPARATOR
  }

  /** `json.split(unsafe).join(escape)`. */
  function Pass(json: Text, unsafe: CodeUnit, escape: Text): Text {
    Join(Split(json, [unsafe]), escape)
  }

  function EscapePasses(text: Text): Text {
    var json := Pass(text, LESS_THAN, LESS_THAN_ESCAPE);
    var json := Pass(json, GREATER_THAN, GREATER_THAN_ESCAPE);
    var json := Pass(json, AMPERSAND, AMPERSAND_ESCAPE);
    var json := Pass(json, LINE_SEPARATOR, LINE_SEPARATOR_ESCAPE);
    var json := Pass(json, PARAGRAPH_SEPARATOR, PARAGRAPH_SEPARATOR_ESCAPE);
    json
  }

  function SafeJsonLd(value: Json): Text {
    EscapePasses(Stringify(value))
  }

  // ---------------------------------------------------------------- the passes are one map

  /** The reference: an unsafe unit becomes its JSON escape, any other unit stays. */
  function EscapeUnit(c: CodeUnit): Text {
    if IsUnsafe(c) then UnicodeEscape(c) else [c]
  }

  function EscapeText(text: Text): Text {
    if text == [] then [] else EscapeUnit(text[0]) + EscapeText(text[1..])
  }

  /** The unit that pass `k` replaces. */
  function PassUnit(k: nat): CodeUnit {
    match k
    case 0 => LESS_THAN
    case 1 => GREATER_THAN
    case 2 => AMPERSAND
    case 3 => LINE_SEPARATOR
    case _ => PARAGRAPH_SEPARATOR
  }

  /** The units that the passes before `k` replace. */
  predicate ReplacedBefore(k: nat, c: CodeUnit) {
    k > 0 && (c == PassUnit(k - 1) || ReplacedBefore(k - 1, c))
  }

  function EscapeFirst(k: nat): CodeUnit -> Text {
    c => if ReplacedBefore(k, c) then UnicodeEscape(c) else [c]
  }

  lemma EscapeTexts()
    ensures UnicodeEscape(LESS_THAN) == LESS_THAN_ESCAPE
    ensures UnicodeEscape(GREATER_THAN) == GREATER_THAN_ESCAPE
    ensures UnicodeEscape(AMPERSAND) == AMPERSAND_ESCAPE
    ensures UnicodeEscape(LINE_SEPARATOR) == LINE_SEPARATOR_ESCAPE
    ensures UnicodeEscape(PARAGRAPH_SEPARATOR) == PARAGRAPH_SEPARATOR_ESCAPE
  {
  }

  /** An escape is a backslash, a `u` and hexadecimal digits: no later pass touches it. */
  lemma EscapesAreSafe(c: CodeUnit)
    ensures forall u :: u in UnicodeEscape(c) ==> !IsUnsafe(u)
  {
    HexDigitsOf(c);
  }

  lemma OnePass(text: Text, k: nat, json: Text)
    requires json == FlatMap(text, EscapeFirst(k))
    ensures Pass(json, PassUnit(k), UnicodeEscape(PassUnit(k))) == FlatMap(text, EscapeFirst(k + 1))
  {
    var unsafe := PassUnit(k);
    var sub := UnicodeEscape(unsafe);
    JoinOfSplit(json, [unsafe], sub);
    ReplaceElement(json, unsafe, sub);
    forall c | c in text
      ensures FlatMap(EscapeFirst(k)(c), Substitution(unsafe, sub)) == EscapeFirst(k + 1)(c)
    {
      if ReplacedBefore(k, c) {
        EscapesAreSafe(c);
        FlatMapUnchanged(UnicodeEscape(c), Substitution(unsafe, sub));
      }
    }
    FlatMapTwice(text, EscapeFirst(k), Substitution(unsafe, sub), EscapeFirst(k + 1));
  }

  lemma ReplacedByAll(c: CodeUnit)
    ensures ReplacedBefore(5, c) <==> IsUnsafe(c)
  {
    assert ReplacedBefore(5, c) <==> c == PassUnit(4) || ReplacedBefore(4, c);
    assert ReplacedBefore(4, c) <==> c == PassUnit(3) || ReplacedBefore(3, c);
    assert ReplacedBefore(3, c) <==> c == PassUnit(2) || ReplacedBefore(2, c);
    assert ReplacedBefore(2, c) <==> c == PassUnit(1) || ReplacedBefore(1, c);
  }

  lemma {:induction false} EscapeFirstFive(text: Text)
    ensures FlatMap(text, EscapeFirst(5)) == EscapeText(text)
  {
    if text != [] {
      EscapeFirstFive(text[1..]);
      ReplacedByAll(text[0]);
    }
  }

  /** The five passes in a row are the one map, on every text. */
  lemma PassesAreOneMap(text: Text)
    ensures EscapePasses(text) == EscapeText(text)
  {
    EscapeTexts();
    FlatMapUnchanged(text, EscapeFirst(0));
    var json1 := Pass(text, LESS_THAN, LESS_THAN_ESCAPE);
    OnePass(text, 0, text);
    var json2 := Pass(json1, GREATER_THAN, GREATER_THAN_ESCAPE);
    OnePass(text, 1, json1);
    var json3 := Pass(json2, AMPERSAND, AMPERSAND_ESCAPE);
    OnePass(text, 2, json2);
    var json4 := Pass(json3, LINE_SEPARATOR, LINE_SEPARATOR_ESCAPE);
    OnePass(text, 3, json3);
    OnePass(text, 4, json4);
    EscapeFirstFive(text);
  }

  // ---------------------------------------------------------------- the map and the reader

  lemma EscapeCons(c: CodeUnit, rest: Text)
    ensures EscapeText([c] + rest) == EscapeUnit(c) + EscapeText(rest)
  {
    assert ([c] + rest)[1..] == rest;
  }

  lemma {:induction false} EscapeSafePrefix(safe: Text, rest: Text)
    requires forall u :: u in safe ==> !IsUnsafe(u)
    ensures EscapeText(safe + rest) == safe + EscapeText(rest)
  {
    if safe == [] {
      assert safe + rest == rest;
    } else {
      EscapeSafePrefix(safe[1..], rest);
      EscapeCons(safe[0], safe[1..] + rest);
      assert safe + rest == [safe[0]] + (safe[1..] + rest);
      assert safe == [safe[0]] + safe[1..];
    }
  }

  /** The escape sequence at the start of `t`, if there is one, has no unsafe unit. */
  lemma UnicodeUnitIsSafe(t: Text)
    requires |t| >= 6 && t[0] == BACKSLASH && t[1] == LOWER_U && UnicodeUnit(t).Some?
    ensures forall u :: u in t[..6] ==> !IsUnsafe(u)
    ensures forall rest: Text :: UnicodeUnit(t[..6] + rest) == UnicodeUnit(t)
  {
  }

  /** Escaping inside a string that reads leaves what it denotes, and where it ends, unchanged. */
  lemma {:induction false} ScanEscaped(t: Text)
    requires ScanString(t).Some?
    ensures ScanString(EscapeText(t)) == Some(Scan(ScanString(t).value.text, EscapeText(ScanString(t).value.rest)))
  {
    if t[0] == QUOTE {
      EscapeSafeHead(t, 1);
    } else if t[0] != BACKSLASH {
      ScanEscaped(t[1..]);
      if IsUnsafe(t[0]) {
        ScanUnicodeEscape(t[0], EscapeText(t[1..]));
      } else {
        ScanPlain(t[0], EscapeText(t[1..]));
      }
    } else if t[1] == LOWER_U {
      UnicodeUnitIsSafe(t);
      EscapeSafeHead(t, 6);
      ScanEscaped(t[6..]);
      assert (t[..6] + EscapeText(t[6..]))[6..] == EscapeText(t[6..]);
    } else {
      EscapeSafeHead(t, 2);
      ScanEscaped(t[2..]);
      assert (t[..2] + EscapeText(t[2..]))[2..] == EscapeText(t[2..]);
    }
  }

  lemma EscapeSafeHead(t: Text, n: nat)
    requires n <= |t| && forall u :: u in t[..n] ==> !IsUnsafe(u)
    ensures EscapeText(t) == t[..n] + EscapeText(t[n..])
  {
    EscapeSafePrefix(t[..n], t[n..]);
    assert t[..n] + t[n..] == t;
  }

  lemma {:induction false} NumberRunIsMaximal(t: Text)
    ensures forall i :: 0 <= i < NumberRun(t) ==> IsNumberUnit(t[i])
    ensures Breaks(t[NumberRun(t)..])
  {
    if t != [] && IsNumberUnit(t[0]) {
      NumberRunIsMaximal(t[1..]);
      assert t[1..][NumberRun(t[1..])..] == t[NumberRun(t)..];
    }
  }

  lemma LexEscapedNumber(t: Text)
    requires t != [] && IsNumberUnit(t[0]) && IsNumber(t[..NumberRun(t)])
    ensures var n := NumberRun(t);
      Lex(EscapeText(t)) == Then([Num(t[..n])], Lex(EscapeText(t[n..])))
  {
    var n := NumberRun(t);
    NumberRunIsMaximal(t);
    EscapeSafeHead(t, n);
    LexNumber(t[..n], EscapeText(t[n..]));
  }

  lemma LexEscapedWord(t: Text, v: Json)
    requires v.JNull? || v.JBool?
    requires Stringify(v) <= t
    ensures Lex(EscapeText(t)) == Then(Lexemes(v), Lex(EscapeText(t[|Stringify(v)|..])))
  {
    var n := |Stringify(v)|;
    assert t[..n] == Stringify(v);
    EscapeSafeHead(t, n);
    LexWord(v, EscapeText(t[n..]));
  }

  /** A text that reads as lexemes reads as the same lexemes after escaping. */
  lemma {:induction false} LexEscaped(t: Text)
    requires Lex(t).Some?
    ensures Lex(EscapeText(t)) == Lex(t)
    decreases |t|
  {
    if t == [] {
    } else if IsJsonSpace(t[0]) {
      LexEscaped(t[1..]);
      EscapeSafeHead(t, 1);
      assert (t[..1] + EscapeText(t[1..]))[1..] == EscapeText(t[1..]);
    } else if IsPunct(t[0]) {
      LexEscaped(t[1..]);
      LexPunct(t[0], EscapeText(t[1..]));
    } else if t[0] == QUOTE {
      var scan := ScanString(t[1..]).value;
      LexEscaped(scan.rest);
      ScanEscaped(t[1..]);
      LexString(EscapeText(t[1..]), Scan(scan.text, EscapeText(scan.rest)));
    } else if IsNumberUnit(t[0]) {
      LexEscaped(t[NumberRun(t)..]);
      LexEscapedNumber(t);
    } else if NULL_TEXT <= t {
      LexEscaped(t[4..]);
      LexEscapedWord(t, JNull);
    } else if TRUE_TEXT <= t {
      LexEscaped(t[4..]);
      LexEscapedWord(t, JBool(true));
    } else {
      LexEscaped(t[5..]);
      LexEscapedWord(t, JBool(false));
    }
  }

  /** Escaping changes no JSON text's meaning, whoever wrote the text. */
  lemma EscapingKeepsMeaning(text: Text)
    requires Parse(text).Some?
    ensures Parse(EscapePasses(text)) == Parse(text)
  {
    PassesAreOneMap(text);
    LexEscaped(text);
  }

  // ---------------------------------------------------------------- main results

  lemma {:induction false} EscapedTextIsSafe(text: Text)
    ensures forall u :: u in EscapeText(text) ==> !IsUnsafe(u)
  {
    if text != [] {
      EscapedTextIsSafe(text[1..]);
      EscapesAreSafe(text[0]);
    }
  }

  /** What `safeJsonLd` writes denotes the value it was given, as the plain JSON does. */
  lemma SafeJsonLdKeepsValue(value: Json)
    ensures Parse(SafeJsonLd(value)) == Some(value) == Parse(Stringify(value))
  {
    ParseOfStringify(value);
    EscapingKeepsMeaning(Stringify(value));
  }

  /** No `<`, `>`, `&` and no line or paragraph separator is left to end the script element or the literal. */
  lemma SafeJsonLdHasNoUnsafeUnit(value: Json)
    ensures forall u :: u in SafeJsonLd(value) ==> u !in {0x3c, 0x3e, 0x26, 0x2028, 0x2029}
  {
    PassesAreOneMap(Stringify(value));
    EscapedTextIsSafe(Stringify(value));
  }
}
