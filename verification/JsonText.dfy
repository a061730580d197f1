/**
 JSON texts over UTF-16 code units: the writer `JSON.stringify` is (section 25.5.2 of ECMA-262) and
 a reader for the grammar of RFC 8259.  A number is kept as its lexeme.
 */
module JsonText {
  import opened Options
  import opened Sequences

  type CodeUnit = c: int | 0 <= c < 0x1_0000
  type Text = seq<CodeUnit>

  type NumberText = t: Text | IsNumber(t) witness [0x30]

  datatype Json =
    | JNull
    | JBool(value: bool)
    | JNumber(number: NumberText)
    | JString(text: Text)
    | JArray(items: seq<Json>)
    | JObject(members: seq<Member>)

  datatype Member = Member(key: Text, value: Json)

  const QUOTE: CodeUnit := 0x22
  const BACKSLASH: CodeUnit := 0x5c
  const COMMA: CodeUnit := 0x2c
  const COLON: CodeUnit := 0x3a
  const OPEN_ARRAY: CodeUnit := 0x5b
  const CLOSE_ARRAY: CodeUnit := 0x5d
  const OPEN_OBJECT: CodeUnit := 0x7b
  const CLOSE_OBJECT: CodeUnit := 0x7d
  const LOWER_U: CodeUnit := 0x75

  const NULL_TEXT: Text := [0x6e, 0x75, 0x6c, 0x6c]
  const TRUE_TEXT: Text := [0x74, 0x72, 0x75, 0x65]
  const FALSE_TEXT: Text := [0x66, 0x61, 0x6c, 0x73, 0x65]

  // ---------------------------------------------------------------- numbers

  predicate IsDigit(c: CodeUnit) {
    0x30 <= c <= 0x39
  }

  /** Digits, signs, the point and the two exponent letters. */
  predicate IsNumberUnit(c: CodeUnit) {
    IsDigit(c) || c == 0x2d || c == 0x2b || c == 0x2e || c == 0x65 || c == 0x45
  }

  function DropDigits(t: Text): (rest: Text)
    ensures |rest| <= |t|
  {
    if t != [] && IsDigit(t[0]) then DropDigits(t[1..]) else t
  }

  predicate IsExponent(t: Text) {
    t == [] ||
    ((t[0] == 0x65 || t[0] == 0x45) &&
     var u := if |t| > 1 && (t[1] == 0x2b || t[1] == 0x2d) then t[2..] else t[1..];
     u != [] && DropDigits(u) == [])
  }

  predicate IsFractionAndExponent(t: Text) {
    if t != [] && t[0] == 0x2e
    then |t| > 1 && IsDigit(t[1]) && IsExponent(DropDigits(t[1..]))
    else IsExponent(t)
  }

  /** `number` of RFC 8259, section 6. */
  predicate IsNumber(t: Text) {
    var u := if t != [] && t[0] == 0x2d then t[1..] else t;
    u != [] && IsDigit(u[0]) &&
    IsFractionAndExponent(if u[0] == 0x30 then u[1..] else DropDigits(u))
  }

  // ---------------------------------------------------------------- the writer

  function HexDigit(n: int): CodeUnit
    requires 0 <= n < 16
  {
    if n < 10 then 0x30 + n else 0x57 + n
  }

  /** `\uXXXX`, in lower case. */
  function UnicodeEscape(c: CodeUnit): Text {
    [BACKSLASH, LOWER_U, HexDigit(c / 0x1000), HexDigit(c / 0x100 % 0x10), HexDigit(c / 0x10 % 0x10),
      HexDigit(c % 0x10)]
  }

  /** The two-unit escapes: the letter for a unit, and the unit for a letter. */
  function ShortEscape(c: CodeUnit): Option<CodeUnit> {
    match c
    case 0x08 => Some(0x62)
    case 0x09 => Some(0x74)
    case 0x0a => Some(0x6e)
    case 0x0c => Some(0x66)
    case 0x0d => Some(0x72)
    case 0x22 => Some(0x22)
    case 0x5c => Some(0x5c)
    case _ => None
  }

  predicate IsHighSurrogate(c: CodeUnit) { 0xd800 <= c <= 0xdbff }

  predicate IsLowSurrogate(c: CodeUnit) { 0xdc00 <= c <= 0xdfff }

  /** How a code unit is written when it is not half of a surrogate pair. */
  function QuoteUnit(c: CodeUnit): Text {
    if ShortEscape(c).Some? then [BACKSLASH, ShortEscape(c).value]
    else if c < 0x20 || IsHighSurrogate(c) || IsLowSurrogate(c) then UnicodeEscape(c)
    else [c]
  }

  /** QuoteJSONString without the quotes: surrogate pairs stay, lone surrogates are escaped. */
  function QuoteBody(s: Text): Text {
    if s == [] then []
    else if |s| > 1 && IsHighSurrogate(s[0]) && IsLowSurrogate(s[1]) then [s[0]] + ([s[1]] + QuoteBody(s[2..]))
    else QuoteUnit(s[0]) + QuoteBody(s[1..])
  }

  function Quote(s: Text): Text {
    [QUOTE] + QuoteBody(s) + [QUOTE]
  }

  function Stringify(v: Json): Text
    decreases v, 1
  {
    match v
    case JNull => NULL_TEXT
    case JBool(b) => if b then TRUE_TEXT else FALSE_TEXT
    case JNumber(n) => n
    case JString(s) => Quote(s)
    case JArray(items) => [OPEN_ARRAY] + StringifyItems(items) + [CLOSE_ARRAY]
    case JObject(members) => [OPEN_OBJECT] + StringifyMembers(members) + [CLOSE_OBJECT]
  }

  function StringifyItems(items: seq<Json>): Text
    decreases items, 0
  {
    if items == [] then []
    else if |items| == 1 then Stringify(items[0])
    else Stringify(items[0]) + [COMMA] + StringifyItems(items[1..])
  }

  function StringifyMember(m: Member): Text
    decreases m, 0
  {
    Quote(m.key) + [COLON] + Stringify(m.value)
  }

  function StringifyMembers(members: seq<Member>): Text
    decreases members, 0
  {
    if members == [] then []
    else if |members| == 1 then StringifyMember(members[0])
    else StringifyMember(members[0]) + [COMMA] + StringifyMembers(members[1..])
  }

  // ---------------------------------------------------------------- the reader: lexemes

  datatype Lexeme =
    | Punct(c: CodeUnit)
    | Str(text: Text)
    | Num(number: NumberText)
    | Null
    | Bool(value: bool)

  datatype Scan = Scan(text: Text, rest: Text)

  function HexValue(c: CodeUnit): Option<int> {
    if IsDigit(c) then Some(c - 0x30)
    else if 0x61 <= c <= 0x66 then Some(c - 0x57)
    else if 0x41 <= c <= 0x46 then Some(c - 0x37)
    else None
  }

  /** The code unit that `\uXXXX` at the start of `t` denotes (RFC 8259, section 7). */
  function UnicodeUnit(t: Text): Option<CodeUnit> {
    if |t| < 6 then None
    else
      match (HexValue(t[2]), HexValue(t[3]), HexValue(t[4]), HexValue(t[5]))
      case (Some(a), Some(b), Some(c), Some(d)) =>
        var n := a * 0x1000 + b * 0x100 + c * 0x10 + d;
        if 0 <= n < 0x1_0000 then Some(n) else None
      case _ => None
  }

  function ShortUnescape(c: CodeUnit): Option<CodeUnit> {
    match c
    case 0x62 => Some(0x08)
    case 0x74 => Some(0x09)
    case 0x6e => Some(0x0a)
    case 0x66 => Some(0x0c)
    case 0x72 => Some(0x0d)
    case 0x22 => Some(0x22)
    case 0x5c => Some(0x5c)
    case 0x2f => Some(0x2f)
    case _ => None
  }

  /** The rest of a string after its opening quote, decoded, and what follows the closing quote. */
  function ScanString(t: Text): (r: Option<Scan>)
    ensures r.Some? ==> |r.value.rest| < |t|
  {
    if t == [] || t[0] < 0x20 then None
    else if t[0] == QUOTE then Some(Scan([], t[1..]))
    else if t[0] != BACKSLASH then Prepend(t[0], ScanString(t[1..]))
    else if |t| < 2 then None
    else if t[1] == LOWER_U then
      if UnicodeUnit(t).Some? then Prepend(UnicodeUnit(t).value, ScanString(t[6..])) else None
    else
      if ShortUnescape(t[1]).Some? then Prepend(ShortUnescape(t[1]).value, ScanString(t[2..])) else None
  }

  function Prepend(c: CodeUnit, r: Option<Scan>): Option<Scan> {
    match r
    case None => None
    case Some(s) => Some(Scan([c] + s.text, s.rest))
  }

  predicate IsPunct(c: CodeUnit) {
    c == COMMA || c == COLON || c == OPEN_ARRAY || c == CLOSE_ARRAY || c == OPEN_OBJECT || c == CLOSE_OBJECT
  }

  predicate IsJsonSpace(c: CodeUnit) {
    c == 0x20 || c == 0x09 || c == 0x0a || c == 0x0d
  }

  function NumberRun(t: Text): (n: nat)
    ensures n <= |t|
  {
    if t != [] && IsNumberUnit(t[0]) then 1 + NumberRun(t[1..]) else 0
  }

  /** `ls` in front of what the rest of the text reads as, if it reads. */
  function Then(ls: seq<Lexeme>, r: Option<seq<Lexeme>>): Option<seq<Lexeme>> {
    match r
    case None => None
    case Some(rest) => Some(ls + rest)
  }

  function Lex(t: Text): Option<seq<Lexeme>>
    decreases |t|
  {
    if t == [] then Some([])
    else if IsJsonSpace(t[0]) then Lex(t[1..])
    else if IsPunct(t[0]) then Then([Punct(t[0])], Lex(t[1..]))
    else if t[0] == QUOTE then
      match ScanString(t[1..])
      case None => None
      case Some(s) => Then([Str(s.text)], Lex(s.rest))
    else if IsNumberUnit(t[0]) then
      var n := NumberRun(t);
      if IsNumber(t[..n]) then Then([Num(t[..n])], Lex(t[n..])) else None
    else if NULL_TEXT <= t then Then([Null], Lex(t[4..]))
    else if TRUE_TEXT <= t then Then([Bool(true)], Lex(t[4..]))
    else if FALSE_TEXT <= t then Then([Bool(false)], Lex(t[5..]))
    else None
  }

  // ---------------------------------------------------------------- the reader: values

  datatype Parsed<T> = Parsed(value: T, rest: seq<Lexeme>)

  function ParseValue(ls: seq<Lexeme>): (r: Option<Parsed<Json>>)
    ensures r.Some? ==> |r.value.rest| < |ls|
    decreases |ls|, 0
  {
    if ls == [] then None
    else
      match ls[0]
      case Null => Some(Parsed(JNull, ls[1..]))
      case Bool(b) => Some(Parsed(JBool(b), ls[1..]))
      case Num(n) => Some(Parsed(JNumber(n), ls[1..]))
      case Str(s) => Some(Parsed(JString(s), ls[1..]))
      case Punct(c) =>
        if c == OPEN_ARRAY then
          if |ls| > 1 && ls[1] == Punct(CLOSE_ARRAY) then Some(Parsed(JArray([]), ls[2..]))
          else match ParseItems(ls[1..])
            case None => None
            case Some(p) => Some(Parsed(JArray(p.value), p.rest))
        else if c == OPEN_OBJECT then
          if |ls| > 1 && ls[1] == Punct(CLOSE_OBJECT) then Some(Parsed(JObject([]), ls[2..]))
          else match ParseMembers(ls[1..])
            case None => None
            case Some(p) => Some(Parsed(JObject(p.value), p.rest))
        else None
  }

  function ParseItems(ls: seq<Lexeme>): (r: Option<Parsed<seq<Json>>>)
    ensures r.Some? ==> |r.value.rest| < |ls|
    decreases |ls|, 1
  {
    match ParseValue(ls)
    case None => None
    case Some(p) =>
      if p.rest == [] then None
      else if p.rest[0] == Punct(CLOSE_ARRAY) then Some(Parsed([p.value], p.rest[1..]))
      else if p.rest[0] == Punct(COMMA) then
        match ParseItems(p.rest[1..])
        case None => None
        case Some(q) => Some(Parsed([p.value] + q.value, q.rest))
      else None
  }

  function ParseMembers(ls: seq<Lexeme>): (r: Option<Parsed<seq<Member>>>)
    ensures r.Some? ==> |r.value.rest| < |ls|
    decreases |ls|, 1
  {
    if |ls| < 2 || !ls[0].Str? || ls[1] != Punct(COLON) then None
    else
      match ParseValue(ls[2..])
      case None => None
      case Some(p) =>
        var m := Member(ls[0].text, p.value);
        if p.rest == [] then None
        else if p.rest[0] == Punct(CLOSE_OBJECT) then Some(Parsed([m], p.rest[1..]))
        else if p.rest[0] == Punct(COMMA) then
          match ParseMembers(p.rest[1..])
          case None => None
          case Some(q) => Some(Parsed([m] + q.value, q.rest))
        else None
  }

  /** The value a JSON text denotes, if it is one. */
  function Parse(t: Text): Option<Json> {
    match Lex(t)
    case None => None
    case Some(ls) =>
      match ParseValue(ls)
      case None => None
      case Some(p) => if p.rest == [] then Some(p.value) else None
  }

  // ---------------------------------------------------------------- reading back what was written

  lemma HexDigitValue(n: int)
    requires 0 <= n < 16
    ensures HexValue(HexDigit(n)) == Some(n)
    ensures IsDigit(HexDigit(n)) || 0x61 <= HexDigit(n) <= 0x66
  {
  }

  lemma HexDigitsOf(c: CodeUnit)
    ensures 0 <= c / 0x1000 < 0x10
    ensures c / 0x1000 * 0x1000 + c / 0x100 % 0x10 * 0x100 + c / 0x10 % 0x10 * 0x10 + c % 0x10 == c
  {
    assert c / 0x100 == c / 0x1000 * 0x10 + c / 0x100 % 0x10;
    assert c / 0x10 == c / 0x100 * 0x10 + c / 0x10 % 0x10;
  }

  lemma UnicodeEscapeDenotes(c: CodeUnit, rest: Text)
    ensures UnicodeUnit(UnicodeEscape(c) + rest) == Some(c)
  {
    HexDigitsOf(c);
    var t := UnicodeEscape(c) + rest;
    var a, b, d, e := c / 0x1000, c / 0x100 % 0x10, c / 0x10 % 0x10, c % 0x10;
    assert t[2] == HexDigit(a) && t[3] == HexDigit(b) && t[4] == HexDigit(d) && t[5] == HexDigit(e);
    HexDigitValue(a);
    HexDigitValue(b);
    HexDigitValue(d);
    HexDigitValue(e);
  }

  lemma ScanUnicodeEscape(c: CodeUnit, rest: Text)
    ensures ScanString(UnicodeEscape(c) + rest) == Prepend(c, ScanString(rest))
  {
    UnicodeEscapeDenotes(c, rest);
    assert (UnicodeEscape(c) + rest)[6..] == rest;
  }

  lemma ScanPlain(c: CodeUnit, rest: Text)
    requires c >= 0x20 && c != QUOTE && c != BACKSLASH
    ensures ScanString([c] + rest) == Prepend(c, ScanString(rest))
  {
    assert ([c] + rest)[1..] == rest;
  }

  /** What the writer makes of the unit `c` reads back as `c`. */
  lemma ScanUnit(c: CodeUnit, rest: Text)
    ensures ScanString(QuoteUnit(c) + rest) == Prepend(c, ScanString(rest))
  {
    if ShortEscape(c).Some? {
      assert ([BACKSLASH, ShortEscape(c).value] + rest)[2..] == rest;
    } else if c < 0x20 || IsHighSurrogate(c) || IsLowSurrogate(c) {
      ScanUnicodeEscape(c, rest);
    } else {
      ScanPlain(c, rest);
    }
  }

  lemma PrependScan(s: Text, rest: Text)
    requires s != []
    ensures Prepend(s[0], Some(Scan(s[1..], rest))) == Some(Scan(s, rest))
  {
    assert [s[0]] + s[1..] == s;
  }

  lemma ScanPair(a: CodeUnit, b: CodeUnit, body: Text, end: Text)
    requires IsHighSurrogate(a) && IsLowSurrogate(b)
    ensures ScanString([a] + ([b] + body) + end) == Prepend(a, Prepend(b, ScanString(body + end)))
  {
    ScanPlain(b, body + end);
    ScanPlain(a, [b] + (body + end));
    assert [a] + ([b] + body) + end == [a] + ([b] + (body + end));
  }

  lemma {:induction false} ScanQuoted(s: Text, rest: Text)
    ensures ScanString(QuoteBody(s) + ([QUOTE] + rest)) == Some(Scan(s, rest))
  {
    var end := [QUOTE] + rest;
    if s == [] {
      assert QuoteBody(s) + end == end && end[1..] == rest;
    } else if |s| > 1 && IsHighSurrogate(s[0]) && IsLowSurrogate(s[1]) {
      ScanQuoted(s[2..], rest);
      ScanPair(s[0], s[1], QuoteBody(s[2..]), end);
      PrependScan(s[1..], rest);
      PrependScan(s, rest);
      assert s[1..][1..] == s[2..];
    } else {
      ScanQuoted(s[1..], rest);
      ScanUnit(s[0], QuoteBody(s[1..]) + end);
      PrependScan(s, rest);
      assert QuoteUnit(s[0]) + QuoteBody(s[1..]) + end == QuoteUnit(s[0]) + (QuoteBody(s[1..]) + end);
    }
  }

  function Lexemes(v: Json): seq<Lexeme>
    decreases v, 1
  {
    match v
    case JNull => [Null]
    case JBool(b) => [Bool(b)]
    case JNumber(n) => [Num(n)]
    case JString(s) => [Str(s)]
    case JArray(items) => [Punct(OPEN_ARRAY)] + ItemLexemes(items) + [Punct(CLOSE_ARRAY)]
    case JObject(members) => [Punct(OPEN_OBJECT)] + MemberLexemes(members) + [Punct(CLOSE_OBJECT)]
  }

  function ItemLexemes(items: seq<Json>): seq<Lexeme>
    decreases items, 0
  {
    if items == [] then []
    else if |items| == 1 then Lexemes(items[0])
    else Lexemes(items[0]) + [Punct(COMMA)] + ItemLexemes(items[1..])
  }

  function MemberLexeme(m: Member): seq<Lexeme>
    decreases m, 0
  {
    [Str(m.key), Punct(COLON)] + Lexemes(m.value)
  }

  function MemberLexemes(members: seq<Member>): seq<Lexeme>
    decreases members, 0
  {
    if members == [] then []
    else if |members| == 1 then MemberLexeme(members[0])
    else MemberLexeme(members[0]) + [Punct(COMMA)] + MemberLexemes(members[1..])
  }

  /** What may follow a value without running into it. */
  predicate Breaks(rest: Text) {
    rest == [] || !IsNumberUnit(rest[0])
  }

  lemma {:induction false} DigitsAreNumberUnits(t: Text)
    requires DropDigits(t) == []
    ensures forall i :: 0 <= i < |t| ==> IsNumberUnit(t[i])
  {
    if t != [] {
      DigitsAreNumberUnits(t[1..]);
    }
  }

  lemma {:induction false} DroppedDigits(t: Text)
    ensures exists n :: 0 <= n <= |t| && DropDigits(t) == t[n..] && forall i :: 0 <= i < n ==> IsDigit(t[i])
  {
    if t != [] && IsDigit(t[0]) {
      DroppedDigits(t[1..]);
      var n :| 0 <= n <= |t[1..]| && DropDigits(t[1..]) == t[1..][n..] && forall i :: 0 <= i < n ==> IsDigit(t[1..][i]);
      assert t[1..][n..] == t[n + 1..];
    } else {
      assert t == t[0..];
    }
  }

  lemma ExponentUnits(t: Text)
    requires IsExponent(t)
    ensures forall i :: 0 <= i < |t| ==> IsNumberUnit(t[i])
  {
    if t != [] {
      DigitsAreNumberUnits(if |t| > 1 && (t[1] == 0x2b || t[1] == 0x2d) then t[2..] else t[1..]);
    }
  }

  lemma NumberUnits(t: Text)
    requires IsNumber(t)
    ensures forall i :: 0 <= i < |t| ==> IsNumberUnit(t[i])
  {
    var u := if t[0] == 0x2d then t[1..] else t;
    DroppedDigits(u);
    var f := if u[0] == 0x30 then u[1..] else DropDigits(u);
    if f != [] && f[0] == 0x2e {
      DroppedDigits(f[1..]);
      ExponentUnits(DropDigits(f[1..]));
    } else {
      ExponentUnits(f);
    }
  }

  lemma {:induction false} NumberRunOf(n: Text, rest: Text)
    requires forall i :: 0 <= i < |n| ==> IsNumberUnit(n[i])
    requires Breaks(rest)
    ensures NumberRun(n + rest) == |n|
  {
    if n == [] {
      assert n + rest == rest;
    } else {
      NumberRunOf(n[1..], rest);
      assert (n + rest)[1..] == n[1..] + rest;
    }
  }

  lemma LexString(body: Text, scan: Scan)
    requires ScanString(body) == Some(scan)
    ensures Lex([QUOTE] + body) == Then([Str(scan.text)], Lex(scan.rest))
  {
    assert ([QUOTE] + body)[1..] == body;
  }

  lemma LexQuoted(s: Text, rest: Text)
    ensures Lex(Quote(s) + rest) == Then([Str(s)], Lex(rest))
  {
    ScanQuoted(s, rest);
    LexString(QuoteBody(s) + ([QUOTE] + rest), Scan(s, rest));
    Concat4([QUOTE], QuoteBody(s), [QUOTE], rest);
  }

  lemma LexPunct(c: CodeUnit, rest: Text)
    requires IsPunct(c)
    ensures Lex([c] + rest) == Then([Punct(c)], Lex(rest))
  {
    assert ([c] + rest)[1..] == rest;
  }

  lemma LexNumber(n: NumberText, rest: Text)
    requires Breaks(rest)
    ensures Lex(n + rest) == Then([Num(n)], Lex(rest))
  {
    NumberUnits(n);
    NumberRunOf(n, rest);
    assert (n + rest)[..|n|] == n && (n + rest)[|n|..] == rest;
  }

  lemma LexWord(v: Json, rest: Text)
    requires v.JNull? || v.JBool?
    ensures Lex(Stringify(v) + rest) == Then(Lexemes(v), Lex(rest))
  {
    var t := Stringify(v) + rest;
    assert t[|Stringify(v)|..] == rest;
  }

  lemma ThenThree(a: seq<Lexeme>, b: seq<Lexeme>, c: seq<Lexeme>, r: Option<seq<Lexeme>>)
    ensures Then(a, Then(b, Then(c, r))) == Then(a + b + c, r)
  {
    if r.Some? {
      assert a + (b + (c + r.value)) == a + b + c + r.value;
    }
  }

  lemma ThenNothing(r: Option<seq<Lexeme>>)
    ensures Then([], r) == r
  {
    if r.Some? {
      assert [] + r.value == r.value;
    }
  }

  lemma {:induction false} LexValue(v: Json, rest: Text)
    requires Breaks(rest)
    ensures Lex(Stringify(v) + rest) == Then(Lexemes(v), Lex(rest))
    decreases v, 1
  {
    match v
    case JNull => LexWord(v, rest);
    case JBool(b) => LexWord(v, rest);
    case JNumber(n) => LexNumber(n, rest);
    case JString(s) => LexQuoted(s, rest);
    case JArray(items) =>
      var text := StringifyItems(items);
      LexItems(items, [CLOSE_ARRAY] + rest);
      LexPunct(CLOSE_ARRAY, rest);
      LexPunct(OPEN_ARRAY, text + ([CLOSE_ARRAY] + rest));
      Concat4([OPEN_ARRAY], text, [CLOSE_ARRAY], rest);
      ThenThree([Punct(OPEN_ARRAY)], ItemLexemes(items), [Punct(CLOSE_ARRAY)], Lex(rest));
    case JObject(members) =>
      var text := StringifyMembers(members);
      LexMembers(members, [CLOSE_OBJECT] + rest);
      LexPunct(CLOSE_OBJECT, rest);
      LexPunct(OPEN_OBJECT, text + ([CLOSE_OBJECT] + rest));
      Concat4([OPEN_OBJECT], text, [CLOSE_OBJECT], rest);
      ThenThree([Punct(OPEN_OBJECT)], MemberLexemes(members), [Punct(CLOSE_OBJECT)], Lex(rest));
  }

  lemma {:induction false} LexItems(items: seq<Json>, rest: Text)
    requires Breaks(rest)
    ensures Lex(StringifyItems(items) + rest) == Then(ItemLexemes(items), Lex(rest))
    decreases items, 0
  {
    if items == [] {
      assert StringifyItems(items) + rest == rest;
      ThenNothing(Lex(rest));
    } else if |items| == 1 {
      LexValue(items[0], rest);
    } else {
      LexItems(items[1..], rest);
      LexValue(items[0], [COMMA] + (StringifyItems(items[1..]) + rest));
      LexCommaBetween(Stringify(items[0]), StringifyItems(items[1..]), rest, Lexemes(items[0]),
        ItemLexemes(items[1..]));
    }
  }

  /** Two parts that read on their own read on with a comma between them. */
  lemma LexCommaBetween(head: Text, tail: Text, rest: Text, hs: seq<Lexeme>, ts: seq<Lexeme>)
    requires Lex(tail + rest) == Then(ts, Lex(rest))
    requires Lex(head + ([COMMA] + (tail + rest))) == Then(hs, Lex([COMMA] + (tail + rest)))
    ensures Lex(head + [COMMA] + tail + rest) == Then(hs + [Punct(COMMA)] + ts, Lex(rest))
  {
    LexPunct(COMMA, tail + rest);
    Concat4(head, [COMMA], tail, rest);
    ThenThree(hs, [Punct(COMMA)], ts, Lex(rest));
  }

  lemma {:induction false} LexMember(m: Member, rest: Text)
    requires Breaks(rest)
    ensures Lex(StringifyMember(m) + rest) == Then(MemberLexeme(m), Lex(rest))
    decreases m, 0
  {
    LexValue(m.value, rest);
    LexColonBetween(m.key, Stringify(m.value), rest, Lexemes(m.value));
  }

  lemma LexColonBetween(key: Text, value: Text, rest: Text, ls: seq<Lexeme>)
    requires Lex(value + rest) == Then(ls, Lex(rest))
    ensures Lex(Quote(key) + [COLON] + value + rest) == Then([Str(key), Punct(COLON)] + ls, Lex(rest))
  {
    LexPunct(COLON, value + rest);
    LexQuoted(key, [COLON] + (value + rest));
    Concat4(Quote(key), [COLON], value, rest);
    ThenThree([Str(key)], [Punct(COLON)], ls, Lex(rest));
    assert [Str(key)] + [Punct(COLON)] + ls == [Str(key), Punct(COLON)] + ls;
  }

  lemma {:induction false} LexMembers(members: seq<Member>, rest: Text)
    requires Breaks(rest)
    ensures Lex(StringifyMembers(members) + rest) == Then(MemberLexemes(members), Lex(rest))
    decreases members, 0
  {
    if members == [] {
      assert StringifyMembers(members) + rest == rest;
      ThenNothing(Lex(rest));
    } else if |members| == 1 {
      LexMember(members[0], rest);
    } else {
      LexMembers(members[1..], rest);
      LexMember(members[0], [COMMA] + (StringifyMembers(members[1..]) + rest));
      LexCommaBetween(StringifyMember(members[0]), StringifyMembers(members[1..]), rest,
        MemberLexeme(members[0]), MemberLexemes(members[1..]));
    }
  }

  lemma ParseOfArray(items: seq<Json>, body: seq<Lexeme>, rest: seq<Lexeme>)
    requires body != [] && body[0] != Punct(CLOSE_ARRAY) && ParseItems(body) == Some(Parsed(items, rest))
    ensures ParseValue([Punct(OPEN_ARRAY)] + body) == Some(Parsed(JArray(items), rest))
  {
    assert ([Punct(OPEN_ARRAY)] + body)[1..] == body;
  }

  lemma ParseOfObject(members: seq<Member>, body: seq<Lexeme>, rest: seq<Lexeme>)
    requires body != [] && body[0] != Punct(CLOSE_OBJECT) && ParseMembers(body) == Some(Parsed(members, rest))
    ensures ParseValue([Punct(OPEN_OBJECT)] + body) == Some(Parsed(JObject(members), rest))
  {
    assert ([Punct(OPEN_OBJECT)] + body)[1..] == body;
  }

  lemma ParseMoreItems(ls: seq<Lexeme>, v: Json, items: seq<Json>, tail: seq<Lexeme>, rest: seq<Lexeme>)
    requires ParseValue(ls) == Some(Parsed(v, [Punct(COMMA)] + tail)) && ParseItems(tail) == Some(Parsed(items, rest))
    ensures ParseItems(ls) == Some(Parsed([v] + items, rest))
  {
    assert ([Punct(COMMA)] + tail)[1..] == tail;
  }

  lemma ParseMoreMembers(m: Member, ls: seq<Lexeme>, members: seq<Member>, tail: seq<Lexeme>, rest: seq<Lexeme>)
    requires ParseValue(ls) == Some(Parsed(m.value, [Punct(COMMA)] + tail))
    requires ParseMembers(tail) == Some(Parsed(members, rest))
    ensures ParseMembers([Str(m.key), Punct(COLON)] + ls) == Some(Parsed([m] + members, rest))
  {
    assert ([Str(m.key), Punct(COLON)] + ls)[2..] == ls;
    assert ([Punct(COMMA)] + tail)[1..] == tail;
  }

  lemma ParseLastItem(ls: seq<Lexeme>, v: Json, rest: seq<Lexeme>)
    requires ParseValue(ls) == Some(Parsed(v, [Punct(CLOSE_ARRAY)] + rest))
    ensures ParseItems(ls) == Some(Parsed([v], rest))
  {
    assert ([Punct(CLOSE_ARRAY)] + rest)[1..] == rest;
  }

  lemma ParseLastMember(m: Member, ls: seq<Lexeme>, rest: seq<Lexeme>)
    requires ParseValue(ls) == Some(Parsed(m.value, [Punct(CLOSE_OBJECT)] + rest))
    ensures ParseMembers([Str(m.key), Punct(COLON)] + ls) == Some(Parsed([m], rest))
  {
    assert ([Str(m.key), Punct(COLON)] + ls)[2..] == ls;
    assert ([Punct(CLOSE_OBJECT)] + rest)[1..] == rest;
  }

  lemma ParseScalar(v: Json, rest: seq<Lexeme>)
    requires !v.JArray? && !v.JObject?
    ensures ParseValue(Lexemes(v) + rest) == Some(Parsed(v, rest))
  {
    assert (Lexemes(v) + rest)[1..] == rest;
  }

  lemma FirstLexeme(v: Json)
    ensures Lexemes(v) != [] && Lexemes(v)[0] != Punct(CLOSE_ARRAY)
  {
  }

  lemma {:induction false} ParseLexemes(v: Json, rest: seq<Lexeme>)
    ensures ParseValue(Lexemes(v) + rest) == Some(Parsed(v, rest))
    decreases v, 1
  {
    var ls := Lexemes(v) + rest;
    match v
    case JArray(items) =>
      var body := ItemLexemes(items) + [Punct(CLOSE_ARRAY)] + rest;
      assert ls == [Punct(OPEN_ARRAY)] + body;
      if items == [] {
        assert ls[2..] == rest;
      } else {
        ParseItemLexemes(items, rest);
        FirstLexeme(items[0]);
        ParseOfArray(items, body, rest);
      }
    case JObject(members) =>
      var body := MemberLexemes(members) + [Punct(CLOSE_OBJECT)] + rest;
      assert ls == [Punct(OPEN_OBJECT)] + body;
      if members == [] {
        assert ls[2..] == rest;
      } else {
        ParseMemberLexemes(members, rest);
        ParseOfObject(members, body, rest);
      }
    case _ =>
      ParseScalar(v, rest);
  }

  lemma {:induction false} ParseItemLexemes(items: seq<Json>, rest: seq<Lexeme>)
    requires items != []
    ensures ParseItems(ItemLexemes(items) + [Punct(CLOSE_ARRAY)] + rest) == Some(Parsed(items, rest))
    decreases items, 0
  {
    var ls := ItemLexemes(items) + [Punct(CLOSE_ARRAY)] + rest;
    if |items| == 1 {
      ParseLexemes(items[0], [Punct(CLOSE_ARRAY)] + rest);
      Concat3(Lexemes(items[0]), [Punct(CLOSE_ARRAY)], rest);
      ParseLastItem(ls, items[0], rest);
      assert [items[0]] == items;
    } else {
      var tail := ItemLexemes(items[1..]) + [Punct(CLOSE_ARRAY)] + rest;
      ParseItemLexemes(items[1..], rest);
      ParseLexemes(items[0], [Punct(COMMA)] + tail);
      CommaBetween(Lexemes(items[0]), ItemLexemes(items[1..]), [Punct(CLOSE_ARRAY)], rest);
      Concat3(Lexemes(items[0]), [Punct(COMMA)], tail);
      ParseMoreItems(ls, items[0], items[1..], tail, rest);
      assert [items[0]] + items[1..] == items;
    }
  }

  lemma CommaBetween(head: seq<Lexeme>, mid: seq<Lexeme>, end: seq<Lexeme>, rest: seq<Lexeme>)
    ensures head + [Punct(COMMA)] + mid + end + rest == head + [Punct(COMMA)] + (mid + end + rest)
  {
  }

  lemma {:induction false} ParseMemberLexemes(members: seq<Member>, rest: seq<Lexeme>)
    requires members != []
    ensures ParseMembers(MemberLexemes(members) + [Punct(CLOSE_OBJECT)] + rest) == Some(Parsed(members, rest))
    decreases members, 0
  {
    var m := members[0];
    if |members| == 1 {
      ParseLexemes(m.value, [Punct(CLOSE_OBJECT)] + rest);
      ParseOnlyMember(m, rest, MemberLexemes(members) + [Punct(CLOSE_OBJECT)] + rest);
      assert [m] == members;
    } else {
      var tail := MemberLexemes(members[1..]) + [Punct(CLOSE_OBJECT)] + rest;
      ParseMemberLexemes(members[1..], rest);
      ParseLexemes(m.value, [Punct(COMMA)] + tail);
      CommaBetween(MemberLexeme(m), MemberLexemes(members[1..]), [Punct(CLOSE_OBJECT)], rest);
      ParseFirstMember(m, members[1..], tail, rest, MemberLexemes(members) + [Punct(CLOSE_OBJECT)] + rest);
      assert [m] + members[1..] == members;
    }
  }

  lemma ParseOnlyMember(m: Member, rest: seq<Lexeme>, ls: seq<Lexeme>)
    requires ls == MemberLexeme(m) + [Punct(CLOSE_OBJECT)] + rest
    requires ParseValue(Lexemes(m.value) + ([Punct(CLOSE_OBJECT)] + rest)) ==
      Some(Parsed(m.value, [Punct(CLOSE_OBJECT)] + rest))
    ensures ParseMembers(ls) == Some(Parsed([m], rest))
  {
    ParseLastMember(m, Lexemes(m.value) + ([Punct(CLOSE_OBJECT)] + rest), rest);
    KeyInFront(m, [Punct(CLOSE_OBJECT)], rest);
  }

  lemma ParseFirstMember(m: Member, members: seq<Member>, tail: seq<Lexeme>, rest: seq<Lexeme>, ls: seq<Lexeme>)
    requires ls == MemberLexeme(m) + [Punct(COMMA)] + tail
    requires ParseMembers(tail) == Some(Parsed(members, rest))
    requires ParseValue(Lexemes(m.value) + ([Punct(COMMA)] + tail)) == Some(Parsed(m.value, [Punct(COMMA)] + tail))
    ensures ParseMembers(ls) == Some(Parsed([m] + members, rest))
  {
    ParseMoreMembers(m, Lexemes(m.value) + ([Punct(COMMA)] + tail), members, tail, rest);
    KeyInFront(m, [Punct(COMMA)], tail);
  }

  lemma KeyInFront(m: Member, mid: seq<Lexeme>, rest: seq<Lexeme>)
    ensures MemberLexeme(m) + mid + rest == [Str(m.key), Punct(COLON)] + (Lexemes(m.value) + (mid + rest))
  {
  }

  /** The writer's text denotes the value it was written from. */
  lemma ParseOfStringify(v: Json)
    ensures Parse(Stringify(v)) == Some(v)
  {
    LexValue(v, []);
    assert Stringify(v) + [] == Stringify(v);
    ParseLexemes(v, []);
    assert Lexemes(v) + [] == Lexemes(v);
  }

  // ---------------------------------------------------------------- the form of the text

  /**
   The units written for a unit outside a pair: two for the seven with a letter, six for the other
   control characters and for half a pair, and otherwise just the unit.
   */
  lemma QuoteUnitLength(c: CodeUnit)
    ensures |QuoteUnit(c)| ==
      if c in {0x08, 0x09, 0x0a, 0x0c, 0x0d, 0x22, 0x5c} then 2 else if c < 0x20 || 0xd800 <= c <= 0xdfff then 6 else 1
  {
  }

  /** Every high surrogate is followed by a low one, and there are no other low ones. */
  predicate Paired(t: Text) {
    if t == [] then true
    else if IsHighSurrogate(t[0]) then |t| > 1 && IsLowSurrogate(t[1]) && Paired(t[2..])
    else !IsLowSurrogate(t[0]) && Paired(t[1..])
  }

  lemma {:induction false} PairedConcat(a: Text, b: Text)
    requires Paired(a) && Paired(b)
    ensures Paired(a + b)
  {
    if a == [] {
      assert a + b == b;
    } else if IsHighSurrogate(a[0]) {
      PairedConcat(a[2..], b);
      assert (a + b)[2..] == a[2..] + b;
    } else {
      PairedConcat(a[1..], b);
      assert (a + b)[1..] == a[1..] + b;
    }
  }

  lemma {:induction false} PlainIsPaired(t: Text)
    requires forall u :: u in t ==> u < 0xd800
    ensures Paired(t)
  {
    if t != [] {
      assert t[0] in t && forall u :: u in t[1..] ==> u in t;
      PlainIsPaired(t[1..]);
    }
  }

  lemma QuoteUnitIsPaired(c: CodeUnit)
    ensures Paired(QuoteUnit(c))
  {
    var q := QuoteUnit(c);
    if |q| == 1 {
      assert q == [c] && q[1..] == [];
    } else {
      PlainIsPaired(q);
    }
  }

  lemma {:induction false} QuoteBodyIsPaired(s: Text)
    ensures Paired(QuoteBody(s))
  {
    if s == [] {
    } else if |s| > 1 && IsHighSurrogate(s[0]) && IsLowSurrogate(s[1]) {
      QuoteBodyIsPaired(s[2..]);
      assert QuoteBody(s)[2..] == QuoteBody(s[2..]);
    } else {
      QuoteUnitIsPaired(s[0]);
      QuoteBodyIsPaired(s[1..]);
      PairedConcat(QuoteUnit(s[0]), QuoteBody(s[1..]));
    }
  }

  lemma QuoteIsPaired(s: Text)
    ensures Paired(Quote(s))
  {
    QuoteBodyIsPaired(s);
    Enclosed(QUOTE, QuoteBody(s), QUOTE);
  }

  lemma Enclosed(open: CodeUnit, t: Text, close: CodeUnit)
    requires open < 0xd800 && close < 0xd800 && Paired(t)
    ensures Paired([open] + t + [close])
  {
    PlainIsPaired([open]);
    PlainIsPaired([close]);
    PairedConcat([open], t);
    PairedConcat([open] + t, [close]);
  }

  lemma Separated(a: Text, c: CodeUnit, b: Text)
    requires Paired(a) && c < 0xd800 && Paired(b)
    ensures Paired(a + [c] + b)
  {
    PlainIsPaired([c]);
    PairedConcat(a, [c]);
    PairedConcat(a + [c], b);
  }

  lemma NumberIsPaired(n: NumberText)
    ensures Paired(n)
  {
    NumberUnits(n);
    PlainIsPaired(n);
  }

  /** Whatever surrogates the value's strings hold, the text written has them in pairs only. */
  lemma {:induction false} StringifyIsPaired(v: Json)
    ensures Paired(Stringify(v))
    decreases v, 1
  {
    match v
    case JNull => PlainIsPaired(NULL_TEXT);
    case JBool(b) =>
      PlainIsPaired(TRUE_TEXT);
      PlainIsPaired(FALSE_TEXT);
    case JNumber(n) => NumberIsPaired(n);
    case JString(s) => QuoteIsPaired(s);
    case JArray(items) =>
      ItemsArePaired(items);
      Enclosed(OPEN_ARRAY, StringifyItems(items), CLOSE_ARRAY);
    case JObject(members) =>
      MembersArePaired(members);
      Enclosed(OPEN_OBJECT, StringifyMembers(members), CLOSE_OBJECT);
  }

  lemma {:induction false} ItemsArePaired(items: seq<Json>)
    ensures Paired(StringifyItems(items))
    decreases items, 0
  {
    if items != [] {
      StringifyIsPaired(items[0]);
      ItemsArePaired(items[1..]);
      if |items| > 1 {
        Separated(Stringify(items[0]), COMMA, StringifyItems(items[1..]));
      }
    }
  }

  lemma {:induction false} MembersArePaired(members: seq<Member>)
    ensures Paired(StringifyMembers(members))
    decreases members, 0
  {
    if members != [] {
      var m := members[0];
      QuoteIsPaired(m.key);
      StringifyIsPaired(m.value);
      Separated(Quote(m.key), COLON, Stringify(m.value));
      MembersArePaired(members[1..]);
      if |members| > 1 {
        Separated(StringifyMember(m), COMMA, StringifyMembers(members[1..]));
      }
    }
  }
}
