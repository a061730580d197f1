/**
 Slugs: the normaliser and the search for a free slug (apps/api/src/common/utils/slug.util.ts),
 against the grammar that supplied slugs must meet (apps/api/src/common/validators/slug.validator.ts).
 Case folding is a parameter: what is assumed of it is that it leaves text of lower-case letters,
 digits and hyphens alone.
 */
module Slug {
  import opened JsStrings
  import opened Decimals
  import opened Sequences

  predicate IsAlnum(c: char) {
    'a' <= c <= 'z' || '0' <= c <= '9'
  }

  predicate IsSlugChar(c: char) {
    IsAlnum(c) || c == '-'
  }

  ghost predicate KeepsSlugText(lower: string -> string) {
    forall s :: AllSlugChars(s) ==> lower(s) == s
  }

  predicate AllSlugChars(s: string) {
    forall i :: 0 <= i < |s| ==> IsSlugChar(s[i])
  }

  /** `.replace(/['"]/g, '')` */
  function RemoveQuotes(s: string): string {
    if s == "" then ""
    else (if s[0] == '\'' || s[0] == '"' then "" else [s[0]]) + RemoveQuotes(s[1..])
  }

  function DropOthers(s: string): (rest: string)
    ensures |rest| <= |s|
    ensures rest == "" || IsAlnum(rest[0])
  {
    if s != "" && !IsAlnum(s[0]) then DropOthers(s[1..]) else s
  }

  /** `.replace(/[^a-z0-9]+/g, '-')` */
  function HyphenateRuns(s: string): string
    decreases |s|
  {
    if s == "" then ""
    else if IsAlnum(s[0]) then [s[0]] + HyphenateRuns(s[1..])
    else "-" + HyphenateRuns(DropOthers(s[1..]))
  }

  function StripStart(s: string): string {
    if s != "" && s[0] == '-' then StripStart(s[1..]) else s
  }

  function StripEnd(s: string): string {
    if s != "" && s[|s| - 1] == '-' then StripEnd(s[..|s| - 1]) else s
  }

  const MAX_LENGTH := 200

  /** The chain before its last link, `.slice(0, 200)`. */
  function Normalize(text: string, lower: string -> string): string {
    StripEnd(StripStart(HyphenateRuns(RemoveQuotes(lower(Trim(text))))))
  }

  function Take(s: string): string {
    if |s| <= MAX_LENGTH then s else s[..MAX_LENGTH]
  }

  function Slugify(text: string, lower: string -> string): string {
    Take(Normalize(text, lower))
  }

  // ---------------------------------------------------------------- the grammar

  predicate IsSegment(s: string) {
    s != "" && forall i :: 0 <= i < |s| ==> 'a' <= s[i] <= 'z' || '0' <= s[i] <= '9'
  }

  /** `^[a-z0-9]+(-[a-z0-9]+)*$` : segments joined by single hyphens. */
  ghost predicate MatchesSlugPattern(s: string) {
    exists segments :: segments != [] && AllSegments(segments) && s == Join(segments, "-")
  }

  predicate AllSegments(segments: seq<string>) {
    forall i :: 0 <= i < |segments| ==> IsSegment(segments[i])
  }

  /** What slugs have in common with prefixes of slugs. */
  predicate IsSlugPrefix(s: string) {
    && AllSlugChars(s)
    && (s != "" ==> s[0] != '-')
    && (forall i :: 0 <= i < |s| - 1 ==> !(s[i] == '-' && s[i + 1] == '-'))
  }

  predicate IsNormal(s: string) {
    s != "" && IsSlugPrefix(s) && s[|s| - 1] != '-'
  }

  lemma JoinSegments(a: string, b: string)
    requires IsSegment(a) && IsNormal(b)
    ensures IsNormal(a + "-" + b)
  {
    var s := a + "-" + b;
    forall i | 0 <= i < |s| ensures IsSlugChar(s[i]) {
      assert s[i] == if i < |a| then a[i] else if i == |a| then '-' else b[i - |a| - 1];
    }
    forall i | 0 <= i < |s| - 1 ensures !(s[i] == '-' && s[i + 1] == '-') {
      if i < |a| {
        assert s[i] == a[i];
      } else if i == |a| {
        assert s[i + 1] == b[0];
      } else {
        assert s[i] == b[i - |a| - 1] && s[i + 1] == b[i - |a|];
      }
    }
  }

  lemma {:induction false} SegmentsAreNormal(segments: seq<string>)
    requires segments != [] && AllSegments(segments)
    ensures IsNormal(Join(segments, "-"))
  {
    if |segments| > 1 {
      SegmentsAreNormal(segments[1..]);
      JoinSegments(segments[0], Join(segments[1..], "-"));
    } else {
      assert IsSegment(segments[0]);
    }
  }

  function FirstHyphen(s: string): (n: nat)
    ensures n <= |s|
    ensures forall i :: 0 <= i < n ==> s[i] != '-'
    ensures n < |s| ==> s[n] == '-'
  {
    if s == "" || s[0] == '-' then 0 else 1 + FirstHyphen(s[1..])
  }

  lemma {:induction false} NormalIsSegments(s: string)
    requires IsNormal(s)
    ensures MatchesSlugPattern(s)
    decreases |s|
  {
    var n := FirstHyphen(s);
    if n == |s| {
      assert AllSegments([s]) && Join([s], "-") == s;
    } else {
      var rest := s[n + 1..];
      assert IsNormal(rest) by {
        assert rest[|rest| - 1] == s[|s| - 1];
        assert forall i :: 0 <= i < |rest| ==> rest[i] == s[n + 1 + i];
        assert !(s[n] == '-' && s[n + 1] == '-');
      }
      NormalIsSegments(rest);
      var segments :| segments != [] && AllSegments(segments) && rest == Join(segments, "-");
      var all := [s[..n]] + segments;
      assert all[1..] == segments;
      assert s == s[..n] + "-" + rest;
      assert AllSegments(all) && s == Join(all, "-");
    }
  }

  /** The grammar, character by character: nothing but letters, digits and inner single hyphens. */
  lemma PatternIffNormal(s: string)
    ensures MatchesSlugPattern(s) <==> IsNormal(s)
  {
    if IsNormal(s) {
      NormalIsSegments(s);
    }
    if segments :| segments != [] && AllSegments(segments) && s == Join(segments, "-") {
      SegmentsAreNormal(segments);
    }
  }

  // ---------------------------------------------------------------- what the chain produces

  lemma {:induction false} HyphenatedShape(s: string)
    ensures var h := HyphenateRuns(s);
      && AllSlugChars(h)
      && (h != "" ==> (h[0] == '-' <==> !IsAlnum(s[0])) && s != "")
      && (forall i :: 0 <= i < |h| - 1 ==> !(h[i] == '-' && h[i + 1] == '-'))
    decreases |s|
  {
    if s != "" {
      HyphenatedShape(if IsAlnum(s[0]) then s[1..] else DropOthers(s[1..]));
    }
  }

  lemma {:induction false} StripStartShape(s: string)
    requires AllSlugChars(s) && forall i :: 0 <= i < |s| - 1 ==> !(s[i] == '-' && s[i + 1] == '-')
    ensures IsSlugPrefix(StripStart(s))
  {
    if s != "" && s[0] == '-' {
      StripStartShape(s[1..]);
    }
  }

  lemma {:induction false} StripEndShape(s: string)
    requires IsSlugPrefix(s)
    ensures StripEnd(s) == "" || IsNormal(StripEnd(s))
  {
    if s != "" && s[|s| - 1] == '-' {
      StripEndShape(s[..|s| - 1]);
    }
  }

  lemma NormalizeShape(text: string, lower: string -> string)
    ensures Normalize(text, lower) == "" || IsNormal(Normalize(text, lower))
  {
    var quoted := RemoveQuotes(lower(Trim(text)));
    HyphenatedShape(quoted);
    StripStartShape(HyphenateRuns(quoted));
    StripEndShape(StripStart(HyphenateRuns(quoted)));
  }

  /** The reference: the maximal runs of letters and digits. */
  function Words(s: string): seq<string> {
    if s == "" then []
    else
      var ws := Words(s[1..]);
      if !IsAlnum(s[0]) then ws
      else if |s| > 1 && IsAlnum(s[1]) && ws != [] then [[s[0]] + ws[0]] + ws[1..]
      else [[s[0]]] + ws
  }

  predicate StartsOther(s: string) {
    s != "" && !IsAlnum(s[0])
  }

  predicate EndsOther(s: string) {
    s != "" && !IsAlnum(s[|s| - 1])
  }

  lemma {:induction false} WordsAreSegments(s: string)
    ensures AllSegments(Words(s))
    ensures s != "" && IsAlnum(s[0]) ==> Words(s) != []
    ensures s != "" && Words(s) == [] ==> StartsOther(s) && EndsOther(s)
  {
    if s != "" {
      WordsAreSegments(s[1..]);
      var ws := Words(s[1..]);
      if ws != [] {
        assert IsSegment(ws[0]);
      }
    }
  }

  lemma {:induction false} WordsAfterOthers(s: string)
    ensures Words(DropOthers(s)) == Words(s)
    ensures DropOthers(s) != "" ==> EndsOther(DropOthers(s)) == EndsOther(s)
    ensures DropOthers(s) == "" ==> Words(s) == []
  {
    if s != "" && !IsAlnum(s[0]) {
      WordsAfterOthers(s[1..]);
    }
  }

  function HyphenIf(b: bool): string {
    if b then "-" else ""
  }

  function Trail(s: string): string {
    HyphenIf(EndsOther(s) && Words(s) != [])
  }

  /** Hyphenated text is the words joined, with a hyphen for other characters at either end. */
  lemma {:induction false} HyphenatedWords(s: string)
    ensures HyphenateRuns(s) == HyphenIf(StartsOther(s)) + Join(Words(s), "-") + Trail(s)
    decreases |s|
  {
    if s == "" {
    } else if !IsAlnum(s[0]) {
      HyphenatedWords(DropOthers(s[1..]));
      WordsAfterOthers(s[1..]);
    } else {
      HyphenatedWords(s[1..]);
      LetterInFront(s, HyphenateRuns(s[1..]));
    }
  }

  lemma LetterInFront(s: string, h: string)
    requires s != "" && IsAlnum(s[0])
    requires var rest := s[1..]; h == HyphenIf(StartsOther(rest)) + Join(Words(rest), "-") + Trail(rest)
    ensures [s[0]] + h == HyphenIf(StartsOther(s)) + Join(Words(s), "-") + Trail(s)
  {
    var c, rest, ws := s[0], s[1..], Words(s[1..]);
    WordsAreSegments(rest);
    JoinWithLetter(c, ws);
    assert rest != "" ==> EndsOther(s) == EndsOther(rest);
    if rest != "" && IsAlnum(rest[0]) {
      Glue(c, "", Join(ws, "-"), Trail(rest));
    } else {
      Glue(c, HyphenIf(StartsOther(rest)), Join(ws, "-"), Trail(rest));
      if ws == [] {
        assert Join(ws, "-") == "" && Trail(rest) == "";
      }
    }
  }

  lemma Glue(c: char, lead: string, j: string, trail: string)
    ensures [c] + (lead + j + trail) == "" + ([c] + lead + j) + trail
    ensures [c] + (lead + "" + "") == "" + ([c] + "" + "") + lead
    ensures [c] + "" + j == [c] + j
  {
  }

  lemma JoinWithLetter(c: char, ws: seq<string>)
    ensures Join([[c]] + ws, "-") == [c] + HyphenIf(ws != []) + Join(ws, "-")
    ensures ws != [] ==> Join([[c] + ws[0]] + ws[1..], "-") == [c] + Join(ws, "-")
  {
    assert ([[c]] + ws)[1..] == ws;
    if ws != [] {
      assert ([[c] + ws[0]] + ws[1..])[1..] == ws[1..];
    }
  }

  lemma StripEndOf(s: string, b: bool)
    requires s == "" || s[|s| - 1] != '-'
    ensures StripEnd(s + HyphenIf(b)) == s
  {
    var t := s + HyphenIf(b);
    if b {
      assert t[..|t| - 1] == s;
    } else {
      assert t == s;
    }
  }

  lemma NormalizeJoinsWords(text: string, lower: string -> string)
    ensures Normalize(text, lower) == Join(Words(RemoveQuotes(lower(Trim(text)))), "-")
  {
    var s := RemoveQuotes(lower(Trim(text)));
    var j := Join(Words(s), "-");
    HyphenatedWords(s);
    WordsAreSegments(s);
    var h := HyphenateRuns(s);
    if Words(s) == [] {
      assert h == HyphenIf(StartsOther(s));
    } else {
      SegmentsAreNormal(Words(s));
      var tail := j + HyphenIf(EndsOther(s));
      assert h == HyphenIf(StartsOther(s)) + tail;
      assert StripStart(tail) == tail;
      if StartsOther(s) {
        assert h[1..] == tail;
      } else {
        assert h == tail;
      }
      StripEndOf(j, EndsOther(s));
    }
  }

  function UnlessQuote(c: char): string {
    if c == '\'' || c == '"' then "" else [c]
  }

  lemma {:induction false} QuotesAreDropped(s: string)
    ensures RemoveQuotes(s) == FlatMap(s, UnlessQuote)
  {
    if s != "" {
      QuotesAreDropped(s[1..]);
    }
  }

  /** The slug is the words of the folded text without its quotes, joined by hyphens, or 200 characters of that. */
  lemma SlugifyJoinsWords(text: string, lower: string -> string)
    ensures var whole := Join(Words(FlatMap(lower(Trim(text)), UnlessQuote)), "-");
      Slugify(text, lower) == if |whole| <= 200 then whole else whole[..200]
  {
    NormalizeJoinsWords(text, lower);
    QuotesAreDropped(lower(Trim(text)));
  }

  /** Letters, digits and hyphens only, no leading and no doubled hyphen, at most 200 characters. */
  lemma SlugifyShape(text: string, lower: string -> string)
    ensures var slug := Slugify(text, lower);
      && |slug| <= 200
      && (forall i :: 0 <= i < |slug| ==> 'a' <= slug[i] <= 'z' || '0' <= slug[i] <= '9' || slug[i] == '-')
      && (slug != "" ==> slug[0] != '-')
      && (forall i :: 0 <= i < |slug| - 1 ==> slug[i] != '-' || slug[i + 1] != '-')
  {
    SlugifyIsPrefix(text, lower);
    assert forall i :: 0 <= i < |Slugify(text, lower)| ==> IsSlugChar(Slugify(text, lower)[i]);
  }

  lemma SlugifyIsPrefix(text: string, lower: string -> string)
    ensures IsSlugPrefix(Slugify(text, lower)) && |Slugify(text, lower)| <= MAX_LENGTH
  {
    NormalizeShape(text, lower);
  }

  /** The cut falls right after a hyphen of the full normal form. */
  predicate CutAtHyphen(text: string, lower: string -> string) {
    |Normalize(text, lower)| > MAX_LENGTH && Normalize(text, lower)[MAX_LENGTH - 1] == '-'
  }

  /** A slug that is not empty meets the grammar, unless the cut left a hyphen at its end. */
  lemma SlugifyMatchesIff(text: string, lower: string -> string)
    requires Slugify(text, lower) != ""
    ensures MatchesSlugPattern(Slugify(text, lower)) <==> !CutAtHyphen(text, lower)
    ensures |Slugify(text, lower)| < MAX_LENGTH ==> MatchesSlugPattern(Slugify(text, lower))
  {
    NormalizeShape(text, lower);
    PatternIffNormal(Slugify(text, lower));
  }

  // ---------------------------------------------------------------- fixed points

  lemma TrimKeepsSlugText(s: string)
    requires AllSlugChars(s)
    ensures Trim(s) == s
  {
    if s != "" {
      assert IsSlugChar(s[0]) && IsSlugChar(s[|s| - 1]);
    }
  }

  lemma {:induction false} RemoveQuotesKeeps(s: string)
    requires AllSlugChars(s)
    ensures RemoveQuotes(s) == s
  {
    if s != "" {
      assert IsSlugChar(s[0]);
      RemoveQuotesKeeps(s[1..]);
    }
  }

  lemma {:induction false} HyphenateKeeps(s: string)
    requires AllSlugChars(s) && forall i :: 0 <= i < |s| - 1 ==> !(s[i] == '-' && s[i + 1] == '-')
    ensures HyphenateRuns(s) == s
  {
    if s != "" {
      assert IsSlugChar(s[0]);
      HyphenateKeeps(s[1..]);
      if !IsAlnum(s[0]) && |s| > 1 {
        assert IsSlugChar(s[1]);
        assert DropOthers(s[1..]) == s[1..];
      }
    }
  }

  /** On a prefix of a slug only the last step can act. */
  lemma NormalizePrefix(s: string, lower: string -> string)
    requires IsSlugPrefix(s) && KeepsSlugText(lower)
    ensures Normalize(s, lower) == StripEnd(s)
  {
    TrimKeepsSlugText(s);
    RemoveQuotesKeeps(s);
    HyphenateKeeps(s);
  }

  /** Every string of the grammar that is not too long is its own slug. */
  lemma PatternIsFixed(s: string, lower: string -> string)
    requires KeepsSlugText(lower) && MatchesSlugPattern(s) && |s| <= 200
    ensures Slugify(s, lower) == s
  {
    PatternIffNormal(s);
    NormalizePrefix(s, lower);
  }

  /** Slugging twice changes the result of slugging once exactly when the cut fell after a hyphen. */
  lemma SlugifyIdempotentIff(text: string, lower: string -> string)
    requires KeepsSlugText(lower)
    ensures var once := Slugify(text, lower);
      Slugify(once, lower) == once <==> !CutAtHyphen(text, lower)
  {
    var once := Slugify(text, lower);
    NormalizeShape(text, lower);
    SlugifyIsPrefix(text, lower);
    NormalizePrefix(once, lower);
    if CutAtHyphen(text, lower) {
      StripEndShorter(once);
    }
  }

  lemma {:induction false} StripEndShorter(s: string)
    ensures |StripEnd(s)| <= |s|
    ensures s != "" && s[|s| - 1] == '-' ==> |StripEnd(s)| < |s|
  {
    if s != "" && s[|s| - 1] == '-' {
      StripEndShorter(s[..|s| - 1]);
    }
  }

  /** Slugging three times is slugging twice, for every text. */
  lemma SlugifyThriceIsTwice(text: string, lower: string -> string)
    requires KeepsSlugText(lower)
    ensures var twice := Slugify(Slugify(text, lower), lower);
      Slugify(twice, lower) == twice
  {
    var once := Slugify(text, lower);
    SlugifyIsPrefix(text, lower);
    NormalizePrefix(once, lower);
    StripEndShape(once);
    StripEndShorter(once);
    var twice := Slugify(once, lower);
    if twice != "" {
      PatternIffNormal(twice);
      PatternIsFixed(twice, lower);
    } else {
      NormalizePrefix("", lower);
    }
  }

  function Repeat(c: char, n: nat): string {
    seq(n, _ => c)
  }

  /** A slug of 201 characters whose cut breaks the grammar, although the text itself meets it. */
  lemma CutCanBreakThePattern(lower: string -> string)
    requires KeepsSlugText(lower)
    ensures var text := Repeat('a', 199) + "-b";
      MatchesSlugPattern(text) && CutAtHyphen(text, lower) && !MatchesSlugPattern(Slugify(text, lower))
  {
    var text := Repeat('a', 199) + "-b";
    assert IsNormal(text);
    PatternIffNormal(text);
    NormalizePrefix(text, lower);
    SlugifyMatchesIff(text, lower);
  }

  // ---------------------------------------------------------------- the unique-slug search

  function RootOf(base: string, lower: string -> string): string {
    if Slugify(base, lower) != "" then Slugify(base, lower) else "item"
  }

  /** The order of the search: root, root-2, root-3, and so on. */
  function Candidate(root: string, k: nat): string {
    if k == 0 then root else root + "-" + Decimal(k + 1)
  }

  /** `slug` is the text, a hyphen, and digits that denote `n`. */
  predicate IsNumbered(slug: string, text: string, n: nat) {
    && |text| < |slug| && slug[..|text|] == text && slug[|text|] == '-'
    && var digits := slug[|text| + 1..];
       AllDigits(digits) && Value(digits) == n
  }

  lemma CandidateIsNumbered(root: string, k: nat)
    requires k > 0
    ensures IsNumbered(Candidate(root, k), root, k + 1)
  {
    assert Candidate(root, k)[|root| + 1..] == Decimal(k + 1);
    ValueOfDecimal(k + 1);
  }

  lemma CandidatesAreDistinct(root: string, j: nat, k: nat)
    requires Candidate(root, j) == Candidate(root, k)
    ensures j == k
  {
    if j != 0 && k != 0 {
      assert Candidate(root, j)[|root| + 1..] == Decimal(j + 1);
      assert Candidate(root, k)[|root| + 1..] == Decimal(k + 1);
      DecimalIsInjective(j + 1, k + 1);
    }
  }

  lemma RootLength(base: string, lower: string -> string)
    ensures 1 <= |RootOf(base, lower)| <= MAX_LENGTH
  {
  }

  /**
   The suffix is added after the cut: a candidate is longer than a slug may be exactly if it has a
   suffix, and the root left no room for it or for all its digits.
   */
  lemma CandidateTooLongIff(base: string, lower: string -> string, k: nat)
    ensures var root := RootOf(base, lower);
      && |root| <= MAX_LENGTH
      && (|Candidate(root, k)| > MAX_LENGTH <==>
           k >= 1 && (|root| == MAX_LENGTH || k + 1 >= Pow10(MAX_LENGTH - 1 - |root|)))
  {
    RootLength(base, lower);
    var room := MAX_LENGTH - 1 - |RootOf(base, lower)|;
    if room >= 1 {
      DecimalLengthIff(k + 1, room);
    }
  }

  /** Pigeonhole: `k` taken candidates are `k` taken slugs. */
  lemma {:induction false} TakenCandidates(root: string, k: nat, taken: set<string>)
    requires forall j :: 0 <= j < k ==> Candidate(root, j) in taken
    ensures k <= |taken|
  {
    if k > 0 {
      var last := Candidate(root, k - 1);
      forall j | 0 <= j < k - 1 ensures Candidate(root, j) in taken - {last} {
        if Candidate(root, j) == last {
          CandidatesAreDistinct(root, j, k - 1);
        }
      }
      TakenCandidates(root, k - 1, taken - {last});
    }
  }

  /** `taken` is the set of slugs for which `slugExists` answers true; `probes` counts its calls. */
  method GenerateUniqueSlug(base: string, taken: set<string>, lower: string -> string)
    returns (slug: string, probes: nat)
    ensures slug !in taken
    ensures 1 <= probes <= |taken| + 1
    ensures slug == Candidate(RootOf(base, lower), probes - 1)
    ensures forall j :: 0 <= j < probes - 1 ==> Candidate(RootOf(base, lower), j) in taken
    ensures var text := Slugify(base, lower); var first := if text == "" then "item" else text;
      if first !in taken then slug == first && probes == 1 else probes > 1 && IsNumbered(slug, first, probes)
    ensures 1 <= |RootOf(base, lower)| <= MAX_LENGTH
    ensures |slug| > MAX_LENGTH <==>
      probes >= 2 && (|RootOf(base, lower)| == MAX_LENGTH || probes >= Pow10(MAX_LENGTH - 1 - |RootOf(base, lower)|))
  {
    var normalized := Slugify(base, lower);
    var root := if |normalized| > 0 then normalized else "item";
    var candidate := root;
    var suffix := 2;
    probes := 1;
    while candidate in taken
      invariant suffix == probes + 1 && candidate == Candidate(root, probes - 1)
      invariant probes >= 1 && forall j :: 0 <= j < probes - 1 ==> Candidate(root, j) in taken
      decreases |taken| + 1 - probes
    {
      TakenCandidates(root, probes, taken);
      candidate := root + "-" + Decimal(suffix);
      suffix := suffix + 1;
      probes := probes + 1;
    }
    TakenCandidates(root, probes - 1, taken);
    CandidateTooLongIff(base, lower, probes - 1);
    RootLength(base, lower);
    if probes > 1 {
      CandidateIsNumbered(root, probes - 1);
    }
    slug := candidate;
  }

  /** A candidate meets the grammar exactly when the root does. */
  lemma CandidateMatchesIff(root: string, k: nat)
    requires root != "" && IsSlugPrefix(root)
    ensures MatchesSlugPattern(Candidate(root, k)) <==> MatchesSlugPattern(root)
  {
    PatternIffNormal(root);
    PatternIffNormal(Candidate(root, k));
    if k > 0 {
      var s, d := Candidate(root, k), Decimal(k + 1);
      var n := |root|;
      assert s[n - 1] == root[n - 1] && s[n] == '-';
      if IsNormal(root) {
        forall i | 0 <= i < |s| ensures IsSlugChar(s[i]) {
          assert s[i] == if i < n then root[i] else if i == n then '-' else d[i - n - 1];
        }
        forall i | 0 <= i < |s| - 1 ensures !(s[i] == '-' && s[i + 1] == '-') {
          if i < n - 1 {
            assert s[i] == root[i] && s[i + 1] == root[i + 1];
          } else if i >= n {
            assert s[i + 1] == d[i - n];
          }
        }
        assert s[|s| - 1] == d[|d| - 1];
      }
    }
  }
}
