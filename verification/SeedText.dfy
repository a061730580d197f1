/**
 Helpers of the catalog seed (apps/api/prisma/seed-catalog-v2.ts): the greedy line wrap with its
 early exit, and the rolling hash that picks a colour pair.
 */
module SeedText {
  import opened JsStrings
  import opened Sequences

  // ---------------------------------------------------------------- wrapText

  /** A line of the layout: the word for which it was begun (none for the first line) and its text. */
  datatype Line = Line(first: string, text: string)

  function Extend(current: string, word: string): string {
    if current != "" then current + " " + word else word
  }

  predicate Breaks(current: string, word: string, width: nat) {
    |Extend(current, word)| > width && current != ""
  }

  /** The reference: the greedy layout of all the words, without any limit on the lines. */
  function Layout(line: Line, words: seq<string>, width: nat): (lines: seq<Line>)
    ensures lines != []
    decreases words
  {
    if words == [] then [line]
    else if Breaks(line.text, words[0], width) then [line] + Layout(Line(words[0], words[0]), words[1..], width)
    else Layout(Line(line.first, Extend(line.text, words[0])), words[1..], width)
  }

  function LayoutOf(text: string, width: nat): (lines: seq<Line>)
    ensures lines != []
  {
    Layout(Line("", ""), Split(text, " "), width)
  }

  function TextOf(line: Line): seq<string> {
    [line.text]
  }

  function Texts(lines: seq<Line>): seq<string> {
    FlatMap(lines, TextOf)
  }

  function UnlessEmpty(s: string): seq<string> {
    if s == "" then [] else [s]
  }

  function Slice<T>(s: seq<T>, n: nat): seq<T> {
    if |s| <= n then s else s[..n]
  }

  /**
   What the wrap makes of the layout: all of it if it has fewer lines than allowed; otherwise all
   lines but the last allowed one, and of that one only the first word.
   */
  function Wrapped(lines: seq<Line>, maxLines: nat): seq<string>
    requires lines != []
  {
    if maxLines >= 2 && |lines| >= maxLines then
      Texts(lines[..maxLines - 1]) + UnlessEmpty(lines[maxLines - 1].first)
    else
      Slice(Texts(lines[..|lines| - 1]) + UnlessEmpty(lines[|lines| - 1].text), maxLines)
  }

  /** The layout of all words is `done`, then what becomes of the line begun and the words from `k` on. */
  ghost predicate LaidOut(all: seq<Line>, done: seq<Line>, line: Line, words: seq<string>, k: nat, width: nat) {
    k <= |words| && all == done + Layout(line, words[k..], width)
  }

  method WrapText(text: string, maxCharsPerLine: nat, maxLines: nat) returns (result: seq<string>)
    ensures result == Wrapped(LayoutOf(text, maxCharsPerLine), maxLines)
  {
    var words := Split(text, " ");
    var lines: seq<string> := [];
    var current := "";
    ghost var first := "";
    ghost var done: seq<Line> := [];
    ghost var all := LayoutOf(text, maxCharsPerLine);
    ghost var cut := false;
    assert words[0..] == words;
    for k := 0 to |words|
      invariant lines == Texts(done) && !cut
      invariant LaidOut(all, done, Line(first, current), words, k, maxCharsPerLine)
      invariant maxLines >= 2 ==> |done| < maxLines - 1
    {
      var word := words[k];
      var candidate := if current != "" then current + " " + word else word;
      if |candidate| > maxCharsPerLine && current != "" {
        NextLine(all, done, Line(first, current), words, k, maxCharsPerLine);
        done := done + [Line(first, current)];
        lines := lines + [current];
        current := word;
        first := word;
        TextsLength(done);
        if |lines| == maxLines - 1 {
          cut := maxLines >= 2;
          LineBegun(all, done, Line(word, word), words, k + 1, maxCharsPerLine);
          break;
        }
      } else {
        SameLine(all, done, Line(first, current), words, k, maxCharsPerLine);
        current := candidate;
      }
    }
    if cut {
      FinishCut(all, done, current, maxLines);
    } else {
      assert words[|words|..] == [];
      FinishAll(all, done, Line(first, current), maxLines);
    }
    if current != "" {
      lines := lines + [current];
    }
    result := if |lines| <= maxLines then lines else lines[..maxLines];
  }

  lemma NextLine(all: seq<Line>, done: seq<Line>, line: Line, words: seq<string>, k: nat, width: nat)
    requires LaidOut(all, done, line, words, k, width) && k < |words| && Breaks(line.text, words[k], width)
    ensures LaidOut(all, done + [line], Line(words[k], words[k]), words, k + 1, width)
    ensures Texts(done + [line]) == Texts(done) + [line.text]
  {
    assert words[k..][0] == words[k] && words[k..][1..] == words[k + 1..];
    Concat3(done, [line], Layout(Line(words[k], words[k]), words[k + 1..], width));
    FlatMapConcat(done, [line], TextOf);
    FlatMapOne(line, TextOf);
  }

  lemma SameLine(all: seq<Line>, done: seq<Line>, line: Line, words: seq<string>, k: nat, width: nat)
    requires LaidOut(all, done, line, words, k, width) && k < |words| && !Breaks(line.text, words[k], width)
    ensures LaidOut(all, done, Line(line.first, Extend(line.text, words[k])), words, k + 1, width)
  {
    assert words[k..][0] == words[k] && words[k..][1..] == words[k + 1..];
  }

  lemma LineBegun(all: seq<Line>, done: seq<Line>, line: Line, words: seq<string>, k: nat, width: nat)
    requires LaidOut(all, done, line, words, k, width)
    ensures |done| < |all| && all[..|done|] == done && all[|done|].first == line.first
  {
    LayoutKeepsFirst(line, words[k..], width);
  }

  lemma FinishCut(all: seq<Line>, done: seq<Line>, current: string, maxLines: nat)
    requires maxLines >= 2 && |done| == maxLines - 1 < |all| && all[..|done|] == done && all[|done|].first == current
    ensures Wrapped(all, maxLines) == Texts(done) + UnlessEmpty(current)
    ensures |Texts(done) + UnlessEmpty(current)| <= maxLines
  {
    TextsLength(done);
  }

  lemma FinishAll(all: seq<Line>, done: seq<Line>, last: Line, maxLines: nat)
    requires all == done + [last] && (maxLines >= 2 ==> |done| < maxLines - 1)
    ensures Wrapped(all, maxLines) == Slice(Texts(done) + UnlessEmpty(last.text), maxLines)
  {
    assert all[..|all| - 1] == done;
  }

  lemma {:induction false} TextsLength(lines: seq<Line>)
    ensures |Texts(lines)| == |lines|
  {
    if lines != [] {
      TextsLength(lines[1..]);
    }
  }

  lemma {:induction false} LayoutKeepsFirst(line: Line, words: seq<string>, width: nat)
    ensures Layout(line, words, width)[0].first == line.first
    decreases words
  {
    if words != [] && !Breaks(line.text, words[0], width) {
      LayoutKeepsFirst(Line(line.first, Extend(line.text, words[0])), words[1..], width);
    }
  }

  // ---------------------------------------------------------------- what the layout is

  /** Each line fits the width or is a single word, and each break was necessary. */
  ghost predicate IsGreedy(lines: seq<Line>, words: seq<string>, width: nat) {
    && (forall i :: 0 <= i < |lines| ==> |lines[i].text| <= width || lines[i].text in words)
    && (forall i :: 0 <= i < |lines| - 1 ==> lines[i].text != "" && |lines[i].text + " " + lines[i + 1].first| > width)
  }

  lemma {:induction false} LayoutIsGreedy(line: Line, words: seq<string>, width: nat, all: seq<string>)
    requires |line.text| <= width || line.text in all
    requires forall w :: w in words ==> w in all
    ensures IsGreedy(Layout(line, words, width), all, width)
    decreases words
  {
    if words != [] {
      assert words[0] in all;
      forall w | w in words[1..] ensures w in all {
        assert w in words;
      }
      if Breaks(line.text, words[0], width) {
        var rest := Layout(Line(words[0], words[0]), words[1..], width);
        LayoutIsGreedy(Line(words[0], words[0]), words[1..], width, all);
        LayoutKeepsFirst(Line(words[0], words[0]), words[1..], width);
        assert rest[0].first == words[0];
      } else {
        LayoutIsGreedy(Line(line.first, Extend(line.text, words[0])), words[1..], width, all);
      }
    }
  }

  /** The layout of a text is greedy: lines fit or are single words, and none could take the next word. */
  lemma LayoutOfIsGreedy(text: string, width: nat)
    ensures IsGreedy(LayoutOf(text, width), Split(text, " "), width)
  {
    LayoutIsGreedy(Line("", ""), Split(text, " "), width, Split(text, " "));
  }

  function NonEmpty(words: seq<string>): seq<string> {
    FlatMap(words, UnlessEmpty)
  }

  /** The words shown on a line. */
  function WordsOf(text: string): seq<string> {
    NonEmpty(Split(text, " "))
  }

  function AllWords(texts: seq<string>): seq<string> {
    FlatMap(texts, WordsOf)
  }

  lemma LineWords(text: string)
    ensures AllWords(UnlessEmpty(text)) == WordsOf(text)
  {
    if text == "" {
      FlatMapOne("", UnlessEmpty);
    } else {
      FlatMapOne(text, WordsOf);
    }
  }

  lemma OneWord(word: string)
    requires ' ' !in word
    ensures WordsOf(word) == UnlessEmpty(word) == NonEmpty([word]) == AllWords(UnlessEmpty(word))
  {
    SplitNone(word, ' ');
    FlatMapOne(word, UnlessEmpty);
    LineWords(word);
  }

  lemma ExtendAddsWord(current: string, word: string)
    requires ' ' !in word
    ensures WordsOf(Extend(current, word)) == WordsOf(current) + UnlessEmpty(word)
  {
    OneWord(word);
    if current == "" {
      OneWord("");
    } else {
      SplitLast(current, word, ' ');
      FlatMapConcat(Split(current, " "), [word], UnlessEmpty);
    }
  }

  ghost predicate NoSpaces(words: seq<string>) {
    forall i :: 0 <= i < |words| ==> ' ' !in words[i]
  }

  /** No word is lost, added or moved by the layout. */
  lemma {:induction false} LayoutKeepsWords(line: Line, words: seq<string>, width: nat)
    requires NoSpaces(words)
    ensures AllWords(Texts(Layout(line, words, width))) == WordsOf(line.text) + NonEmpty(words)
    decreases words
  {
    if words == [] {
      FlatMapOne(line, TextOf);
      FlatMapOne(line.text, WordsOf);
    } else if Breaks(line.text, words[0], width) {
      var next := Line(words[0], words[0]);
      LayoutKeepsWords(next, words[1..], width);
      OneWord(words[0]);
      var rest := Layout(next, words[1..], width);
      assert ([line] + rest)[1..] == rest;
      assert ([line.text] + Texts(rest))[1..] == Texts(rest);
    } else {
      LayoutKeepsWords(Line(line.first, Extend(line.text, words[0])), words[1..], width);
      ExtendAddsWord(line.text, words[0]);
    }
  }

  lemma {:induction false} FirstsAreShown(line: Line, words: seq<string>, width: nat)
    requires NoSpaces(words) && ' ' !in line.first && UnlessEmpty(line.first) <= WordsOf(line.text)
    ensures forall i :: 0 <= i < |Layout(line, words, width)| ==>
      ' ' !in Layout(line, words, width)[i].first &&
        UnlessEmpty(Layout(line, words, width)[i].first) <= WordsOf(Layout(line, words, width)[i].text)
    decreases words
  {
    if words != [] {
      if Breaks(line.text, words[0], width) {
        OneWord(words[0]);
        FirstsAreShown(Line(words[0], words[0]), words[1..], width);
      } else {
        ExtendAddsWord(line.text, words[0]);
        FirstsAreShown(Line(line.first, Extend(line.text, words[0])), words[1..], width);
      }
    }
  }

  // ---------------------------------------------------------------- what the wrap shows

  /** The words of the layout's lines, split at any line. */
  lemma LayoutWordsSplit(text: string, width: nat, n: nat)
    requires n < |LayoutOf(text, width)|
    ensures var lines := LayoutOf(text, width);
      && WordsOf(text) == AllWords(Texts(lines[..n])) + AllWords(Texts(lines[n..]))
      && AllWords(Texts(lines[n..])) == WordsOf(lines[n].text) + AllWords(Texts(lines[n + 1..]))
      && UnlessEmpty(lines[n].first) <= WordsOf(lines[n].text)
      && AllWords(UnlessEmpty(lines[n].first)) == UnlessEmpty(lines[n].first)
  {
    var lines, words := LayoutOf(text, width), Split(text, " ");
    PartsAreFree(text, ' ');
    OneWord("");
    LayoutKeepsWords(Line("", ""), words, width);
    FirstsAreShown(Line("", ""), words, width);
    assert lines == lines[..n] + lines[n..];
    FlatMapConcat(lines[..n], lines[n..], TextOf);
    FlatMapConcat(Texts(lines[..n]), Texts(lines[n..]), WordsOf);
    assert lines[n..][1..] == lines[n + 1..];
    assert ([lines[n].text] + Texts(lines[n + 1..]))[1..] == Texts(lines[n + 1..]);
    OneWord(lines[n].first);
  }

  lemma SliceShowsPrefix(texts: seq<string>, n: nat)
    ensures AllWords(Slice(texts, n)) <= AllWords(texts)
  {
    if |texts| > n {
      FlatMapConcat(texts[..n], texts[n..], WordsOf);
      assert texts == texts[..n] + texts[n..];
    }
  }

  /** At the limit: the lines before the last allowed one, and the first word of that one. */
  lemma CutShowsPrefix(text: string, width: nat, maxLines: nat)
    requires maxLines >= 2 && |LayoutOf(text, width)| >= maxLines
    ensures var lines := LayoutOf(text, width); var n := maxLines - 1;
      && |Wrapped(lines, maxLines)| <= maxLines
      && AllWords(Wrapped(lines, maxLines)) == AllWords(Texts(lines[..n])) + UnlessEmpty(lines[n].first)
      && AllWords(Wrapped(lines, maxLines)) <= WordsOf(text)
  {
    var lines, n := LayoutOf(text, width), maxLines - 1;
    LayoutWordsSplit(text, width, n);
    FlatMapConcat(Texts(lines[..n]), UnlessEmpty(lines[n].first), WordsOf);
    TextsLength(lines[..n]);
    PrefixChain(AllWords(Texts(lines[..n])), UnlessEmpty(lines[n].first), WordsOf(lines[n].text),
      AllWords(Texts(lines[n + 1..])));
  }

  lemma PrefixChain<T>(a: seq<T>, b: seq<T>, c: seq<T>, d: seq<T>)
    requires b <= c
    ensures a + b <= a + (c + d)
  {
  }

  /** Below the limit: every line of the layout, or its first lines if a single one is allowed. */
  lemma UncutShowsAll(text: string, width: nat, maxLines: nat)
    requires !(maxLines >= 2 && |LayoutOf(text, width)| >= maxLines)
    ensures var lines := LayoutOf(text, width); var shown := Wrapped(lines, maxLines);
      && |shown| <= maxLines
      && AllWords(shown) <= WordsOf(text)
      && (|lines| <= maxLines ==> AllWords(shown) == WordsOf(text))
  {
    var lines := LayoutOf(text, width);
    var texts := Texts(lines[..|lines| - 1]) + UnlessEmpty(lines[|lines| - 1].text);
    LayoutShowsAll(text, width);
    SliceShowsPrefix(texts, maxLines);
    TextsLength(lines[..|lines| - 1]);
  }

  lemma LayoutShowsAll(text: string, width: nat)
    ensures var lines := LayoutOf(text, width); var n := |lines| - 1;
      AllWords(Texts(lines[..n]) + UnlessEmpty(lines[n].text)) == WordsOf(text)
  {
    var lines := LayoutOf(text, width);
    var n := |lines| - 1;
    LayoutWordsSplit(text, width, n);
    FlatMapConcat(Texts(lines[..n]), UnlessEmpty(lines[n].text), WordsOf);
    LineWords(lines[n].text);
    assert lines[n + 1..] == [];
    assert WordsOf(lines[n].text) + [] == WordsOf(lines[n].text);
  }

  /** The wrap shows a prefix of the words on at most `maxLines` lines; all of them if the limit is not hit. */
  lemma WrapShowsPrefix(text: string, width: nat, maxLines: nat)
    ensures var lines := LayoutOf(text, width); var shown := Wrapped(lines, maxLines);
      && |shown| <= maxLines
      && AllWords(shown) <= WordsOf(text)
      && (|lines| < maxLines || |lines| == maxLines == 1 ==> AllWords(shown) == WordsOf(text))
  {
    if maxLines >= 2 && |LayoutOf(text, width)| >= maxLines {
      CutShowsPrefix(text, width, maxLines);
    } else {
      UncutShowsAll(text, width, maxLines);
    }
  }

  /** At the limit nothing is dropped exactly when the last line allowed is the first word of the rest of the layout. */
  lemma NothingDroppedIff(text: string, width: nat, maxLines: nat)
    requires maxLines >= 2 && |LayoutOf(text, width)| >= maxLines
    ensures var lines := LayoutOf(text, width);
      AllWords(Wrapped(lines, maxLines)) == WordsOf(text) <==>
        AllWords(Texts(lines[maxLines - 1..])) == UnlessEmpty(lines[maxLines - 1].first)
  {
    var lines, n := LayoutOf(text, width), maxLines - 1;
    LayoutWordsSplit(text, width, n);
    CutShowsPrefix(text, width, maxLines);
    var a, b, c := AllWords(Texts(lines[..n])), AllWords(Texts(lines[n..])), UnlessEmpty(lines[n].first);
    assert (a + b)[|a|..] == b && (a + c)[|a|..] == c;
  }

  lemma {:induction false} TextsAt(lines: seq<Line>, i: nat)
    requires i < |lines|
    ensures |Texts(lines)| == |lines| && Texts(lines)[i] == lines[i].text
  {
    TextsLength(lines);
    if i > 0 {
      TextsAt(lines[1..], i - 1);
    }
  }

  lemma {:induction false} FirstsAreWords(line: Line, words: seq<string>, width: nat, all: seq<string>)
    requires line.first == "" || line.first in all
    requires forall w :: w in words ==> w in all
    ensures forall i :: 0 <= i < |Layout(line, words, width)| ==>
      Layout(line, words, width)[i].first == "" || Layout(line, words, width)[i].first in all
    decreases words
  {
    if words != [] {
      assert words[0] in all && forall w :: w in words[1..] ==> w in words;
      if Breaks(line.text, words[0], width) {
        FirstsAreWords(Line(words[0], words[0]), words[1..], width, all);
      } else {
        FirstsAreWords(Line(line.first, Extend(line.text, words[0])), words[1..], width, all);
      }
    }
  }

  /** Each line shown is that line of the layout; on the last one allowed it may be only its first word. */
  lemma WrapShowsLayout(text: string, width: nat, maxLines: nat, i: nat)
    requires i < |Wrapped(LayoutOf(text, width), maxLines)|
    ensures var lines, shown := LayoutOf(text, width), Wrapped(LayoutOf(text, width), maxLines);
      && i < |lines| && i < maxLines
      && (shown[i] == lines[i].text || (i == maxLines - 1 && shown[i] == lines[i].first))
  {
    var lines := LayoutOf(text, width);
    var n := if maxLines >= 2 && |lines| >= maxLines then maxLines - 1 else |lines| - 1;
    TextsLength(lines[..n]);
    if i < n {
      TextsAt(lines[..n], i);
    }
  }

  /** Each line shown fits the width or is a single word of the text. */
  lemma ShownLinesFit(text: string, width: nat, maxLines: nat, i: nat)
    requires i < |Wrapped(LayoutOf(text, width), maxLines)|
    ensures var line := Wrapped(LayoutOf(text, width), maxLines)[i];
      |line| <= width || line in Split(text, " ")
  {
    WrapShowsLayout(text, width, maxLines, i);
    LayoutOfIsGreedy(text, width);
    FirstsAreWords(Line("", ""), Split(text, " "), width, Split(text, " "));
  }

  lemma {:induction false} NoWordsIff(lines: seq<Line>)
    ensures AllWords(Texts(lines)) == [] <==> forall i :: 0 <= i < |lines| ==> WordsOf(lines[i].text) == []
  {
    if lines != [] {
      NoWordsIff(lines[1..]);
      assert ([lines[0].text] + Texts(lines[1..]))[1..] == Texts(lines[1..]);
      assert AllWords(Texts(lines)) == WordsOf(lines[0].text) + AllWords(Texts(lines[1..]));
      assert forall i :: 1 <= i < |lines| ==> lines[i] == lines[1..][i - 1];
    }
  }

  /** One line allowed, or none: the lines before the limit. */
  lemma SlicedShows(text: string, width: nat, n: nat)
    requires n <= 1 && n < |LayoutOf(text, width)|
    ensures var lines := LayoutOf(text, width);
      AllWords(Wrapped(lines, n)) == AllWords(Texts(lines[..n]))
  {
    var lines := LayoutOf(text, width);
    var m := |lines| - 1;
    TextsLength(lines[..m]);
    assert lines[..m] == lines[..n] + lines[n..m];
    FlatMapConcat(lines[..n], lines[n..m], TextOf);
    TextsLength(lines[..n]);
    assert Wrapped(lines, n) == Texts(lines[..n]);
  }

  lemma NothingLeft<T>(whole: seq<T>, shown: seq<T>, rest: seq<T>)
    requires whole == shown + rest
    ensures shown == whole <==> rest == []
  {
  }

  lemma NothingMore<T>(a: seq<T>, b: seq<T>, c: seq<T>)
    requires c <= a
    ensures a + b == c <==> a == c && b == []
  {
  }

  ghost predicate NoWordsAfter(lines: seq<Line>, n: nat) {
    forall i :: n <= i < |lines| ==> WordsOf(lines[i].text) == []
  }

  /** The line holds no word but the one it was begun for. */
  ghost predicate HoldsItsFirst(line: Line) {
    WordsOf(line.text) == UnlessEmpty(line.first)
  }

  /**
   Of any text all words are shown exactly if the lines after the limit hold none and, when the limit
   is two or more and reached, the last line allowed holds none but the word it was begun for.
   */
  lemma AllWordsShownIff(text: string, width: nat, maxLines: nat)
    ensures var lines := LayoutOf(text, width);
      AllWords(Wrapped(lines, maxLines)) == WordsOf(text) <==>
        NoWordsAfter(lines, maxLines) && (2 <= maxLines <= |lines| ==> HoldsItsFirst(lines[maxLines - 1]))
  {
    var lines := LayoutOf(text, width);
    if 2 <= maxLines <= |lines| {
      var n := maxLines - 1;
      NothingDroppedIff(text, width, maxLines);
      LayoutWordsSplit(text, width, n);
      NothingMore(WordsOf(lines[n].text), AllWords(Texts(lines[maxLines..])), UnlessEmpty(lines[n].first));
      WordsFrom(lines, maxLines);
    } else if |lines| <= maxLines {
      UncutShowsAll(text, width, maxLines);
    } else {
      SlicedShows(text, width, maxLines);
      LayoutWordsSplit(text, width, maxLines);
      NothingLeft(WordsOf(text), AllWords(Texts(lines[..maxLines])), AllWords(Texts(lines[maxLines..])));
      WordsFrom(lines, maxLines);
    }
  }

  lemma WordsFrom(lines: seq<Line>, n: nat)
    requires n <= |lines|
    ensures AllWords(Texts(lines[n..])) == [] <==> NoWordsAfter(lines, n)
  {
    NoWordsIff(lines[n..]);
    assert forall i :: n <= i < |lines| ==> lines[i] == lines[n..][i - n];
  }

  // ---------------------------------------------------------------- texts without empty words

  ghost predicate NoEmptyWords(text: string) {
    forall word :: word in Split(text, " ") ==> word != ""
  }

  ghost predicate Clean(text: string) {
    text == "" || NoEmptyWords(text)
  }

  lemma ExtendStaysClean(current: string, word: string)
    requires ' ' !in word && word != "" && Clean(current)
    ensures Extend(current, word) != "" && NoEmptyWords(Extend(current, word))
  {
    if current == "" {
      SplitNone(word, ' ');
    } else {
      SplitLast(current, word, ' ');
    }
  }

  /** Every line but the first is begun for a word, and no line has empty words. */
  ghost predicate CleanLines(lines: seq<Line>) {
    && (forall i :: 1 <= i < |lines| ==> lines[i].first != "")
    && (forall i :: 0 <= i < |lines| ==> Clean(lines[i].text))
  }

  lemma CleanCons(line: Line, rest: seq<Line>)
    requires Clean(line.text) && CleanLines(rest) && (rest != [] ==> rest[0].first != "")
    ensures CleanLines([line] + rest)
  {
    var lines := [line] + rest;
    forall i | 1 <= i < |lines| ensures lines[i].first != "" && Clean(lines[i].text) {
      assert lines[i] == rest[i - 1];
    }
  }

  lemma {:induction false} LinesAreClean(line: Line, words: seq<string>, width: nat)
    requires NoSpaces(words) && forall word :: word in words ==> word != ""
    requires Clean(line.text)
    ensures CleanLines(Layout(line, words, width))
    decreases words
  {
    if words != [] {
      assert words[0] in words && forall word :: word in words[1..] ==> word in words;
      if Breaks(line.text, words[0], width) {
        var next := Line(words[0], words[0]);
        SplitNone(words[0], ' ');
        LinesAreClean(next, words[1..], width);
        LayoutKeepsFirst(next, words[1..], width);
        CleanCons(line, Layout(next, words[1..], width));
      } else {
        ExtendStaysClean(line.text, words[0]);
        LinesAreClean(Line(line.first, Extend(line.text, words[0])), words[1..], width);
      }
    }
  }

  lemma SingleWordIff(text: string, first: string)
    requires first != "" && [first] <= WordsOf(text) && NoEmptyWords(text)
    ensures WordsOf(text) == [first] <==> ' ' !in text
  {
    FlatMapUnchanged(Split(text, " "), UnlessEmpty);
    JoinUndoesSplit(text, ' ');
    PartsAreFree(text, ' ');
    if ' ' !in text {
      SplitNone(text, ' ');
    }
  }

  lemma SingleLineIff(line: Line)
    requires line.first != "" && Clean(line.text) && UnlessEmpty(line.first) <= WordsOf(line.text)
    ensures WordsOf(line.text) != []
    ensures HoldsItsFirst(line) <==> ' ' !in line.text
  {
    OneWord("");
    SingleWordIff(line.text, line.first);
  }

  lemma CleanLine(text: string, width: nat, n: nat)
    requires NoEmptyWords(text) && 1 <= n < |LayoutOf(text, width)|
    ensures var line := LayoutOf(text, width)[n];
      && WordsOf(line.text) != []
      && (HoldsItsFirst(line) <==> ' ' !in line.text)
  {
    PartsAreFree(text, ' ');
    LinesAreClean(Line("", ""), Split(text, " "), width);
    LayoutWordsSplit(text, width, n);
    SingleLineIff(LayoutOf(text, width)[n]);
  }

  lemma NoLineShowsNothing(text: string, width: nat)
    requires NoEmptyWords(text)
    ensures AllWords(Wrapped(LayoutOf(text, width), 0)) != WordsOf(text)
  {
    FlatMapUnchanged(Split(text, " "), UnlessEmpty);
    assert Wrapped(LayoutOf(text, width), 0) == [];
  }

  lemma NothingLeftIff(text: string, width: nat, maxLines: nat)
    requires NoEmptyWords(text) && maxLines >= 1
    ensures var lines := LayoutOf(text, width);
      NoWordsAfter(lines, maxLines) && (2 <= maxLines <= |lines| ==> HoldsItsFirst(lines[maxLines - 1])) <==>
        || |lines| < maxLines
        || (|lines| == maxLines && (maxLines == 1 || ' ' !in lines[maxLines - 1].text))
  {
    if maxLines < |LayoutOf(text, width)| {
      CleanLine(text, width, maxLines);
    } else if |LayoutOf(text, width)| == maxLines >= 2 {
      CleanLine(text, width, maxLines - 1);
    }
  }

  /**
   A text without empty words is shown whole exactly if its layout has fewer lines than allowed, or
   as many, and then either one is allowed or the last one is a single word.
   */
  lemma ShownWholeIff(text: string, width: nat, maxLines: nat)
    requires NoEmptyWords(text)
    ensures var lines := LayoutOf(text, width);
      AllWords(Wrapped(lines, maxLines)) == WordsOf(text) <==>
        || |lines| < maxLines
        || (|lines| == maxLines && (maxLines == 1 || ' ' !in lines[maxLines - 1].text))
  {
    if maxLines == 0 {
      NoLineShowsNothing(text, width);
    } else {
      AllWordsShownIff(text, width, maxLines);
      NothingLeftIff(text, width, maxLines);
    }
  }

  lemma ThreeWords()
    ensures Split("aaaa bbbb cc", " ") == ["aaaa", "bbbb", "cc"]
  {
    SplitFirst("aaaa", "bbbb cc", ' ');
    SplitFirst("bbbb", "cc", ' ');
    SplitNone("cc", ' ');
    assert "aaaa bbbb cc" == "aaaa" + [' '] + "bbbb cc";
    assert "bbbb cc" == "bbbb" + [' '] + "cc";
    assert ["aaaa"] + (["bbbb"] + ["cc"]) == ["aaaa", "bbbb", "cc"];
  }

  lemma LayoutOfThreeWords()
    ensures Layout(Line("", ""), ["aaaa", "bbbb", "cc"], 7) == [Line("", "aaaa"), Line("bbbb", "bbbb cc")]
  {
    assert ["aaaa", "bbbb", "cc"][1..] == ["bbbb", "cc"] && ["bbbb", "cc"][1..] == ["cc"] && ["cc"][1..] == [];
    assert Extend("bbbb", "cc") == "bbbb cc";
    assert Layout(Line("bbbb", "bbbb cc"), [], 7) == [Line("bbbb", "bbbb cc")];
    assert Layout(Line("bbbb", "bbbb"), ["cc"], 7) == [Line("bbbb", "bbbb cc")];
    assert Breaks("aaaa", "bbbb", 7);
    assert Layout(Line("", "aaaa"), ["bbbb", "cc"], 7) == [Line("", "aaaa")] + [Line("bbbb", "bbbb cc")];
  }

  lemma NoneEmpty()
    ensures NoEmptyWords("aaaa bbbb cc")
  {
    ThreeWords();
  }

  lemma SecondLineIsCut(text: string, width: nat)
    requires NoEmptyWords(text) && |LayoutOf(text, width)| == 2 && ' ' in LayoutOf(text, width)[1].text
    ensures AllWords(Wrapped(LayoutOf(text, width), 2)) != WordsOf(text)
  {
    ShownWholeIff(text, width, 2);
  }

  lemma WrappedInTwo(a: Line, b: Line)
    ensures Wrapped([a, b], 2) == [a.text] + UnlessEmpty(b.first)
  {
    assert [a, b][..1] == [a];
    FlatMapOne(a, TextOf);
  }

  /** A text whose layout fits on the two lines allowed, but of which the last word is dropped. */
  lemma FittingTextCanLoseAWord(text: string, shown: seq<string>)
    requires text == "aaaa bbbb cc" && shown == Wrapped(LayoutOf(text, 7), 2)
    ensures LayoutOf(text, 7) == [Line("", "aaaa"), Line("bbbb", "bbbb cc")]
    ensures shown == ["aaaa", "bbbb"] && AllWords(shown) != WordsOf(text)
  {
    var a, b := Line("", "aaaa"), Line("bbbb", "bbbb cc");
    ThreeWords();
    LayoutOfThreeWords();
    WrappedInTwo(a, b);
    assert b.text[4] == ' ';
    NoneEmpty();
    SecondLineIsCut(text, 7);
  }

  // ---------------------------------------------------------------- hashColor

  const WORD := 0x1_0000_0000

  /** The polynomial in 31 whose value the rolling hash keeps modulo 2 to the 32. */
  function Polynomial(seed: seq<nat>): nat {
    if seed == [] then 0 else Polynomial(seed[..|seed| - 1]) * 31 + seed[|seed| - 1]
  }

  function PowerOf31(n: nat): nat {
    if n == 0 then 1 else 31 * PowerOf31(n - 1)
  }

  lemma {:induction false} PolynomialConcat(a: seq<nat>, b: seq<nat>)
    ensures Polynomial(a + b) == Polynomial(a) * PowerOf31(|b|) + Polynomial(b)
  {
    if b == [] {
      assert a + b == a;
    } else {
      var n := |b| - 1;
      PolynomialConcat(a, b[..n]);
      assert (a + b)[..|a + b| - 1] == a + b[..n];
      TimesPower(Polynomial(a), PowerOf31(n));
    }
  }

  lemma TimesPower(x: nat, p: nat)
    ensures x * (31 * p) == 31 * (x * p)
  {
  }

  /** `seed` holds UTF-16 code units; every intermediate value is an exact double. */
  method HashColor(seed: seq<nat>, paletteSize: nat) returns (index: nat)
    requires paletteSize > 0 && forall i :: 0 <= i < |seed| ==> seed[i] < 0x1_0000
    ensures index == Polynomial(seed) % 0x1_0000_0000 % paletteSize
  {
    var hash := 0;
    for i := 0 to |seed|
      invariant hash == Polynomial(seed[..i]) % WORD
    {
      assert hash * 31 + seed[i] < 0x20_0000_0000_0000;
      assert seed[..i + 1][..i] == seed[..i];
      RollingStep(Polynomial(seed[..i]), seed[i]);
      hash := (hash * 31 + seed[i]) % WORD;
    }
    assert seed[..|seed|] == seed;
    index := hash % paletteSize;
  }

  lemma RollingStep(p: nat, code: nat)
    ensures (p % WORD * 31 + code) % WORD == (p * 31 + code) % WORD
  {
    var q := p / WORD;
    assert p * 31 + code == (p % WORD * 31 + code) + WORD * (31 * q);
  }
}
