/**
 The string library calls the modelled code rests on: `split`, `join` and the replacement of every
 occurrence.  They work on any sequence, so they serve texts of characters and of code units.
 */
module JsStrings {
  import opened Sequences

  /** `s.split(sep)`: leftmost occurrences, not overlapping. */
  function Split<T(==)>(s: seq<T>, sep: seq<T>): (parts: seq<seq<T>>)
    requires sep != []
    ensures parts != []
  {
    if s == [] then [[]]
    else if sep <= s then [[]] + Split(s[|sep|..], sep)
    else
      var rest := Split(s[1..], sep);
      [[s[0]] + rest[0]] + rest[1..]
  }

  /** `parts.join(glue)`. */
  function Join<T>(parts: seq<seq<T>>, glue: seq<T>): seq<T> {
    if parts == [] then []
    else if |parts| == 1 then parts[0]
    else parts[0] + glue + Join(parts[1..], glue)
  }

  function ReplaceAll<T(==)>(s: seq<T>, sep: seq<T>, sub: seq<T>): seq<T>
    requires sep != []
  {
    if s == [] then []
    else if sep <= s then sub + ReplaceAll(s[|sep|..], sep, sub)
    else [s[0]] + ReplaceAll(s[1..], sep, sub)
  }

  /** The idiom `s.split(sep).join(sub)` replaces every occurrence. */
  lemma {:induction false} JoinOfSplit<T>(s: seq<T>, sep: seq<T>, sub: seq<T>)
    requires sep != []
    ensures Join(Split(s, sep), sub) == ReplaceAll(s, sep, sub)
  {
    if s == [] {
    } else if sep <= s {
      JoinOfSplit(s[|sep|..], sep, sub);
      var rest := Split(s[|sep|..], sep);
      assert ([[]] + rest)[1..] == rest;
      assert [] + sub + Join(rest, sub) == sub + Join(rest, sub);
    } else {
      JoinOfSplit(s[1..], sep, sub);
      var rest := Split(s[1..], sep);
      var parts := [[s[0]] + rest[0]] + rest[1..];
      assert parts[1..] == rest[1..];
      if |rest| > 1 {
        assert [s[0]] + rest[0] + sub + Join(rest[1..], sub) == [s[0]] + (rest[0] + sub + Join(rest[1..], sub));
      }
    }
  }

  /** Splitting at a separator that no part contains undoes the join. */
  lemma {:induction false} SplitOfJoin<T>(parts: seq<seq<T>>, c: T)
    requires parts != []
    requires forall i :: 0 <= i < |parts| ==> c !in parts[i]
    ensures Split(Join(parts, [c]), [c]) == parts
  {
    if |parts| == 1 {
      SplitNone(parts[0], c);
    } else {
      SplitOfJoin(parts[1..], c);
      SplitFirst(parts[0], Join(parts[1..], [c]), c);
      assert parts[0] + [c] + Join(parts[1..], [c]) == Join(parts, [c]);
      assert [parts[0]] + parts[1..] == parts;
    }
  }

  lemma {:induction false} SplitNone<T>(s: seq<T>, c: T)
    requires c !in s
    ensures Split(s, [c]) == [s]
  {
    if s != [] {
      SplitNone(s[1..], c);
      assert [s[0]] + s[1..] == s;
    }
  }

  lemma {:induction false} SplitFirst<T>(s: seq<T>, rest: seq<T>, c: T)
    requires c !in s
    ensures Split(s + [c] + rest, [c]) == [s] + Split(rest, [c])
  {
    var all := s + [c] + rest;
    if s == [] {
      assert all[1..] == rest;
    } else {
      SplitFirst(s[1..], rest, c);
      assert all[1..] == s[1..] + [c] + rest;
      assert [s[0]] + s[1..] == s;
    }
  }

  lemma {:induction false} SplitLast<T>(s: seq<T>, last: seq<T>, c: T)
    requires c !in last
    ensures Split(s + [c] + last, [c]) == Split(s, [c]) + [last]
  {
    var all := s + [c] + last;
    if s == [] {
      SplitFirst([], last, c);
      SplitNone(last, c);
    } else {
      SplitLast(s[1..], last, c);
      assert all[1..] == s[1..] + [c] + last;
      assert [c] <= all <==> s[0] == c;
      assert [c] <= s <==> s[0] == c;
    }
  }

  lemma {:induction false} PartsAreFree<T>(s: seq<T>, c: T)
    ensures forall i :: 0 <= i < |Split(s, [c])| ==> c !in Split(s, [c])[i]
  {
    if s != [] {
      PartsAreFree(s[1..], c);
      assert [c] <= s <==> s[0] == c;
    }
  }

  lemma JoinCons<T>(part: seq<T>, parts: seq<seq<T>>, glue: seq<T>)
    ensures Join([part] + parts, glue) == if parts == [] then part else part + glue + Join(parts, glue)
  {
    assert ([part] + parts)[1..] == parts;
  }

  lemma {:induction false} JoinFront<T>(parts: seq<seq<T>>, post: seq<seq<T>>, glue: seq<T>)
    requires parts != []
    ensures Join(parts + post, glue) == Join([Join(parts, glue)] + post, glue)
  {
    if |parts| == 1 {
      assert parts == [parts[0]];
    } else {
      var whole := Join(parts[1..], glue);
      JoinFront(parts[1..], post, glue);
      assert parts + post == [parts[0]] + (parts[1..] + post);
      JoinCons(parts[0], parts[1..] + post, glue);
      JoinCons(whole, post, glue);
      JoinCons(parts[0] + glue + whole, post, glue);
      if post != [] {
        assert parts[0] + glue + (whole + glue + Join(post, glue)) == parts[0] + glue + whole + glue + Join(post, glue);
      }
    }
  }

  /** A stretch of parts may be joined beforehand. */
  lemma {:induction false} JoinInside<T>(pre: seq<seq<T>>, parts: seq<seq<T>>, post: seq<seq<T>>, glue: seq<T>)
    requires parts != []
    ensures Join(pre + parts + post, glue) == Join(pre + [Join(parts, glue)] + post, glue)
  {
    if pre == [] {
      JoinFront(parts, post, glue);
      assert pre + parts + post == parts + post && pre + [Join(parts, glue)] + post == [Join(parts, glue)] + post;
    } else {
      var a, b := pre[1..] + parts + post, pre[1..] + [Join(parts, glue)] + post;
      JoinInside(pre[1..], parts, post, glue);
      assert pre + parts + post == [pre[0]] + a && pre + [Join(parts, glue)] + post == [pre[0]] + b;
      JoinCons(pre[0], a, glue);
      JoinCons(pre[0], b, glue);
    }
  }

  function Substitution<T(==)>(c: T, sub: seq<T>): T -> seq<T> {
    x => if x == c then sub else [x]
  }

  /** Replacing a single element maps each element on its own. */
  lemma {:induction false} ReplaceElement<T>(s: seq<T>, c: T, sub: seq<T>)
    ensures ReplaceAll(s, [c], sub) == FlatMap(s, Substitution(c, sub))
  {
    if s != [] {
      ReplaceElement(s[1..], c, sub);
      assert [c] <= s <==> s[0] == c;
    }
  }

  /** Joining with the separator undoes the split. */
  lemma JoinUndoesSplit<T>(s: seq<T>, c: T)
    ensures Join(Split(s, [c]), [c]) == s
  {
    JoinOfSplit(s, [c], [c]);
    ReplaceElement(s, c, [c]);
    FlatMapUnchanged(s, Substitution(c, [c]));
  }

  ghost predicate FreeOf<T>(parts: seq<seq<T>>, c: T) {
    forall part :: part in parts ==> c !in part
  }

  lemma PiecesOfJoin<T>(pre: seq<seq<T>>, part: seq<T>, post: seq<seq<T>>, c: T)
    requires FreeOf(pre, c) && FreeOf(post, c)
    ensures Split(Join(pre + [part] + post, [c]), [c]) == pre + Split(part, [c]) + post
  {
    var inner := Split(part, [c]);
    JoinUndoesSplit(part, c);
    JoinInside(pre, inner, post, [c]);
    PartsAreFree(part, c);
    var pieces := pre + inner + post;
    forall i | 0 <= i < |pieces| ensures c !in pieces[i] {
      assert pieces[i] in pre || pieces[i] in inner || pieces[i] in post;
    }
    SplitOfJoin(pieces, c);
  }

  lemma MiddleTells<T>(a: seq<T>, x: seq<T>, b: seq<T>, c: seq<T>, y: seq<T>, d: seq<T>)
    requires |a| == |c| && |b| == |d| && a + x + b == c + y + d
    ensures a == c && x == y && b == d
  {
    var s := a + x + b;
    var n := |s| - |b|;
    assert a == s[..|a|] && x == s[|a|..n] && b == s[n..];
    assert c == s[..|a|] && y == s[|a|..n] && d == s[n..];
  }

  /** If only one part may hold the separator, and its place is known, the join tells the parts. */
  lemma OneOpenPart<T>(a: seq<seq<T>>, x: seq<T>, b: seq<seq<T>>, c: seq<seq<T>>, y: seq<T>, d: seq<seq<T>>, sep: T)
    requires |a| == |c| && |b| == |d|
    requires FreeOf(a, sep) && FreeOf(b, sep) && FreeOf(c, sep) && FreeOf(d, sep)
    requires Join(a + [x] + b, [sep]) == Join(c + [y] + d, [sep])
    ensures a == c && x == y && b == d
  {
    PiecesOfJoin(a, x, b, sep);
    PiecesOfJoin(c, y, d, sep);
    MiddleTells(a, Split(x, [sep]), b, c, Split(y, [sep]), d);
    JoinUndoesSplit(x, sep);
    JoinUndoesSplit(y, sep);
  }

  /** `\s` of ECMA-262, which is also what `trim` removes. */
  predicate IsSpace(c: char) {
    || '\t' <= c <= '\r' || c == ' ' || c == '\U{00A0}' || c == '\U{1680}' || '\U{2000}' <= c <= '\U{200A}'
    || c == '\U{2028}' || c == '\U{2029}' || c == '\U{202F}' || c == '\U{205F}' || c == '\U{3000}' || c == '\U{FEFF}'
  }

  function TrimStart(s: string): string {
    if s != "" && IsSpace(s[0]) then TrimStart(s[1..]) else s
  }

  function TrimEnd(s: string): string {
    if s != "" && IsSpace(s[|s| - 1]) then TrimEnd(s[..|s| - 1]) else s
  }

  function Trim(s: string): string {
    TrimEnd(TrimStart(s))
  }

  lemma {:induction false} TrimStartParts(s: string) returns (pre: string)
    ensures s == pre + TrimStart(s) && forall c :: c in pre ==> IsSpace(c)
  {
    pre := "";
    if s != "" && IsSpace(s[0]) {
      var rest := TrimStartParts(s[1..]);
      pre := [s[0]] + rest;
      assert s == [s[0]] + s[1..];
    }
  }

  lemma {:induction false} TrimEndParts(s: string) returns (post: string)
    ensures s == TrimEnd(s) + post && forall c :: c in post ==> IsSpace(c)
  {
    post := "";
    if s != "" && IsSpace(s[|s| - 1]) {
      var rest := TrimEndParts(s[..|s| - 1]);
      post := rest + [s[|s| - 1]];
      assert s == s[..|s| - 1] + [s[|s| - 1]];
    }
  }

  /** Only spaces are trimmed. */
  lemma TrimParts(s: string) returns (pre: string, post: string)
    ensures s == pre + Trim(s) + post
    ensures forall c :: c in pre + post ==> IsSpace(c)
  {
    pre := TrimStartParts(s);
    post := TrimEndParts(TrimStart(s));
    Concat3(pre, Trim(s), post);
  }
}
