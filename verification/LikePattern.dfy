/** The LIKE escaping of todo search.  Patterns are read as the PostgreSQL manual says
    (section 9.7.1): '%' stands for any text, '_' for any one character, and a backslash
    makes the next character literal.  ILIKE folds case on both sides first, as the database's
    locale says. */
module LikePattern {
  import opened Prelude

  datatype Token = AnyRun | AnyOne | Literal(c: char)

  function Fold(fold: char -> char, s: string): (r: string)
    ensures |r| == |s|
    ensures forall i :: 0 <= i < |s| ==> r[i] == fold(s[i])
  {
    seq(|s|, i requires 0 <= i < |s| => fold(s[i]))
  }

  /** What is asked of case folding: it is done once, and it neither changes nor produces the characters
      that mean something in a pattern. */
  ghost predicate Folding(fold: char -> char) {
    && (forall c :: fold(fold(c)) == fold(c))
    && (forall c :: Special(c) ==> fold(c) == c)
    && (forall c :: Special(fold(c)) ==> c == fold(c))
  }

  predicate Special(c: char) { c == '%' || c == '_' || c == '\\' }

  function EscapeChar(c: char): string {
    if c == '%' || c == '_' then ['\\', c] else [c]
  }

  /** What the replacer for '%' and '_' does; backslash is left as it is. */
  function Escape(query: string): string {
    if query == [] then [] else EscapeChar(query[0]) + Escape(query[1..])
  }

  function SearchPattern(query: string): string {
    "%" + Escape(query) + "%"
  }

  /** None when the pattern ends in the middle of an escape, which the database rejects. */
  function Tokens(pattern: string): Option<seq<Token>> {
    if pattern == [] then Some([])
    else if pattern[0] == '\\' then
      if |pattern| == 1 then None else Prepend(Literal(pattern[1]), Tokens(pattern[2..]))
    else
      Prepend(if pattern[0] == '%' then AnyRun else if pattern[0] == '_' then AnyOne else Literal(pattern[0]),
              Tokens(pattern[1..]))
  }

  function Prepend(t: Token, rest: Option<seq<Token>>): Option<seq<Token>> {
    if rest.None? then None else Some([t] + rest.value)
  }

  predicate Matches(ts: seq<Token>, text: string)
    decreases |ts|, |text|
  {
    if ts == [] then text == []
    else match ts[0]
      case Literal(c) => text != [] && text[0] == c && Matches(ts[1..], text[1..])
      case AnyOne => text != [] && Matches(ts[1..], text[1..])
      case AnyRun => Matches(ts[1..], text) || (text != [] && Matches(ts, text[1..]))
  }

  predicate ILike(fold: char -> char, pattern: string, text: string) {
    var ts := Tokens(Fold(fold, pattern));
    ts.Some? && Matches(ts.value, Fold(fold, text))
  }

  predicate Contains(text: string, part: string) {
    exists i :: 0 <= i <= |text| && part <= text[i..]
  }

  // ---- folding and escaping commute ----

  lemma FoldConcat(fold: char -> char, a: string, b: string)
    ensures Fold(fold, a + b) == Fold(fold, a) + Fold(fold, b)
  {
  }

  lemma {:induction false} FoldEscape(fold: char -> char, q: string)
    requires Folding(fold)
    ensures Fold(fold, Escape(q)) == Escape(Fold(fold, q))
  {
    if q != [] {
      FoldEscape(fold, q[1..]);
      assert Fold(fold, q)[1..] == Fold(fold, q[1..]);
      var head := EscapeChar(q[0]);
      FoldConcat(fold, head, Escape(q[1..]));
      assert Special('\\') && Special('%') && Special('_');
      assert Fold(fold, head) == EscapeChar(fold(q[0]));
    }
  }

  lemma FoldPattern(fold: char -> char, q: string)
    requires Folding(fold)
    ensures Fold(fold, SearchPattern(q)) == SearchPattern(Fold(fold, q))
  {
    FoldEscape(fold, q);
    FoldConcat(fold, "%" + Escape(q), "%");
    FoldConcat(fold, "%", Escape(q));
    assert Special('%');
    assert Fold(fold, "%") == "%";
  }

  // ---- what the escaped query tokenises to ----

  function Literals(s: string): seq<Token> {
    seq(|s|, i requires 0 <= i < |s| => Literal(s[i]))
  }

  ghost predicate LiteralsOnly(f: string) {
    Tokens(Escape(f) + "%") == Some(Literals(f) + [AnyRun])
  }

  lemma LiteralsStep(c: char, s: string)
    requires c != '\\' && LiteralsOnly(s)
    ensures LiteralsOnly([c] + s)
  {
    EscapeTail(c, s, "%");
    TokensStep(EscapeChar(c), Escape(s) + "%");
    assert [Literal(c)] + (Literals(s) + [AnyRun]) == Literals([c] + s) + [AnyRun];
  }

  lemma {:induction false} TokensOfEscaped(f: string)
    requires '\\' !in f
    ensures LiteralsOnly(f)
  {
    if f == [] {
      TokensStep("%", "");
      assert Escape(f) + "%" == "%" + "";
      assert [AnyRun] + [] == Literals(f) + [AnyRun];
    } else {
      TokensOfEscaped(f[1..]);
      LiteralsStep(f[0], f[1..]);
      assert f == [f[0]] + f[1..];
    }
  }

  lemma {:induction false} AnyTailMatches(text: string)
    ensures Matches([AnyRun], text)
  {
    if text != [] { AnyTailMatches(text[1..]); }
  }

  lemma {:induction false} LiteralsMatchPrefix(f: string, text: string)
    ensures Matches(Literals(f) + [AnyRun], text) <==> f <= text
  {
    var ts := Literals(f) + [AnyRun];
    if f == [] {
      assert ts == [AnyRun];
      AnyTailMatches(text);
    } else {
      assert ts[1..] == Literals(f[1..]) + [AnyRun];
      if text != [] {
        LiteralsMatchPrefix(f[1..], text[1..]);
        assert f == [f[0]] + f[1..] && text == [text[0]] + text[1..];
      }
    }
  }

  lemma {:induction false} AnyRunSearches(ts: seq<Token>, text: string)
    ensures Matches([AnyRun] + ts, text) <==> exists i :: 0 <= i <= |text| && Matches(ts, text[i..])
    decreases |text|
  {
    var all := [AnyRun] + ts;
    assert all[1..] == ts;
    assert text[0..] == text;
    if text != [] {
      var tail := text[1..];
      AnyRunSearches(ts, tail);
      assert forall i :: 0 <= i <= |tail| ==> tail[i..] == text[i + 1..];
      assert forall i :: 1 <= i <= |text| ==> text[i..] == tail[i - 1..];
    }
  }

  // ---- a text the pattern of a query with a backslash matches although it should not ----

  function Shortest(ts: seq<Token>, any: char): string {
    if ts == [] then []
    else (match ts[0] case AnyRun => [] case AnyOne => [any] case Literal(c) => [c]) + Shortest(ts[1..], any)
  }

  lemma {:induction false} ShortestMatches(ts: seq<Token>, any: char)
    ensures Matches(ts, Shortest(ts, any))
  {
    if ts != [] {
      ShortestMatches(ts[1..], any);
      if ts[0].AnyRun? {
        assert Shortest(ts, any) == Shortest(ts[1..], any);
      } else {
        assert Shortest(ts, any)[1..] == Shortest(ts[1..], any);
      }
    }
  }

  lemma TokensStep(head: string, rest: string)
    requires if |head| == 1 then head[0] != '\\' else |head| == 2 && head[0] == '\\'
    ensures Tokens(head + rest) == Prepend(
      if |head| == 2 then Literal(head[1])
      else if head[0] == '%' then AnyRun else if head[0] == '_' then AnyOne else Literal(head[0]), Tokens(rest))
  {
    assert (head + rest)[|head|..] == rest;
  }

  lemma ShortestStep(t: Token, ts: seq<Token>, any: char)
    ensures Shortest([t] + ts, any) ==
      (match t case AnyRun => [] case AnyOne => [any] case Literal(c) => [c]) + Shortest(ts, any)
  {
    assert ([t] + ts)[1..] == ts;
  }

  /** The shortest match of an escaped query; the query itself never has a shorter one.  any is the
      character that stands for itself alone. */
  ghost predicate ShortestFits(fold: char -> char, f: string, ts: Option<seq<Token>>) {
    var any := fold('x');
    ts.Some?
    && |Shortest(ts.value, any)| <= |f|
    && ('\\' in f ==> Shortest(ts.value, any) != f)
    && (Fold(fold, f) == f ==> Fold(fold, Shortest(ts.value, any)) == Shortest(ts.value, any))
  }

  lemma FitsStep(fold: char -> char, c: char, f: string, ts: Option<seq<Token>>)
    requires Folding(fold) && c != '\\' && ShortestFits(fold, f, ts)
    ensures ShortestFits(fold, [c] + f, Prepend(Literal(c), ts))
  {
    var short := Shortest(ts.value, fold('x'));
    ShortestStep(Literal(c), ts.value, fold('x'));
    FoldConcat(fold, [c], f);
    FoldConcat(fold, [c], short);
    assert ([c] + f)[1..] == f;
  }

  /** A backslash followed by another character of the query. */
  lemma FitsBackslash(fold: char -> char, c: char, f: string, ts: Option<seq<Token>>)
    requires Folding(fold) && ShortestFits(fold, f, ts)
    ensures ShortestFits(fold, ['\\'] + ([c] + f),
      if c == '%' then Prepend(Literal('\\'), Prepend(AnyRun, ts))
      else if c == '_' then Prepend(Literal('\\'), Prepend(AnyOne, ts))
      else Prepend(Literal(c), ts))
  {
    var any := fold('x');
    var short := Shortest(ts.value, any);
    var query := ['\\'] + ([c] + f);
    assert query[1] == c && query[2..] == f;
    assert Special('\\') && !Special('x') && Special('_');
    assert Fold(fold, query) == query ==> fold(c) == c && Fold(fold, f) == f by {
      if Fold(fold, query) == query {
        assert Fold(fold, query)[1] == c && Fold(fold, query)[2..] == Fold(fold, f);
      }
    }
    if c == '%' {
      ShortestStep(AnyRun, ts.value, any);
      ShortestStep(Literal('\\'), [AnyRun] + ts.value, any);
      FoldConcat(fold, ['\\'], short);
    } else if c == '_' {
      ShortestStep(AnyOne, ts.value, any);
      ShortestStep(Literal('\\'), [AnyOne] + ts.value, any);
      FoldConcat(fold, [any], short);
      FoldConcat(fold, ['\\'], [any] + short);
      assert (['\\'] + ([any] + short))[1] == any != '_';
    } else {
      ShortestStep(Literal(c), ts.value, any);
      FoldConcat(fold, [c], short);
    }
  }

  lemma EscapeTail(c: char, s: string, tail: string)
    ensures Escape([c] + s) + tail == EscapeChar(c) + (Escape(s) + tail)
  {
    assert ([c] + s)[1..] == s;
  }

  lemma EscapedBackslash(c: char, s: string, tail: string)
    ensures var ts := Tokens(Escape(s) + tail);
            Tokens(Escape(['\\'] + ([c] + s)) + tail) ==
              if c == '%' then Prepend(Literal('\\'), Prepend(AnyRun, ts))
              else if c == '_' then Prepend(Literal('\\'), Prepend(AnyOne, ts))
              else Prepend(Literal(c), ts)
  {
    EscapeTail('\\', [c] + s, tail);
    EscapeTail(c, s, tail);
    EscapedPair(c, Escape(s) + tail);
  }

  lemma EscapedPair(c: char, rest: string)
    ensures Tokens(EscapeChar('\\') + (EscapeChar(c) + rest)) ==
              if c == '%' then Prepend(Literal('\\'), Prepend(AnyRun, Tokens(rest)))
              else if c == '_' then Prepend(Literal('\\'), Prepend(AnyOne, Tokens(rest)))
              else Prepend(Literal(c), Tokens(rest))
  {
    var p := EscapeChar('\\') + (EscapeChar(c) + rest);
    if c == '%' || c == '_' {
      assert p == ['\\', '\\'] + ([c] + rest);
      TokensStep(['\\', '\\'], [c] + rest);
      TokensStep([c], rest);
    } else {
      assert p == ['\\', c] + rest;
      TokensStep(['\\', c], rest);
    }
  }

  ghost predicate Fits(fold: char -> char, f: string) {
    ShortestFits(fold, f, Tokens(Escape(f) + "%"))
  }

  lemma PlainFits(fold: char -> char, c: char, s: string)
    requires Folding(fold) && c != '\\' && Fits(fold, s)
    ensures Fits(fold, [c] + s)
  {
    EscapeTail(c, s, "%");
    TokensStep(EscapeChar(c), Escape(s) + "%");
    FitsStep(fold, c, s, Tokens(Escape(s) + "%"));
  }

  lemma BackslashFits(fold: char -> char, c: char, s: string)
    requires Folding(fold) && Fits(fold, s)
    ensures Fits(fold, ['\\'] + ([c] + s))
  {
    EscapedBackslash(c, s, "%");
    FitsBackslash(fold, c, s, Tokens(Escape(s) + "%"));
  }

  /** What is left of the query at the closing '%': nothing, or a backslash that escapes it. */
  lemma TokensOfLast(fold: char -> char, f: string)
    requires Folding(fold) && (f == "" || f == "\\")
    ensures Fits(fold, f)
  {
    assert Special('%');
    if f == "" {
      assert Escape(f) + "%" == "%" + "";
      TokensStep("%", "");
      ShortestStep(AnyRun, [], fold('x'));
    } else {
      assert f[1..] == "";
      assert Escape(f) + "%" == "\\%" + "";
      TokensStep("\\%", "");
      ShortestStep(Literal('%'), [], fold('x'));
    }
  }

  /** Every search pattern is accepted by the database, and its shortest match is no longer than
      the query and, when the query has a backslash, another text than the query. */
  lemma {:induction false} ShortestOfEscaped(fold: char -> char, f: string)
    requires Folding(fold)
    ensures Fits(fold, f)
    decreases |f|
  {
    if |f| == 0 || (|f| == 1 && f[0] == '\\') {
      TokensOfLast(fold, f);
    } else if f[0] != '\\' {
      ShortestOfEscaped(fold, f[1..]);
      PlainFits(fold, f[0], f[1..]);
      assert f == [f[0]] + f[1..];
    } else {
      ShortestOfEscaped(fold, f[2..]);
      BackslashFits(fold, f[1], f[2..]);
      assert f == ['\\'] + ([f[1]] + f[2..]);
    }
  }

  // ---- the theorem ----

  lemma FoldedBackslash(fold: char -> char, query: string)
    requires Folding(fold)
    ensures '\\' in Fold(fold, query) <==> '\\' in query
  {
    assert Special('\\');
    if '\\' in query {
      var k :| 0 <= k < |query| && query[k] == '\\';
      assert Fold(fold, query)[k] == '\\';
    }
    if '\\' in Fold(fold, query) {
      var k :| 0 <= k < |query| && Fold(fold, query)[k] == '\\';
      assert Special(fold(query[k]));
      assert fold(fold(query[k])) == fold(query[k]);
      OnlySpecials(fold, query[k]);
    }
  }

  lemma OnlySpecials(fold: char -> char, c: char)
    requires Folding(fold) && Special(fold(c))
    ensures c == fold(c)
  {
  }

  /** Without a backslash in the query, the search finds exactly the texts that contain it. */
  lemma SearchFindsSubstring(fold: char -> char, query: string, text: string)
    requires Folding(fold) && '\\' !in query
    ensures ILike(fold, SearchPattern(query), text) <==> Contains(Fold(fold, text), Fold(fold, query))
  {
    var f, t := Fold(fold, query), Fold(fold, text);
    FoldPattern(fold, query);
    FoldedBackslash(fold, query);
    TokensOfEscaped(f);
    var p := SearchPattern(f);
    assert p[1..] == Escape(f) + "%";
    var ts := Literals(f) + [AnyRun];
    assert Tokens(p) == Some([AnyRun] + ts);
    AnyRunSearches(ts, t);
    forall i | 0 <= i <= |t| ensures Matches(ts, t[i..]) <==> f <= t[i..] {
      LiteralsMatchPrefix(f, t[i..]);
    }
  }

  /** A query with a backslash has a text that the pattern matches but that does not contain it. */
  lemma BackslashBreaksSearch(fold: char -> char, query: string) returns (text: string)
    requires Folding(fold) && '\\' in query
    ensures ILike(fold, SearchPattern(query), text) && !Contains(Fold(fold, text), Fold(fold, query))
  {
    var f, any := Fold(fold, query), fold('x');
    FoldedBackslash(fold, query);
    FoldPattern(fold, query);
    ShortestOfEscaped(fold, f);
    var ts := Tokens(Escape(f) + "%").value;
    TokensStep("%", Escape(f) + "%");
    assert SearchPattern(f) == "%" + (Escape(f) + "%");
    text := Shortest(ts, any);
    ShortestStep(AnyRun, ts, any);
    ShortestMatches([AnyRun] + ts, any);
    FoldOnce(fold, query);
    assert Tokens(Fold(fold, SearchPattern(query))) == Some([AnyRun] + ts);
    assert Fold(fold, text) == text == Shortest([AnyRun] + ts, any);
    hide Shortest;
    hide Tokens;
    hide Matches;
    ShorterDiffers(text, f);
  }

  lemma FoldOnce(fold: char -> char, s: string)
    requires Folding(fold)
    ensures Fold(fold, Fold(fold, s)) == Fold(fold, s)
  {
  }

  lemma ShorterDiffers(text: string, part: string)
    requires |text| <= |part| && text != part
    ensures !Contains(text, part)
  {
    assert text[0..] == text;
  }

  /** Exactly the queries without a backslash are searched for as written. */
  lemma SearchIsExactIffNoBackslash(fold: char -> char, query: string)
    requires Folding(fold)
    ensures (forall text :: ILike(fold, SearchPattern(query), text) <==> Contains(Fold(fold, text), Fold(fold, query)))
       <==> '\\' !in query
  {
    if '\\' in query {
      var text := BackslashBreaksSearch(fold, query);
    } else {
      forall text ensures ILike(fold, SearchPattern(query), text) <==> Contains(Fold(fold, text), Fold(fold, query)) {
        SearchFindsSubstring(fold, query, text);
      }
    }
  }

  /** ASCII lower case is one such folding. */
  function AsciiLower(c: char): char {
    if 'A' <= c <= 'Z' then (c as int + 32) as char else c
  }

  lemma AsciiFolds()
    ensures Folding(AsciiLower)
  {
  }
}
