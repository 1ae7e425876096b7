/** Slug generation: lower-case, replace every run of other characters by a dash, trim, collapse. */
module Slug {

  /** Lower case, as far as a slug can tell: besides A-Z only two letters have a lower case in
      [a-z0-9]; every other character keeps being replaced by a dash. */
  function LowerChar(c: char): char {
    if 'A' <= c <= 'Z' then c + 32 as char
    else if c == '\U{0130}' then 'i'
    else if c == '\U{212A}' then 'k'
    else c
  }

  function Lower(s: string): (r: string)
    ensures |r| == |s|
  {
    seq(|s|, i requires 0 <= i < |s| => LowerChar(s[i]))
  }

  predicate AlphaNum(c: char) { 'a' <= c <= 'z' || '0' <= c <= '9' }

  predicate OtherChar(c: char) { !AlphaNum(c) }

  predicate Dash(c: char) { c == '-' }

  predicate All(p: char -> bool, s: string) { forall i :: 0 <= i < |s| ==> p(s[i]) }

  predicate None(p: char -> bool, s: string) { forall i :: 0 <= i < |s| ==> !p(s[i]) }

  /** The length of the leading run of characters in a class. */
  function Run(p: char -> bool, s: string): (n: nat)
    ensures n <= |s| && (forall i :: 0 <= i < n ==> p(s[i])) && (n < |s| ==> !p(s[n]))
  {
    if s == [] || !p(s[0]) then 0 else Run(p, s[1..]) + 1
  }

  /** Replacing every maximal run of at least least characters of a class by one dash. */
  function ReplaceRuns(p: char -> bool, least: nat, s: string): string {
    if s == [] then []
    else
      var n := Run(p, s);
      if n == 0 then [s[0]] + ReplaceRuns(p, least, s[1..])
      else (if n >= least then ['-'] else s[..n]) + ReplaceRuns(p, least, s[n..])
  }

  function TrimLeft(s: string): string {
    if s != [] && s[0] == '-' then TrimLeft(s[1..]) else s
  }

  function TrimRight(s: string): string {
    if s != [] && s[|s| - 1] == '-' then TrimRight(s[..|s| - 1]) else s
  }

  function Stages(s: string): string {
    TrimRight(TrimLeft(ReplaceRuns(OtherChar, 1, Lower(s))))
  }

  function Make(s: string): string {
    ReplaceRuns(Dash, 2, Stages(s))
  }

  // ---- what a slug is ----

  /** The maximal runs of [a-z0-9], in order. */
  function Words(s: string): seq<string> {
    if s == [] then []
    else
      var n := Run(AlphaNum, s);
      if n > 0 then [s[..n]] + Words(s[n..]) else Words(s[1..])
  }

  function Join(words: seq<string>): string {
    if words == [] then []
    else if |words| == 1 then words[0]
    else words[0] + ['-'] + Join(words[1..])
  }

  predicate IsWord(w: string) { w != [] && All(AlphaNum, w) }

  predicate AreWords(words: seq<string>) { forall i :: 0 <= i < |words| ==> IsWord(words[i]) }

  predicate SlugChar(c: char) { AlphaNum(c) || Dash(c) }

  /** Only [a-z0-9] and dashes, no dash at either end, no two dashes in a row. */
  predicate Normal(s: string) {
    && All(SlugChar, s)
    && (s != [] ==> s[0] != '-' && s[|s| - 1] != '-')
    && Spread(s)
  }

  predicate Spread(s: string) { forall i :: 0 <= i < |s| - 1 ==> s[i] != '-' || s[i + 1] != '-' }

  lemma {:induction false} WordsAreWords(s: string)
    ensures AreWords(Words(s))
    decreases |s|
  {
    if s != [] {
      var n := Run(AlphaNum, s);
      WordsAreWords(if n > 0 then s[n..] else s[1..]);
    }
  }

  lemma {:induction false} RunOfPrefix(p: char -> bool, w: string, u: string)
    requires All(p, w) && (u == [] || !p(u[0]))
    ensures Run(p, w + u) == |w|
  {
    if w == [] {
      assert w + u == u;
    } else {
      assert (w + u)[1..] == w[1..] + u;
      RunOfPrefix(p, w[1..], u);
    }
  }

  lemma SplitAt(s: string, n: nat)
    requires n <= |s|
    ensures s == s[..n] + s[n..]
    ensures n < |s| ==> s == s[..n] + [s[n]] + s[n + 1..]
  {
  }

  // ---- the first stage, seen as words with dashes around them ----

  lemma {:induction false} CopiesOthers(p: char -> bool, least: nat, w: string, u: string)
    requires None(p, w)
    ensures ReplaceRuns(p, least, w + u) == w + ReplaceRuns(p, least, u)
  {
    if w == [] {
      assert w + u == u;
    } else {
      assert (w + u)[0] == w[0] && (w + u)[1..] == w[1..] + u;
      CopiesOthers(p, least, w[1..], u);
    }
  }

  lemma {:induction false} SkipOthers(s: string)
    ensures Words(s) == Words(s[Run(OtherChar, s)..])
  {
    if s == [] || !OtherChar(s[0]) {
      assert s[0..] == s;
    } else {
      SkipOthers(s[1..]);
      assert s[1..][Run(OtherChar, s[1..])..] == s[Run(OtherChar, s)..];
    }
  }

  function Lead(s: string): string { if s != [] && OtherChar(s[0]) then ['-'] else [] }

  function Trail(s: string): string {
    if s != [] && OtherChar(s[|s| - 1]) && Words(s) != [] then ['-'] else []
  }

  lemma {:induction false} FirstStage(s: string)
    ensures ReplaceRuns(OtherChar, 1, s) == Lead(s) + Join(Words(s)) + Trail(s)
    decreases |s|
  {
    if s != [] {
      if OtherChar(s[0]) {
        FirstStage(s[Run(OtherChar, s)..]);
        OthersFirst(s);
      } else {
        FirstStage(s[Run(AlphaNum, s)..]);
        WordFirst(s);
      }
    }
  }

  ghost predicate StageShape(s: string) { ReplaceRuns(OtherChar, 1, s) == Lead(s) + Join(Words(s)) + Trail(s) }

  lemma OthersEdges(s: string)
    requires s != [] && OtherChar(s[0])
    ensures var rest := s[Run(OtherChar, s)..];
      && Lead(s) == ['-'] && Lead(rest) == [] && Trail(s) == Trail(rest) && Words(s) == Words(rest)
  {
    var rest := s[Run(OtherChar, s)..];
    SkipOthers(s);
    if rest != [] { assert rest[|rest| - 1] == s[|s| - 1]; }
  }

  lemma OthersFirst(s: string)
    requires s != [] && OtherChar(s[0]) && StageShape(s[Run(OtherChar, s)..])
    ensures StageShape(s)
  {
    var rest := s[Run(OtherChar, s)..];
    assert ReplaceRuns(OtherChar, 1, s) == ['-'] + ReplaceRuns(OtherChar, 1, rest);
    OthersEdges(s);
    hide Run;
    hide ReplaceRuns;
    hide Words;
    hide Join;
    hide Lead;
    hide Trail;
    Regroup([], ['-'], Join(Words(rest)), Trail(rest));
  }

  lemma Regroup(w: string, d: string, j: string, t: string)
    ensures [] + (w + d + j) + t == w + (d + j + t)
    ensures [] + w + t == w + t
    ensures d + ([] + j + t) == d + j + t
    ensures w + (d + [] + []) == w + d
  {
  }

  lemma WordHead(s: string)
    requires s != [] && AlphaNum(s[0])
    ensures var n := Run(AlphaNum, s); var rest := s[n..];
      && n > 0 && Words(s) == [s[..n]] + Words(rest)
      && (rest == [] ==> AlphaNum(s[|s| - 1]))
      && (rest != [] ==> OtherChar(rest[0]) && rest[|rest| - 1] == s[|s| - 1])
      && (rest != [] && Words(rest) == [] ==> OtherChar(rest[|rest| - 1]))
  {
    var rest := s[Run(AlphaNum, s)..];
    if rest != [] && Words(rest) == [] { NoWords(rest); }
  }

  /** How a word in front of the rest joins: with a dash if another word follows. */
  lemma WordEdges(s: string)
    requires s != [] && AlphaNum(s[0])
    ensures var n := Run(AlphaNum, s); var rest := s[n..];
      && Lead(s) == [] && Words(s) == [s[..n]] + Words(rest)
      && (rest == [] ==> Trail(s) == [])
      && (rest != [] ==> Lead(rest) == ['-'])
      && (rest != [] && Words(rest) == [] ==> Trail(s) == ['-'] && Trail(rest) == [])
      && (rest != [] && Words(rest) != [] ==> Trail(s) == Trail(rest))
  {
    WordHead(s);
    hide Run;
    hide Words;
  }

  lemma WordCopied(s: string)
    requires s != [] && AlphaNum(s[0])
    ensures var n := Run(AlphaNum, s);
      ReplaceRuns(OtherChar, 1, s) == s[..n] + ReplaceRuns(OtherChar, 1, s[n..])
  {
    var n := Run(AlphaNum, s);
    assert None(OtherChar, s[..n]);
    hide *;
    CopiesOthers(OtherChar, 1, s[..n], s[n..]);
    SplitAt(s, n);
  }

  lemma WordFirst(s: string)
    requires s != [] && AlphaNum(s[0]) && StageShape(s[Run(AlphaNum, s)..])
    ensures StageShape(s)
  {
    var n := Run(AlphaNum, s);
    var w, rest := s[..n], s[n..];
    WordCopied(s);
    WordEdges(s);
    JoinWord(w, Words(rest));
    assert rest == [] ==> ReplaceRuns(OtherChar, 1, rest) == [] && Words(rest) == [];
    hide Run;
    hide ReplaceRuns;
    hide Words;
    hide Join;
    hide Lead;
    hide Trail;
    Regroup(w, ['-'], Join(Words(rest)), Trail(s));
    Regroup(w, [], [], []);
  }

  lemma JoinWord(w: string, words: seq<string>)
    ensures Join([w] + words) == if words == [] then w else w + ['-'] + Join(words)
    ensures words == [] ==> Join(words) == []
  {
    assert ([w] + words)[1..] == words;
  }

  lemma {:induction false} NoWords(s: string)
    requires Words(s) == []
    ensures All(OtherChar, s)
  {
    if s != [] {
      NoWords(s[1..]);
      assert forall i :: 1 <= i < |s| ==> s[i] == s[1..][i - 1];
    }
  }

  // ---- joined words are in normal form, and every normal form is joined words ----

  lemma WordThenNormal(w: string, rest: string)
    requires IsWord(w) && Normal(rest) && rest != []
    ensures Normal(w + ['-'] + rest)
  {
    var s := w + ['-'] + rest;
    assert s[0] == w[0] && s[|s| - 1] == rest[|rest| - 1];
    forall i | 0 <= i < |s|
      ensures SlugChar(s[i]) && (i < |s| - 1 ==> s[i] != '-' || s[i + 1] != '-')
    {
      if i < |w| {
        assert s[i] == w[i];
      } else if i > |w| {
        assert s[i] == rest[i - |w| - 1];
        assert i < |s| - 1 ==> s[i + 1] == rest[i - |w|];
      } else {
        assert s[i + 1] == rest[0];
      }
    }
  }

  lemma {:induction false} JoinIsNormal(words: seq<string>)
    requires AreWords(words)
    ensures Normal(Join(words)) && (words != [] <==> Join(words) != [])
  {
    if |words| == 1 {
      assert IsWord(words[0]);
    } else if |words| > 1 {
      JoinIsNormal(words[1..]);
      WordThenNormal(words[0], Join(words[1..]));
    }
  }

  lemma {:induction false} WordsOfJoin(words: seq<string>)
    requires AreWords(words)
    ensures Words(Join(words)) == words
  {
    if words != [] { assert IsWord(words[0]); }
    if |words| == 1 {
      RunOfPrefix(AlphaNum, words[0], []);
      assert words[0] + [] == words[0];
    } else if |words| > 1 {
      var tail := ['-'] + Join(words[1..]);
      assert Join(words) == words[0] + tail;
      RunOfPrefix(AlphaNum, words[0], tail);
      assert tail[1..] == Join(words[1..]);
      WordsOfJoin(words[1..]);
    }
  }

  lemma SuffixIsNormal(s: string, k: nat)
    requires Normal(s) && k < |s| && s[k] != '-'
    ensures Normal(s[k..])
  {
    var t := s[k..];
    assert t[|t| - 1] == s[|s| - 1];
    forall i | 0 <= i < |t|
      ensures SlugChar(t[i]) && (i < |t| - 1 ==> t[i] != '-' || t[i + 1] != '-')
    {
      assert t[i] == s[k + i] && (i < |t| - 1 ==> t[i + 1] == s[k + i + 1]);
    }
  }

  lemma WordsAtDash(s: string)
    requires s != [] && AlphaNum(s[0]) && Run(AlphaNum, s) < |s|
    ensures var n := Run(AlphaNum, s); Words(s) == [s[..n]] + Words(s[n + 1..])
  {
    var n := Run(AlphaNum, s);
    var rest := s[n..];
    assert Words(s) == [s[..n]] + Words(rest);
    assert rest[0] == s[n] && Run(AlphaNum, rest) == 0;
    assert rest[1..] == s[n + 1..];
  }

  lemma {:induction false} JoinOfWords(s: string)
    requires Normal(s)
    ensures Join(Words(s)) == s
    decreases |s|
  {
    if s != [] {
      assert SlugChar(s[0]);
      var n := Run(AlphaNum, s);
      if n == |s| {
        assert s[..n] == s && s[n..] == [];
        assert Words(s) == [s];
      } else {
        assert SlugChar(s[n]) && n > 0;
        assert s[n] == '-' && n < |s| - 1 && s[n + 1] != '-';
        WordsAtDash(s);
        SuffixIsNormal(s, n + 1);
        hide *;
        JoinOfWords(s[n + 1..]);
        JoinWord(s[..n], Words(s[n + 1..]));
        SplitAt(s, n);
      }
    }
  }

  // ---- the remaining stages ----

  lemma TrimKeepsNormal(lead: string, s: string, trail: string)
    requires lead == [] || lead == ['-']
    requires trail == [] || trail == ['-']
    requires s == [] ==> trail == []
    requires s != [] ==> s[0] != '-' && s[|s| - 1] != '-'
    ensures TrimRight(TrimLeft(lead + s + trail)) == s
  {
    var t := s + trail;
    if lead == [] {
      assert lead + s + trail == t;
    } else {
      assert (lead + s + trail)[1..] == t;
    }
    assert TrimLeft(lead + s + trail) == t;
    if trail != [] { assert t[..|t| - 1] == s; }
  }

  lemma {:induction false} CollapseKeepsSpread(s: string)
    requires Spread(s)
    ensures ReplaceRuns(Dash, 2, s) == s
    decreases |s|
  {
    if s != [] {
      var n := Run(Dash, s);
      assert n >= 2 ==> Dash(s[0]) && Dash(s[0 + 1]);
      CollapseKeepsSpread(s[1..]);
      assert s == [s[0]] + s[1..];
    }
  }

  /** The first three stages already give the maximal [a-z0-9] runs joined by single dashes... */
  lemma StagesJoinWords(s: string)
    ensures Stages(s) == Join(Words(Lower(s)))
  {
    var t := Lower(s);
    FirstStage(t);
    WordsAreWords(t);
    JoinIsNormal(Words(t));
    TrimKeepsNormal(Lead(t), Join(Words(t)), Trail(t));
  }

  /** ... so the dash-collapsing stage never changes anything. */
  lemma LastStageIsIdentity(s: string)
    ensures Make(s) == Stages(s)
  {
    StagesJoinWords(s);
    WordsAreWords(Lower(s));
    JoinIsNormal(Words(Lower(s)));
    CollapseKeepsSpread(Stages(s));
  }

  /** A slug is the maximal [a-z0-9] runs of the lower-cased input, joined by single dashes. */
  lemma MakeJoinsWords(s: string)
    ensures Make(s) == Join(Words(Lower(s))) && Normal(Make(s))
    ensures Words(Make(s)) == Words(Lower(s))
  {
    StagesJoinWords(s);
    LastStageIsIdentity(s);
    WordsAreWords(Lower(s));
    JoinIsNormal(Words(Lower(s)));
    WordsOfJoin(Words(Lower(s)));
  }

  /** The inputs left unchanged are exactly the strings in normal form. */
  lemma FixedExactlyWhenNormal(s: string)
    ensures Make(s) == s <==> Normal(s)
  {
    MakeJoinsWords(s);
    if Normal(s) {
      assert forall i :: 0 <= i < |s| ==> SlugChar(s[i]) && LowerChar(s[i]) == s[i];
      assert Lower(s) == s;
      JoinOfWords(s);
    }
  }

  lemma MakeIsIdempotent(s: string)
    ensures Make(Make(s)) == Make(s)
  {
    MakeJoinsWords(s);
    FixedExactlyWhenNormal(Make(s));
  }

  // ---- slugs of parts, and of upper case ----

  lemma WordInFront(w: string, u: string)
    requires IsWord(w) && (u == [] || !AlphaNum(u[0]))
    ensures Words(w + u) == [w] + Words(u)
  {
    RunOfPrefix(AlphaNum, w, u);
    assert (w + u)[|w|..] == u && (w + u)[..|w|] == w;
  }

  lemma OtherInFront(c: char, u: string)
    requires OtherChar(c)
    ensures Words([c] + u) == Words(u)
  {
    assert ([c] + u)[1..] == u;
  }

  /** What splitting a text in front of a character that is no letter or digit does to its words. */
  ghost predicate Splits(a: string, tail: string) {
    Words(a + tail) == Words(a) + Words(tail)
  }

  lemma Associate<T>(a: seq<T>, b: seq<T>, c: seq<T>)
    ensures a + (b + c) == (a + b) + c
  {
  }

  lemma WordSplits(w: string, rest: string, tail: string)
    requires IsWord(w) && (rest == [] || !AlphaNum(rest[0])) && tail != [] && !AlphaNum(tail[0])
    requires Splits(rest, tail)
    ensures Splits(w + rest, tail)
  {
    assert rest + tail != [] && !AlphaNum((rest + tail)[0]);
    WordInFront(w, rest + tail);
    WordInFront(w, rest);
    Associate(w, rest, tail);
    Associate([w], Words(rest), Words(tail));
    hide Words;
    hide AlphaNum;
    hide IsWord;
  }

  lemma OtherSplits(c: char, rest: string, tail: string)
    requires OtherChar(c) && Splits(rest, tail)
    ensures Splits([c] + rest, tail)
  {
    OtherInFront(c, rest + tail);
    OtherInFront(c, rest);
    hide *;
    assert ([c] + rest) + tail == [c] + (rest + tail);
  }

  lemma {:induction false} WordsSplit(a: string, tail: string)
    requires tail != [] && OtherChar(tail[0])
    ensures Splits(a, tail)
    decreases |a|
  {
    var n := Run(AlphaNum, a);
    if a == [] {
      assert a + tail == tail;
    } else if n > 0 {
      SplitAt(a, n);
      WordsSplit(a[n..], tail);
      WordSplits(a[..n], a[n..], tail);
    } else {
      assert a == [a[0]] + a[1..];
      WordsSplit(a[1..], tail);
      OtherSplits(a[0], a[1..], tail);
    }
  }

  /** A dash between two slugs, where neither is empty. */
  function Dashed(x: string, y: string): string {
    if x == [] then y else if y == [] then x else x + ['-'] + y
  }

  lemma DashedStep(w: string, x: string, y: string)
    ensures Dashed(w, Dashed(x, y)) == Dashed(Dashed(w, x), y)
  {
    if w != [] && x != [] && y != [] {
      var d := ['-'];
      assert w + d + (x + d + y) == (w + d + x) + d + y;
    }
  }

  lemma JoinFirst(w: string, words: seq<string>)
    requires IsWord(w) && AreWords(words)
    ensures Join([w] + words) == Dashed(w, Join(words))
  {
    JoinWord(w, words);
    JoinIsNormal(words);
  }

  lemma {:induction false} JoinSplit(x: seq<string>, y: seq<string>)
    requires AreWords(x) && AreWords(y)
    ensures Join(x + y) == Dashed(Join(x), Join(y))
  {
    if x == [] {
      assert x + y == y;
    } else {
      var w, rest := x[0], x[1..];
      JoinSplit(rest, y);
      JoinFirst(w, rest + y);
      JoinFirst(w, rest);
      hide Join;
      hide Dashed;
      assert x == [w] + rest && x + y == [w] + (rest + y);
      DashedStep(w, Join(rest), Join(y));
    }
  }

  lemma LowerSplits(a: string, c: char, b: string)
    ensures Lower(a + [c] + b) == Lower(a) + ([LowerChar(c)] + Lower(b))
  {
  }

  /** Any character that is neither a letter a-z nor a digit in lower case splits the input: the slug is
      that of what is before it and that of what is after it, with a dash in between if neither is empty. */
  lemma MakeSplits(a: string, c: char, b: string)
    requires OtherChar(LowerChar(c))
    ensures Make(a + [c] + b) == Dashed(Make(a), Make(b))
  {
    MakeJoinsWords(a);
    MakeJoinsWords(b);
    MakeJoinsWords(a + [c] + b);
    LowerSplits(a, c, b);
    WordsSplit(Lower(a), [LowerChar(c)] + Lower(b));
    OtherInFront(LowerChar(c), Lower(b));
    WordsAreWords(Lower(a));
    WordsAreWords(Lower(b));
    JoinSplit(Words(Lower(a)), Words(Lower(b)));
    hide Make;
    hide Lower;
    hide Words;
    hide Join;
    hide Dashed;
  }

  /** The same character, or the two cases of one letter. */
  predicate SameLetter(c: char, d: char) {
    || c == d
    || ('A' <= c <= 'Z' && 'a' <= d <= 'z' && d as int - c as int == 'a' as int - 'A' as int)
    || ('A' <= d <= 'Z' && 'a' <= c <= 'z' && c as int - d as int == 'a' as int - 'A' as int)
  }

  /** Texts that differ in the case of letters have one slug; with the fixed points this says what becomes
      of upper case. */
  lemma MakeIgnoresCase(s: string, t: string)
    requires |s| == |t| && forall i :: 0 <= i < |s| ==> SameLetter(s[i], t[i])
    ensures Make(s) == Make(t)
  {
    assert Lower(s) == Lower(t);
  }
}
