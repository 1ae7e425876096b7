/** How a policy rule becomes a row of casbin_rule and comes back as a line of policy text:
    the six value columns are padded with empty text when a rule is stored; on loading the
    columns are joined with ", ", trimmed on the right, and read as one CSV record, with leading
    space trimmed and quoted fields taken apart. */
module PolicyLine {
  import opened Prelude

  type Rule = seq<string>

  const COLUMNS := 6

  datatype RuleRow = RuleRow(ptype: string, v: seq<string>)

  datatype Policy = Policy(ptype: string, rule: Rule)

  // ---- storing ----

  function Pad(rule: Rule): (v: seq<string>)
    ensures |v| >= COLUMNS && rule <= v
    decreases COLUMNS - |rule|
  {
    if |rule| < COLUMNS then Pad(rule + [""]) else rule
  }

  function Store(p: Policy): RuleRow {
    RuleRow(p.ptype, Pad(p.rule))
  }

  // ---- loading ----

  function Join(fields: seq<string>): string {
    if fields == [] then ""
    else if |fields| == 1 then fields[0]
    else fields[0] + ("," + (" " + Join(fields[1..])))
  }

  predicate IsSpace(c: char) {
    c in {' ', '\t', '\n', '\r', '\U{000B}', '\U{000C}', '\U{0085}', '\U{00A0}', '\U{1680}', '\U{2028}', '\U{2029}',
          '\U{202F}', '\U{205F}', '\U{3000}'}
    || '\U{2000}' <= c <= '\U{200A}'
  }

  /** The cutset of the right trim is a comma and a blank. */
  predicate Cut(c: char) { c == ',' || c == ' ' }

  function TrimRight(s: string): (r: string)
    ensures r <= s
  {
    if s != [] && Cut(s[|s| - 1]) then TrimRight(s[..|s| - 1]) else s
  }

  /** Line ends as the CSV reader sees them: CR LF is LF, and a CR at the very end is dropped. */
  function Normalize(s: string): string {
    if s == [] || s == ['\r'] then []
    else if |s| >= 2 && s[0] == '\r' && s[1] == '\n' then ['\n'] + Normalize(s[2..])
    else [s[0]] + Normalize(s[1..])
  }

  /** Space at the start of a field, up to the end of the line. */
  function TrimLeading(s: string): (t: string)
    ensures |t| <= |s|
  {
    if s != [] && IsSpace(s[0]) && s[0] != '\n' then TrimLeading(s[1..]) else s
  }

  predicate EndsField(c: char) { c == ',' || c == '\n' }

  /** Up to the first comma or line end. */
  function Unquoted(s: string): (f: string)
    ensures f <= s
    ensures |f| < |s| ==> EndsField(s[|f|])
    ensures forall i :: 0 <= i < |f| ==> !EndsField(f[i])
  {
    if s == [] || EndsField(s[0]) then [] else [s[0]] + Unquoted(s[1..])
  }

  /** The fields of a record from here on; None for a quote where none may be. */
  function ReadFields(s: string): (r: Option<seq<string>>)
    ensures r.Some? ==> r.value != []
    decreases |s|
  {
    var t := TrimLeading(s);
    if t != [] && t[0] == '"' then ReadQuoted(t[1..])
    else
      var f := Unquoted(t);
      if '"' in f then None
      else if |f| < |t| && t[|f|] == ',' then NewField(f, ReadFields(t[|f| + 1..]))
      else Some([f])
  }

  /** The same from inside a quoted field; the first field is the rest of that one. */
  function ReadQuoted(s: string): (r: Option<seq<string>>)
    ensures r.Some? ==> r.value != []
    decreases |s|
  {
    if s == [] then None
    else if s[0] != '"' then Extend(s[0], ReadQuoted(s[1..]))
    else if |s| == 1 || s[1] == '\n' then Some([[]])
    else if s[1] == '"' then Extend('"', ReadQuoted(s[2..]))
    else if s[1] == ',' then NewField([], ReadFields(s[2..]))
    else None
  }

  function NewField(f: string, r: Option<seq<string>>): Option<seq<string>> {
    if r.None? then None else Some([f] + r.value)
  }

  function Extend(c: char, r: Option<seq<string>>): Option<seq<string>>
    requires r.Some? ==> r.value != []
  {
    if r.None? then None else Some([[c] + r.value[0]] + r.value[1..])
  }

  function AfterLine(s: string): (r: string)
    ensures |r| <= |s| && (s != [] ==> |r| < |s|)
  {
    if s == [] then [] else if s[0] == '\n' then s[1..] else AfterLine(s[1..])
  }

  /** The first record, after empty lines and comment lines. */
  function ReadRecord(s: string): (r: Option<seq<string>>)
    ensures r.Some? ==> r.value != []
    decreases |s|
  {
    if s == [] then None
    else if s[0] == '\n' then ReadRecord(s[1..])
    else if s[0] == '#' then ReadRecord(AfterLine(s))
    else ReadFields(s)
  }

  /** What becomes of one row: a line that is empty or a comment is skipped; a line that does not read
      as a record, or whose policy the model does not accept, fails the whole load. */
  datatype Loading = Skipped | Loaded(policy: Policy) | Refused

  function LineText(r: RuleRow): string { TrimRight(Join([r.ptype] + r.v)) }

  function LoadRow(accepts: Policy -> bool, r: RuleRow): Loading {
    var line := LineText(r);
    if line == [] || line[0] == '#' then Skipped
    else
      var tokens := ReadRecord(Normalize(line));
      if tokens.None? then Refused
      else
        var p := Policy(tokens.value[0], tokens.value[1..]);
        if accepts(p) then Loaded(p) else Refused
  }

  predicate ComesBack(accepts: Policy -> bool, p: Policy) {
    LoadRow(accepts, Store(p)) == Loaded(p)
  }

  // ---- which rules come back ----

  predicate PlainField(f: string) {
    ',' !in f && '"' !in f && '\n' !in f && (f != [] ==> !IsSpace(f[0]))
  }

  predicate EndsSolid(f: string) {
    f != [] && f[|f| - 1] != ' ' && f[|f| - 1] != '\r'
  }

  /** A rule the table gives back as it was stored. */
  predicate Storable(rule: Rule) {
    && (forall i :: 0 <= i < |rule| ==> PlainField(rule[i]))
    && (rule != [] ==> EndsSolid(rule[|rule| - 1]))
  }

  /** The kinds of policy ("p", "g") a model declares. */
  predicate PolicyType(ptype: string) {
    PlainField(ptype) && EndsSolid(ptype) && ptype[0] != '#'
  }

  function Fields(p: Policy): (f: seq<string>)
    ensures f != []
  {
    [p.ptype] + p.rule
  }

  // ---- joining and trimming ----

  lemma {:induction false} JoinAppend(fields: seq<string>, last: string)
    requires fields != []
    ensures Join(fields + [last]) == Join(fields) + ("," + (" " + last))
  {
    var all := fields + [last];
    assert all[1..] == fields[1..] + [last];
    if |fields| > 1 {
      JoinAppend(fields[1..], last);
      Regroup(fields[0], Join(fields[1..]), "," + (" " + last));
    } else {
      assert all[1..] == [last];
    }
  }

  lemma Regroup(a: string, b: string, c: string)
    ensures a + ("," + (" " + (b + c))) == a + ("," + (" " + b)) + c
  {
  }

  lemma Associate(a: string, b: string, c: string)
    ensures a + (b + c) == (a + b) + c
  {
  }

  lemma TrimRightAppend(s: string)
    ensures TrimRight(s + ("," + (" " + ""))) == TrimRight(s)
  {
    var t := s + ("," + (" " + ""));
    assert t[..|t| - 1] == s + ",";
    assert (s + ",")[..|s|] == s;
  }

  /** Padding is invisible: the empty columns are trimmed away again. */
  lemma {:induction false} PadIsTrimmed(ptype: string, rule: Rule)
    ensures TrimRight(Join([ptype] + Pad(rule))) == TrimRight(Join([ptype] + rule))
    decreases COLUMNS - |rule|
  {
    if |rule| < COLUMNS {
      PadIsTrimmed(ptype, rule + [""]);
      JoinAppend([ptype] + rule, "");
      assert [ptype] + (rule + [""]) == ([ptype] + rule) + [""];
      TrimRightAppend(Join([ptype] + rule));
    }
  }

  lemma {:induction false} JoinEndsLikeLast(fields: seq<string>)
    requires fields != [] && Last(fields) != []
    ensures Join(fields) != [] && Join(fields)[|Join(fields)| - 1] == Last(fields)[|Last(fields)| - 1]
  {
    if |fields| > 1 {
      JoinEndsLikeLast(fields[1..]);
    }
  }

  function Last(fields: seq<string>): string
    requires fields != []
  {
    fields[|fields| - 1]
  }

  /** Joining more fields appends text that is empty or starts with a comma. */
  lemma {:induction false} JoinFrom(head: seq<string>, rest: seq<string>) returns (tail: string)
    requires head != []
    ensures Join(head + rest) == Join(head) + tail
    ensures tail != [] ==> tail[0] == ','
    decreases |rest|
  {
    if rest == [] {
      tail := "";
      assert head + rest == head;
    } else {
      var x, more := rest[0], rest[1..];
      assert head + rest == (head + [x]) + more;
      var after := JoinFrom(head + [x], more);
      JoinAppend(head, x);
      tail := ("," + (" " + x)) + after;
      Associate(Join(head), "," + (" " + x), after);
    }
  }

  /** The right trim never eats into text that ends solidly. */
  lemma {:induction false} TrimKeepsSolid(s: string, tail: string) returns (cut: string)
    requires s != [] && !Cut(s[|s| - 1])
    ensures TrimRight(s + tail) == s + cut
    ensures cut <= tail
    decreases |tail|
  {
    if tail != [] && Cut(tail[|tail| - 1]) {
      assert (s + tail)[..|s + tail| - 1] == s + tail[..|tail| - 1];
      cut := TrimKeepsSolid(s, tail[..|tail| - 1]);
    } else {
      cut := tail;
      assert tail == [] ==> s + tail == s;
    }
  }

  lemma {:induction false} TrimRightFacts(s: string)
    ensures TrimRight(s) != [] ==> !Cut(TrimRight(s)[|TrimRight(s)| - 1])
  {
    if s != [] && Cut(s[|s| - 1]) {
      TrimRightFacts(s[..|s| - 1]);
    }
  }

  lemma {:induction false} NormalizeConcat(a: string, b: string)
    requires '\r' !in a
    ensures Normalize(a + b) == a + Normalize(b)
  {
    if a == [] {
      assert a + b == b;
    } else {
      assert (a + b)[1..] == a[1..] + b;
      NormalizeConcat(a[1..], b);
    }
  }

  lemma {:induction false} NormalizeKeeps(s: string)
    requires '\n' !in s && (s != [] ==> s[|s| - 1] != '\r')
    ensures Normalize(s) == s
  {
    if s != [] {
      NormalizeKeeps(s[1..]);
      assert s == [s[0]] + s[1..];
    }
  }

  // ---- storable rules are read back ----

  lemma {:induction false} UnquotedOf(f: string, rest: string)
    requires ',' !in f && '\n' !in f
    ensures Unquoted(f) == f && Unquoted(f + ("," + rest)) == f
  {
    if f != [] {
      UnquotedOf(f[1..], rest);
      assert (f + ("," + rest))[1..] == f[1..] + ("," + rest);
    }
  }

  lemma ReadPlain(f: string, rest: string)
    requires PlainField(f)
    ensures ReadFields(f) == Some([f])
    ensures ReadFields(f + ("," + rest)) == NewField(f, ReadFields(rest))
  {
    UnquotedOf(f, rest);
    var s := f + ("," + rest);
    assert TrimLeading(s) == s && TrimLeading(f) == f;
    assert s[|f| + 1..] == rest && s[|f|] == ',';
    assert s[0] != '"';
  }

  lemma LeadingBlank(s: string)
    ensures ReadFields(" " + s) == ReadFields(s)
  {
    assert (" " + s)[1..] == s;
    assert TrimLeading(" " + s) == TrimLeading(s);
  }

  lemma {:induction false} ReadJoined(fields: seq<string>)
    requires fields != []
    requires forall i :: 0 <= i < |fields| ==> PlainField(fields[i])
    ensures ReadFields(Join(fields)) == Some(fields)
  {
    var f := fields[0];
    assert PlainField(f);
    var rest := " " + Join(fields[1..]);
    ReadPlain(f, rest);
    if |fields| > 1 {
      ReadJoined(fields[1..]);
      LeadingBlank(Join(fields[1..]));
      assert Join(fields) == f + ("," + rest) && fields == [f] + fields[1..];
    } else {
      assert fields == [f];
    }
  }

  lemma {:induction false} JoinHasNoBreak(fields: seq<string>)
    requires forall i :: 0 <= i < |fields| ==> '\n' !in fields[i]
    ensures '\n' !in Join(fields)
  {
    if |fields| > 1 { JoinHasNoBreak(fields[1..]); }
  }

  /** The text of a stored policy starts with its type, so it is one record and no comment. */
  lemma LineStarts(p: Policy)
    requires PolicyType(p.ptype)
    ensures LineText(Store(p)) == TrimRight(Join(Fields(p)))
    ensures var t := LineText(Store(p)); t != [] && t[0] == p.ptype[0] && t[0] != '#' && t[0] != '\n' && t[0] != '\r'
    ensures var n := Normalize(LineText(Store(p))); n != [] && ReadRecord(n) == ReadFields(n)
  {
    PadIsTrimmed(p.ptype, p.rule);
    var tail := JoinFrom([p.ptype], p.rule);
    assert p.ptype[0] in p.ptype && p.ptype[|p.ptype| - 1] in p.ptype;
    var cut := TrimKeepsSolid(p.ptype, tail);
    assert Join([p.ptype]) == p.ptype;
    assert (p.ptype + cut)[0] == p.ptype[0];
  }

  ghost predicate AllPlain(fields: seq<string>) {
    forall i :: 0 <= i < |fields| ==> PlainField(fields[i])
  }

  /** Joined plain fields with a solid end are read as they were. */
  lemma ReadStorable(fields: seq<string>)
    requires fields != [] && AllPlain(fields) && EndsSolid(Last(fields))
    ensures TrimRight(Join(fields)) == Join(fields)
    ensures ReadFields(Normalize(Join(fields))) == Some(fields)
  {
    JoinEndsLikeLast(fields);
    assert PlainField(Last(fields)) && Last(fields)[|Last(fields)| - 1] in Last(fields);
    JoinHasNoBreak(fields);
    NormalizeKeeps(Join(fields));
    ReadJoined(fields);
  }

  lemma StorableFields(p: Policy)
    requires PolicyType(p.ptype) && Storable(p.rule)
    ensures AllPlain(Fields(p)) && EndsSolid(Last(Fields(p)))
  {
  }

  /** A storable rule comes back; interior empty fields survive. */
  lemma StorableComesBack(accepts: Policy -> bool, p: Policy)
    requires PolicyType(p.ptype) && Storable(p.rule) && accepts(p)
    ensures ComesBack(accepts, p)
  {
    LineStarts(p);
    StorableFields(p);
    ReadStorable(Fields(p));
    hide Join;
    hide TrimRight;
    hide Normalize;
    hide Storable;
    hide PolicyType;
    hide ReadRecord;
    assert Fields(p)[1..] == p.rule;
  }

  // ---- what reading does to text without quotes, and to quotes ----

  function Count(c: char, s: string): nat {
    if s == [] then 0 else (if s[0] == c then 1 else 0) + Count(c, s[1..])
  }

  lemma {:induction false} CountConcat(c: char, a: string, b: string)
    ensures Count(c, a + b) == Count(c, a) + Count(c, b)
  {
    if a == [] {
      assert a + b == b;
    } else {
      CountConcat(c, a[1..], b);
      assert (a + b)[1..] == a[1..] + b;
    }
  }

  lemma {:induction false} CountNone(c: char, s: string)
    ensures Count(c, s) == 0 <==> c !in s
  {
    if s != [] { CountNone(c, s[1..]); }
  }

  function CountAll(c: char, fields: seq<string>): nat {
    if fields == [] then 0 else Count(c, fields[0]) + CountAll(c, fields[1..])
  }

  lemma {:induction false} CountJoin(fields: seq<string>)
    ensures Count('"', Join(fields)) == CountAll('"', fields)
  {
    if |fields| == 1 {
      assert fields[1..] == [];
    } else if |fields| > 1 {
      var rest := Join(fields[1..]);
      CountJoin(fields[1..]);
      CountConcat('"', fields[0], "," + (" " + rest));
      CountConcat('"', ",", " " + rest);
      CountConcat('"', " ", rest);
      CountNone('"', ",");
      CountNone('"', " ");
    }
  }

  lemma {:induction false} CountTrimRight(s: string)
    ensures Count('"', TrimRight(s)) == Count('"', s)
  {
    if s != [] && Cut(s[|s| - 1]) {
      var n := |s| - 1;
      CountTrimRight(s[..n]);
      CountConcat('"', s[..n], [s[n]]);
      CountNone('"', [s[n]]);
      assert s == s[..n] + [s[n]];
    }
  }

  lemma {:induction false} CountNormalize(s: string)
    ensures Count('"', Normalize(s)) == Count('"', s)
    decreases |s|
  {
    if s == [] || s == ['\r'] {
      CountNone('"', s);
    } else if |s| >= 2 && s[0] == '\r' && s[1] == '\n' {
      CountNormalize(s[2..]);
      assert s[1..][1..] == s[2..];
      assert (['\n'] + Normalize(s[2..]))[1..] == Normalize(s[2..]);
    } else {
      CountNormalize(s[1..]);
      assert ([s[0]] + Normalize(s[1..]))[1..] == Normalize(s[1..]);
    }
  }

  lemma {:induction false} CountTrimLeading(s: string)
    ensures Count('"', TrimLeading(s)) == Count('"', s)
  {
    if s != [] && IsSpace(s[0]) && s[0] != '\n' { CountTrimLeading(s[1..]); }
  }

  /** Reading uses up quotes: what was read has fewer than the text, unless that had none. */
  lemma {:induction false} ReadingShrinksQuotes(s: string)
    ensures ReadFields(s).Some? ==>
      CountAll('"', ReadFields(s).value) < Count('"', s) || CountAll('"', ReadFields(s).value) == Count('"', s) == 0
    decreases |s|, 1
  {
    var t := TrimLeading(s);
    CountTrimLeading(s);
    if ReadFields(s).Some? {
      if t != [] && t[0] == '"' {
        QuotedShrinksQuotes(t[1..]);
      } else {
        var f := Unquoted(t);
        CountNone('"', f);
        if |f| < |t| && t[|f|] == ',' {
          var rest := t[|f| + 1..];
          ReadingShrinksQuotes(rest);
          assert t == f + ([','] + rest);
          CountConcat('"', f, [','] + rest);
          CountConcat('"', [','], rest);
          CountNone('"', [',']);
          CountNewField('"', f, ReadFields(rest).value);
        } else {
          CountNewField('"', f, []);
          assert [f] + [] == [f];
        }
      }
    }
  }

  lemma CountNewField(c: char, f: string, g: seq<string>)
    ensures CountAll(c, [f] + g) == Count(c, f) + CountAll(c, g)
  {
    assert ([f] + g)[1..] == g;
  }

  lemma CountExtend(c: char, g: seq<string>)
    requires g != []
    ensures CountAll('"', [[c] + g[0]] + g[1..]) == (if c == '"' then 1 else 0) + CountAll('"', g)
  {
    CountNewField('"', [c] + g[0], g[1..]);
    assert ([c] + g[0])[1..] == g[0];
  }

  lemma {:induction false} QuotedShrinksQuotes(s: string)
    ensures ReadQuoted(s).Some? ==> CountAll('"', ReadQuoted(s).value) < Count('"', s)
    decreases |s|, 0
  {
    if ReadQuoted(s).Some? {
      if s[0] != '"' {
        QuotedShrinksQuotes(s[1..]);
        CountExtend(s[0], ReadQuoted(s[1..]).value);
      } else if |s| == 1 || s[1] == '\n' {
        var closed: seq<string> := [[]];
        assert closed[1..] == [];
      } else if s[1] == '"' {
        QuotedShrinksQuotes(s[2..]);
        CountExtend('"', ReadQuoted(s[2..]).value);
        assert s[1..][1..] == s[2..];
      } else {
        ReadingShrinksQuotes(s[2..]);
        CountNewField('"', [], ReadFields(s[2..]).value);
        assert s[1..][1..] == s[2..];
      }
    }
  }

  // ---- how much text a record without quotes needs ----

  /** How many commas are followed by a blank. */
  function CommaBlanks(s: string): nat {
    if |s| < 2 then 0 else (if s[0] == ',' && s[1] == ' ' then 1 else 0) + CommaBlanks(s[1..])
  }

  function Weight(fields: seq<string>): nat {
    if fields == [] then 0 else |fields[0]| + 1 + Weight(fields[1..])
  }

  predicate Blank(s: string) { s != [] && s[0] == ' ' }

  lemma {:induction false} CommaBlanksConcat(a: string, b: string)
    ensures CommaBlanks(a + b) ==
      CommaBlanks(a) + CommaBlanks(b) + if a != [] && a[|a| - 1] == ',' && Blank(b) then 1 else 0
  {
    if a == [] {
      assert a + b == b;
    } else {
      assert (a + b)[1..] == a[1..] + b;
      CommaBlanksConcat(a[1..], b);
    }
  }

  lemma {:induction false} CommaBlanksNone(s: string)
    requires ',' !in s
    ensures CommaBlanks(s) == 0
  {
    if s != [] { CommaBlanksNone(s[1..]); }
  }

  lemma {:induction false} CommaBlanksFew(s: string)
    ensures CommaBlanks(s) <= |s|
  {
    if s != [] { CommaBlanksFew(s[1..]); }
  }

  lemma {:induction false} JoinWeight(fields: seq<string>)
    requires fields != []
    ensures |Join(fields)| - CommaBlanks(Join(fields)) <= Weight(fields) - 1
  {
    if |fields| == 1 {
      assert Weight(fields[1..]) == 0;
    } else {
      var rest := Join(fields[1..]);
      JoinWeight(fields[1..]);
      CommaBlanksConcat(fields[0], "," + (" " + rest));
      CommaBlanksConcat(",", " " + rest);
      CommaBlanksConcat(" ", rest);
    }
  }

  lemma {:induction false} TrimWeight(s: string)
    ensures |TrimRight(s)| - CommaBlanks(TrimRight(s)) <= |s| - CommaBlanks(s)
  {
    if s != [] && Cut(s[|s| - 1]) {
      var n := |s| - 1;
      TrimWeight(s[..n]);
      assert s == s[..n] + [s[n]];
      CommaBlanksConcat(s[..n], [s[n]]);
    }
  }

  lemma {:induction false} NormalizeWeight(s: string)
    ensures var t := Normalize(s); |t| - CommaBlanks(t) <= |s| - CommaBlanks(s) && |t| <= |s| && (|t| == |s| ==> t == s)
    ensures var t := Normalize(s); |t| - CommaBlanks(t) == |s| - CommaBlanks(s) ==> t == s
    ensures Blank(Normalize(s)) <==> Blank(s)
    decreases |s|
  {
    if s == [] || s == ['\r'] {
    } else if |s| >= 2 && s[0] == '\r' && s[1] == '\n' {
      var rest := Normalize(s[2..]);
      NormalizeWeight(s[2..]);
      assert s[1..][1..] == s[2..];
      CommaBlanksConcat(['\n'], rest);
      CommaBlanksConcat(['\r', '\n'], s[2..]);
      assert s == ['\r', '\n'] + s[2..];
    } else {
      var rest := Normalize(s[1..]);
      NormalizeWeight(s[1..]);
      CommaBlanksConcat([s[0]], rest);
      CommaBlanksConcat([s[0]], s[1..]);
      assert s == [s[0]] + s[1..];
    }
  }

  lemma {:induction false} TrimLeadingSplit(s: string) returns (space: string)
    ensures s == space + TrimLeading(s) && ',' !in space && '\n' !in space
    ensures Blank(s) ==> space != []
    ensures var t := TrimLeading(s); t != [] ==> !IsSpace(t[0]) || t[0] == '\n'
    ensures TrimLeading(s) == [] && |space| == 1 && Blank(s) ==> s == [' ']
  {
    space := [];
    if s != [] && IsSpace(s[0]) && s[0] != '\n' {
      var more := TrimLeadingSplit(s[1..]);
      space := [s[0]] + more;
      assert s == [s[0]] + s[1..];
    }
  }

  /** A record that used all of the text: nothing but the separators and their blanks was lost. */
  predicate Tight(fields: seq<string>, s: string) {
    Weight(fields) + CommaBlanks(s) + (if Blank(s) then 1 else 0) == |s| + 1
  }

  /** What reading text without quotes gives. */
  ghost predicate ReadsPlainly(g: seq<string>, s: string) {
    && g != []
    && (forall i :: 0 <= i < |g| ==> PlainField(g[i]))
    && Weight(g) + CommaBlanks(s) + (if Blank(s) then 1 else 0) <= |s| + 1
    && (Tight(g, s) ==> if Last(g) == [] then s == [] || Cut(s[|s| - 1])
                        else s != [] && Last(g)[|Last(g)| - 1] == s[|s| - 1])
  }

  /** One more field in front of a comma. */
  lemma ReadsOneMore(space: string, f: string, rest: string, g: seq<string>)
    requires PlainField(f) && ',' !in space && ReadsPlainly(g, rest)
    ensures var s := space + (f + ([','] + rest)); (Blank(s) ==> space != []) ==> ReadsPlainly([f] + g, s)
  {
    var s := space + (f + ([','] + rest));
    assert ([f] + g)[1..] == g && Last([f] + g) == Last(g);
    CommaBlanksConcat(space, f + ([','] + rest));
    CommaBlanksConcat(f, [','] + rest);
    CommaBlanksConcat([','], rest);
    CommaBlanksNone(space);
    CommaBlanksNone(f);
    assert space != [] ==> space[|space| - 1] in space;
    assert f != [] ==> f[|f| - 1] in f;
    assert s[|s| - 1] == if rest == [] then ',' else rest[|rest| - 1];
  }

  /** The last field, at the end of the text or of its line. */
  lemma ReadsLast(space: string, f: string, tail: string)
    requires PlainField(f) && ',' !in space && (tail != [] ==> tail[0] == '\n')
    ensures var s := space + (f + tail);
      (Blank(s) ==> space != []) && (f + tail == [] && |space| == 1 && Blank(s) ==> s == [' ']) ==> ReadsPlainly([f], s)
  {
    var s := space + (f + tail);
    assert Weight([f]) == |f| + 1 by { assert [f][1..] == []; }
    CommaBlanksConcat(space, f + tail);
    CommaBlanksConcat(f, tail);
    CommaBlanksNone(space);
    CommaBlanksNone(f);
    assert space != [] ==> space[|space| - 1] in space;
    assert f != [] ==> f[|f| - 1] in f;
    if tail != [] {
      CommaBlanksFew(tail[1..]);
    }
  }

  lemma UnquotedSplit(t: string) returns (more: string)
    ensures t == Unquoted(t) + more && (more != [] ==> EndsField(more[0]))
    ensures '"' !in t ==> '"' !in Unquoted(t) && '"' !in more
    ensures ',' !in Unquoted(t) && '\n' !in Unquoted(t)
    ensures Unquoted(t) != [] ==> Unquoted(t)[0] == t[0] && t[0] != '\n'
  {
    more := t[|Unquoted(t)|..];
  }

  /** The first field of text without quotes, and what follows it. */
  lemma SplitField(s: string) returns (space: string, f: string, more: string)
    requires '"' !in s
    ensures s == space + (f + more) && TrimLeading(s) == f + more && f == Unquoted(TrimLeading(s))
    ensures PlainField(f) && ',' !in space && '\n' !in space && '"' !in more && (more != [] ==> EndsField(more[0]))
    ensures (Blank(s) ==> space != []) && (f + more == [] && |space| == 1 && Blank(s) ==> s == [' '])
  {
    space := TrimLeadingSplit(s);
    var t := TrimLeading(s);
    hide TrimLeading;
    hide Unquoted;
    assert '"' !in t by { InSuffix('"', space, t); }
    f := Unquoted(t);
    more := UnquotedSplit(t);
  }

  lemma InSuffix(c: char, a: string, b: string)
    ensures c in b ==> c in a + b
  {
    assert forall i :: 0 <= i < |b| ==> (a + b)[|a| + i] == b[i];
  }

  /** How text without quotes is read: a field, and after a comma the rest. */
  lemma ReadSplit(s: string) returns (space: string, f: string, more: string)
    requires '"' !in s
    ensures s == space + (f + more) && |more| <= |s|
    ensures PlainField(f) && ',' !in space && '\n' !in space && '"' !in more && (more != [] ==> EndsField(more[0]))
    ensures (Blank(s) ==> space != []) && (f + more == [] && |space| == 1 && Blank(s) ==> s == [' '])
    ensures ReadFields(s) == if more != [] && more[0] == ',' then NewField(f, ReadFields(more[1..])) else Some([f])
  {
    space, f, more := SplitField(s);
    var t := TrimLeading(s);
    assert t != [] ==> t[0] in s;
    assert '"' !in f;
    hide TrimLeading;
    hide Unquoted;
    if more != [] {
      assert t[|f|] == more[0] && t[|f| + 1..] == more[1..];
    }
  }

  lemma {:induction false} ReadWeight(s: string)
    requires '"' !in s
    ensures ReadFields(s).Some? && ReadsPlainly(ReadFields(s).value, s)
    decreases |s|
  {
    var space, f, more := ReadSplit(s);
    hide ReadFields;
    hide ReadsPlainly;
    if more != [] && more[0] == ',' {
      var rest := more[1..];
      ReadWeight(rest);
      assert more == [','] + rest;
      ReadsOneMore(space, f, rest, ReadFields(rest).value);
    } else {
      ReadsLast(space, f, more);
    }
  }

  // ---- exactly the storable rules come back ----

  function Quotes(p: Policy): nat { CountAll('"', Fields(p)) }

  function Size(p: Policy): nat { Weight(Fields(p)) }

  /** Fewer quotes, or as many and less text. */
  predicate Before(a: Policy, b: Policy) {
    Quotes(a) < Quotes(b) || (Quotes(a) == Quotes(b) && Size(a) < Size(b))
  }

  lemma QuoteFreeShrinks(fields: seq<string>)
    requires fields != [] && CountAll('"', fields) == 0 && TrimRight(Join(fields)) != []
    ensures var r := ReadFields(Normalize(TrimRight(Join(fields))));
      && r.Some? && AllPlain(r.value)
      && (EndsSolid(Last(r.value)) || Weight(r.value) < Weight(fields))
  {
    var j := Join(fields);
    var t := TrimRight(j);
    var n := Normalize(t);
    CountJoin(fields);
    CountTrimRight(j);
    CountNormalize(t);
    CountNone('"', n);
    JoinWeight(fields);
    TrimWeight(j);
    TrimRightFacts(j);
    NormalizeWeight(t);
    ReadWeight(n);
    if t[|t| - 1] == '\r' { CarriageReturnIsDropped(t); }
    hide Join;
    hide TrimRight;
    hide Normalize;
    hide ReadFields;
    hide CountAll;
    hide Count;
    hide Weight;
    hide CommaBlanks;
  }

  lemma {:induction false} CarriageReturnIsDropped(s: string)
    requires s != [] && s[|s| - 1] == '\r'
    ensures |Normalize(s)| < |s|
    decreases |s|
  {
    if s != ['\r'] {
      if |s| >= 2 && s[0] == '\r' && s[1] == '\n' {
        if |s| > 2 { CarriageReturnIsDropped(s[2..]); }
      } else {
        CarriageReturnIsDropped(s[1..]);
      }
    }
  }

  /** A policy that is read back is storable, or it is smaller than the one that was stored. */
  lemma ReadBackShrinks(accepts: Policy -> bool, p: Policy, g: Policy)
    requires PolicyType(p.ptype) && LoadRow(accepts, Store(p)) == Loaded(g)
    ensures Storable(g.rule) || Before(g, p)
  {
    LineStarts(p);
    var fields := Fields(p);
    var t := LineText(Store(p));
    var n := Normalize(t);
    var tokens := ReadFields(n).value;
    assert tokens == [tokens[0]] + tokens[1..] == Fields(g);
    CountJoin(fields);
    CountTrimRight(Join(fields));
    CountNormalize(t);
    ReadingShrinksQuotes(n);
    if CountAll('"', fields) == 0 {
      QuoteFreeShrinks(fields);
      PlainRule(g);
    }
  }

  lemma PlainRule(g: Policy)
    requires AllPlain(Fields(g))
    ensures Storable(g.rule) <== EndsSolid(Last(Fields(g)))
  {
    assert forall i :: 0 <= i < |g.rule| ==> g.rule[i] == Fields(g)[i + 1];
    assert g.rule != [] ==> Last(Fields(g)) == Last(g.rule);
  }

  lemma {:induction false} Largest(s: set<Policy>) returns (m: Policy)
    requires s != {}
    ensures m in s && forall p :: p in s ==> !Before(m, p)
    decreases s
  {
    hide Quotes;
    hide Size;
    m :| m in s;
    var first, others := m, s - {m};
    if others != {} {
      var k := Largest(others);
      if Before(m, k) { m := k; }
    }
    forall p | p in s ensures !Before(m, p) {
      assert p == first || p in others;
    }
  }

  /** Policies that are all read back from one another are all storable: reading never goes round in
      circles, however quotes, commas and line breaks are mixed. */
  lemma NoCircles(accepts: Policy -> bool, s: set<Policy>)
    requires forall p :: p in s ==> PolicyType(p.ptype) && accepts(p)
    requires forall p :: p in s ==> exists q :: q in s && LoadRow(accepts, Store(q)) == Loaded(p)
    ensures forall p :: p in s ==> Storable(p.rule)
  {
    hide *;
    var bad := set p | p in s && !Storable(p.rule);
    if bad != {} {
      var m := Largest(bad);
      var q :| q in s && LoadRow(accepts, Store(q)) == Loaded(m);
      ReadBackShrinks(accepts, q, m);
      if Storable(q.rule) { ReadsItself(accepts, q, m); }
      assert false;
    }
    forall p | p in s ensures Storable(p.rule) {
      assert p !in bad;
    }
  }

  lemma ReadsItself(accepts: Policy -> bool, q: Policy, m: Policy)
    requires PolicyType(q.ptype) && accepts(q) && Storable(q.rule) && LoadRow(accepts, Store(q)) == Loaded(m)
    ensures q == m
  {
    StorableComesBack(accepts, q);
  }

  lemma OnlyStorableComesBack(accepts: Policy -> bool, p: Policy)
    requires PolicyType(p.ptype) && ComesBack(accepts, p)
    ensures Storable(p.rule)
  {
    ReadBackShrinks(accepts, p, p);
  }

  /** Exactly the storable rules survive the table: no field may contain a comma, a quote or a line
      break or start with white space, and the last field must be non-empty and end neither in a blank
      nor in a carriage return. */
  lemma ComesBackIffStorable(accepts: Policy -> bool, p: Policy)
    requires PolicyType(p.ptype) && accepts(p)
    ensures ComesBack(accepts, p) <==> Storable(p.rule)
  {
    if Storable(p.rule) { StorableComesBack(accepts, p); }
    if ComesBack(accepts, p) { OnlyStorableComesBack(accepts, p); }
  }
}
