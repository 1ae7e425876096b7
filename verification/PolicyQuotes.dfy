/** Quoted fields of policy lines: what the reader takes apart, and what it refuses. */
module PolicyQuotes {
  import opened Prelude
  import opened PolicyLine

  /** The text with every quote doubled. */
  function Doubled(f: string): string {
    if f == [] then [] else (if f[0] == '"' then ['"', '"'] else [f[0]]) + Doubled(f[1..])
  }

  /** One record of quoted fields, as a CSV writer would write it. */
  function QuotedLine(fields: seq<string>): string
    requires fields != []
  {
    ['"'] + (Doubled(fields[0]) + (['"'] + if |fields| == 1 then [] else [','] + QuotedLine(fields[1..])))
  }

  lemma ExtendsFirst(c: char, f: string, r: Option<seq<string>>)
    ensures Extend(c, NewField(f, r)) == NewField([c] + f, r) && Extend(c, Some([f])) == Some([[c] + f])
  {
    if r.Some? { assert ([f] + r.value)[1..] == r.value; }
    assert [[c] + f] + [f][1..] == [[c] + f];
  }

  /** From inside a quoted field: up to its closing quote the field is what was doubled, and after it only a
      comma or the end of the line may follow. */
  lemma {:induction false} ReadsDoubled(f: string, rest: string)
    requires rest == [] || rest[0] != '"'
    ensures ReadQuoted(Doubled(f) + (['"'] + rest)) ==
      if rest == [] || rest[0] == '\n' then Some([f])
      else if rest[0] == ',' then NewField(f, ReadFields(rest[1..]))
      else None
  {
    var tail := ['"'] + rest;
    var s := Doubled(f) + tail;
    if f == [] {
      assert s == tail;
      assert rest != [] ==> s[1] == rest[0] && s[2..] == rest[1..];
    } else {
      var more := Doubled(f[1..]) + tail;
      ReadsDoubled(f[1..], rest);
      ExtendsFirst(f[0], f[1..], if rest == [] then None else ReadFields(rest[1..]));
      assert f == [f[0]] + f[1..];
      if f[0] == '"' {
        assert s[0] == '"' && s[1] == '"' && s[2..] == more;
      } else {
        assert s[0] == f[0] && s[1..] == more;
      }
    }
  }

  /** Quoting hides nothing: whatever the fields hold, commas, quotes and line breaks included, a line of
      quoted fields reads as these fields. */
  lemma {:induction false} ReadsQuotedLine(fields: seq<string>)
    requires fields != []
    ensures ReadFields(QuotedLine(fields)) == Some(fields)
  {
    var rest := if |fields| == 1 then [] else [','] + QuotedLine(fields[1..]);
    var s := QuotedLine(fields);
    assert TrimLeading(s) == s && s[1..] == Doubled(fields[0]) + (['"'] + rest);
    ReadsDoubled(fields[0], rest);
    if |fields| == 1 {
      assert fields == [fields[0]];
    } else {
      assert rest[1..] == QuotedLine(fields[1..]);
      ReadsQuotedLine(fields[1..]);
      assert fields == [fields[0]] + fields[1..];
    }
  }

  lemma {:induction false} UnquotedHas(x: string, y: string)
    requires forall i :: 0 <= i < |x| ==> !EndsField(x[i])
    ensures x <= Unquoted(x + y)
  {
    if x != [] {
      assert (x + y)[1..] == x[1..] + y;
      UnquotedHas(x[1..], y);
      assert x == [x[0]] + x[1..];
    }
  }

  /** A quote inside a field that does not start with one is refused, whatever follows. */
  lemma BareQuoteIsRefused(x: string, y: string)
    requires x != [] && x[0] != '"' && !IsSpace(x[0]) && ',' !in x && '\n' !in x
    ensures ReadFields(x + (['"'] + y)) == None
  {
    var s, z := x + (['"'] + y), x + ['"'];
    assert s == z + y;
    UnquotedHas(z, y);
    assert z[|x|] == '"' && '"' in Unquoted(s);
    assert s[0] == x[0] && TrimLeading(s) == s;
  }

  lemma JoinStarts(fields: seq<string>)
    requires fields != []
    ensures fields[0] <= Join(fields)
  {
  }

  /** A row whose type starts with a hash loads as nothing and stops nothing. */
  lemma CommentIsSkipped(accepts: Policy -> bool, r: RuleRow)
    requires r.ptype != [] && r.ptype[0] == '#'
    ensures LoadRow(accepts, r).Skipped?
  {
    var fields := [r.ptype] + r.v;
    JoinStarts(fields);
    assert fields[0] == r.ptype;
    var text := Join(fields);
    assert text == [text[0]] + text[1..] && text[0] == '#';
    var cut := TrimKeepsSolid([text[0]], text[1..]);
  }

  /** A stored rule that could come back, but that the model does not declare, fails the load. */
  lemma UndeclaredIsRefused(accepts: Policy -> bool, p: Policy)
    requires PolicyType(p.ptype) && Storable(p.rule) && !accepts(p)
    ensures LoadRow(accepts, Store(p)).Refused?
  {
    StorableComesBack((q: Policy) => true, p);
  }
}
