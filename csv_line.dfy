/**
 * `parseCSVLine` of quiz.js: an informal CSV field splitter. A double quote
 * flips a quoted mode and is dropped; a comma outside the quoted mode ends a
 * field; every other character, a comma inside quotes included, belongs to
 * the current field. There is no doubled-quote escape.
 */
module CsvLine {
  import opened Strings

  /** Reference definition of the raw fields of `s`, read from the right:
      `inQuotes` is the mode in force at the start of `s`. */
  function RawFields(s: string, inQuotes: bool): (r: seq<string>)
    ensures |r| >= 1
  {
    if s == [] then [""]
    else if s[0] == '"' then RawFields(s[1..], !inQuotes)
    else if s[0] == ',' && !inQuotes then [""] + RawFields(s[1..], inQuotes)
    else Prepend([s[0]], RawFields(s[1..], inQuotes))
  }

  /** Commas of `s` that fall outside quoted mode. */
  function UnquotedCommas(s: string, inQuotes: bool): nat
  {
    if s == [] then 0
    else if s[0] == '"' then UnquotedCommas(s[1..], !inQuotes)
    else (if s[0] == ',' && !inQuotes then 1 else 0) + UnquotedCommas(s[1..], inQuotes)
  }

  /** `s` with every double quote removed. */
  function WithoutQuotes(s: string): (r: string)
  {
    if s == [] then []
    else (if s[0] == '"' then [] else [s[0]]) + WithoutQuotes(s[1..])
  }

  /** `field.replace(/^"|"$/g, '')`: one leading and one trailing quote go. */
  function StripBoundaryQuotes(f: string): string
  {
    var g := if |f| > 0 && f[0] == '"' then f[1..] else f;
    if |g| > 0 && g[|g| - 1] == '"' then g[..|g| - 1] else g
  }

  /** The clean-up applied to each raw field before it is returned. */
  function CleanField(f: string): string
  {
    Trim(StripBoundaryQuotes(f))
  }

  /** What `parseCSVLine(line)` returns. */
  function ParseLine(line: string): seq<string>
  {
    var raw := RawFields(line, false);
    seq(|raw|, k requires 0 <= k < |raw| => CleanField(raw[k]))
  }

  lemma QuoteStep(t: string, inQuotes: bool)
    ensures RawFields(['"'] + t, inQuotes) == RawFields(t, !inQuotes)
  {
    assert (['"'] + t)[1..] == t;
  }

  lemma CommaStep(t: string)
    ensures RawFields([','] + t, false) == [""] + RawFields(t, false)
  {
    assert ([','] + t)[1..] == t;
  }

  lemma PlainStep(c: char, t: string, inQuotes: bool)
    requires c != '"' && !(c == ',' && !inQuotes)
    ensures RawFields([c] + t, inQuotes) == Prepend([c], RawFields(t, inQuotes))
  {
    assert ([c] + t)[1..] == t;
  }

  /** One character of the scan keeps the split-so-far plus the reference
      fields of the rest equal to the reference fields of the whole line. */
  lemma ScanStep(raw: seq<string>, cur: string, s: string, inQuotes: bool)
    requires s != []
    ensures s[0] == '"' ==>
      raw + Prepend(cur, RawFields(s, inQuotes)) == raw + Prepend(cur, RawFields(s[1..], !inQuotes))
    ensures s[0] == ',' && !inQuotes ==>
      raw + Prepend(cur, RawFields(s, inQuotes)) == (raw + [cur]) + Prepend("", RawFields(s[1..], inQuotes))
    ensures s[0] != '"' && !(s[0] == ',' && !inQuotes) ==>
      raw + Prepend(cur, RawFields(s, inQuotes)) == raw + Prepend(cur + [s[0]], RawFields(s[1..], inQuotes))
  {
    var rest := RawFields(s[1..], inQuotes);
    if s[0] == ',' && !inQuotes {
      PrependEmpty(rest);
      PrependOpen(cur, rest);
    } else if s[0] != '"' {
      PrependTwice(cur, [s[0]], rest);
    }
  }

  /** The raw fields: one more than the unquoted commas, none holding a quote,
      and joined with commas they give back the line without its quotes. */
  lemma RawFieldsShape(s: string, inQuotes: bool)
    ensures |RawFields(s, inQuotes)| == 1 + UnquotedCommas(s, inQuotes)
    ensures forall k :: 0 <= k < |RawFields(s, inQuotes)| ==> '"' !in RawFields(s, inQuotes)[k]
    ensures Join(RawFields(s, inQuotes), ',') == WithoutQuotes(s)
  {
    RawFieldsCount(s, inQuotes);
    RawFieldsQuoteFree(s, inQuotes);
    RawFieldsJoin(s, inQuotes);
  }

  lemma {:induction false} RawFieldsCount(s: string, inQuotes: bool)
    ensures |RawFields(s, inQuotes)| == 1 + UnquotedCommas(s, inQuotes)
  {
    if s != [] {
      if s[0] == '"' {
        RawFieldsCount(s[1..], !inQuotes);
      } else {
        RawFieldsCount(s[1..], inQuotes);
      }
    }
  }

  lemma {:induction false} RawFieldsQuoteFree(s: string, inQuotes: bool)
    ensures forall k :: 0 <= k < |RawFields(s, inQuotes)| ==> '"' !in RawFields(s, inQuotes)[k]
  {
    if s != [] {
      if s[0] == '"' {
        RawFieldsQuoteFree(s[1..], !inQuotes);
      } else {
        var rest := RawFields(s[1..], inQuotes);
        RawFieldsQuoteFree(s[1..], inQuotes);
        if !(s[0] == ',' && !inQuotes) {
          var r := RawFields(s, inQuotes);
          forall k | 0 <= k < |r| ensures '"' !in r[k] {
            if k > 0 { assert r[k] == rest[k]; }
          }
        }
      }
    }
  }

  lemma {:induction false} RawFieldsJoin(s: string, inQuotes: bool)
    ensures Join(RawFields(s, inQuotes), ',') == WithoutQuotes(s)
  {
    if s != [] {
      if s[0] == '"' {
        RawFieldsJoin(s[1..], !inQuotes);
      } else {
        var rest := RawFields(s[1..], inQuotes);
        RawFieldsJoin(s[1..], inQuotes);
        if s[0] == ',' && !inQuotes {
          assert ([""] + rest)[1..] == rest;
        } else {
          PrependJoin([s[0]], rest, ',');
        }
      }
    }
  }

  /** A quote-free field is left alone by the boundary-quote strip and keeps
      no quote after trimming. */
  lemma CleanQuoteFree(f: string)
    requires '"' !in f
    ensures StripBoundaryQuotes(f) == f
    ensures '"' !in CleanField(f)
    ensures Trim(CleanField(f)) == CleanField(f)
  {
    TrimSlice(f);
    TrimIdempotent(f);
  }

  /** Field shape of `parseCSVLine`: exactly one field more than the commas
      seen outside quotes, no field contains a double quote, and every field
      is trimmed. */
  lemma ParseLineShape(line: string)
    ensures |ParseLine(line)| == 1 + UnquotedCommas(line, false)
    ensures forall k :: 0 <= k < |ParseLine(line)| ==>
      '"' !in ParseLine(line)[k] && Trim(ParseLine(line)[k]) == ParseLine(line)[k]
  {
    RawFieldsShape(line, false);
    var raw := RawFields(line, false);
    forall k | 0 <= k < |raw|
      ensures '"' !in ParseLine(line)[k] && Trim(ParseLine(line)[k]) == ParseLine(line)[k]
    {
      CleanQuoteFree(raw[k]);
    }
  }

  /** A line without any double quote splits at every comma. */
  lemma {:induction false} QuoteFreeSplitsAtCommas(s: string)
    requires '"' !in s
    ensures RawFields(s, false) == SplitOn(s, ',')
  {
    if s != [] {
      QuoteFreeSplitsAtCommas(s[1..]);
    }
  }

  /** The quoted comma stays inside its field: `a,"b,c",d` gives three fields. */
  lemma QuotedCommaExample()
    ensures ParseLine("a,\"b,c\",d") == ["a", "b,c", "d"]
  {
    QuotedCommaRaw();
    CleanLiterals();
    ParseLineFromRaw("a,\"b,c\",d", ["a", "b,c", "d"]);
  }

  lemma CleanLiterals()
    ensures CleanField("a") == "a" && CleanField("b,c") == "b,c" && CleanField("d") == "d"
  {
    CleanQuoteFree("a");
    TrimNoEdgeSpace("a");
    CleanQuoteFree("b,c");
    TrimNoEdgeSpace("b,c");
    CleanQuoteFree("d");
    TrimNoEdgeSpace("d");
  }

  lemma ParseLineFromRaw(line: string, raw: seq<string>)
    requires RawFields(line, false) == raw
    ensures |ParseLine(line)| == |raw|
    ensures forall k :: 0 <= k < |raw| ==> ParseLine(line)[k] == CleanField(raw[k])
  {
  }

  lemma QuotedCommaRaw()
    ensures RawFields("a,\"b,c\",d", false) == ["a", "b,c", "d"]
  {
    var t6 := "b,c\",d";
    var t7 := "\"b,c\",d"; assert t7 == ['"'] + t6;
    var t8 := ",\"b,c\",d"; assert t8 == [','] + t7;
    var t9 := "a,\"b,c\",d"; assert t9 == ['a'] + t8;
    QuotedFieldRaw();
    QuoteStep(t6, false);
    CommaStep(t7);
    assert RawFields(t8, false) == ["", "b,c", "d"];
    PlainStep('a', t8, false);
    assert RawFields(t9, false) == ["a", "b,c", "d"] by { assert ['a'] + "" == "a"; }
  }

  /** Inside the quotes of the example, the comma stays in the field. */
  lemma QuotedFieldRaw()
    ensures RawFields("b,c\",d", true) == ["b,c", "d"]
  {
    var t0 := "";
    var t1 := "d";        assert t1 == ['d'] + t0;
    var t2 := ",d";       assert t2 == [','] + t1;
    var t3 := "\",d";     assert t3 == ['"'] + t2;
    var t4 := "c\",d";    assert t4 == ['c'] + t3;
    var t5 := ",c\",d";   assert t5 == [','] + t4;
    var t6 := "b,c\",d";  assert t6 == ['b'] + t5;
    PlainStep('d', t0, false);
    assert RawFields(t1, false) == ["d"] by { PrependTail("d"); }
    CommaStep(t1);
    QuoteStep(t2, true);
    assert RawFields(t3, true) == ["", "d"];
    PlainStep('c', t3, true);
    assert RawFields(t4, true) == ["c", "d"] by { assert "c" + "" == "c"; }
    PlainStep(',', t4, true);
    assert RawFields(t5, true) == [",c", "d"] by { assert [','] + "c" == ",c"; }
    PlainStep('b', t5, true);
    assert RawFields(t6, true) == ["b,c", "d"] by { assert ['b'] + ",c" == "b,c"; }
  }

  /** The scanner of `parseCSVLine`: one pass over the characters with the
      current field and the quoted mode as loop state. */
  method ParseCsvLine(line: string) returns (fields: seq<string>)
    ensures fields == ParseLine(line)
    ensures |fields| == 1 + UnquotedCommas(line, false)
    ensures forall k :: 0 <= k < |fields| ==> '"' !in fields[k]
  {
    var raw: seq<string> := [];
    var currentField := "";
    var inQuotes := false;
    var i := 0;
    PrependEmpty(RawFields(line, false));
    while i < |line|
      invariant 0 <= i <= |line|
      invariant RawFields(line, false) == raw + Prepend(currentField, RawFields(line[i..], inQuotes))
    {
      var c := line[i];
      ScanStep(raw, currentField, line[i..], inQuotes);
      assert line[i..][1..] == line[i + 1..];
      if c == '"' {
        inQuotes := !inQuotes;
      } else if c == ',' && !inQuotes {
        raw := raw + [currentField];
        currentField := "";
      } else {
        currentField := currentField + [c];
      }
      i := i + 1;
    }
    PrependTail(currentField);
    assert line[|line|..] == [];
    raw := raw + [currentField];
    fields := seq(|raw|, k requires 0 <= k < |raw| => CleanField(raw[k]));
    ParseLineShape(line);
  }
}
