/**
 * `parseEnrichedChoices` of quiz.js: one "enriched choices" cell becomes the
 * list of answer options, by a three-tier fallback.
 *   1. Split at every lettered marker (an ASCII capital, `)`, then any
 *      whitespace, the regular expression `[A-Z]\)\s*`); two or more
 *      non-blank pieces are the options, trimmed.
 *   2. Otherwise split at every run of line feeds (`\n+`), drop one leading
 *      marker from each piece, trim, and keep the non-empty ones; two or more
 *      are the options.
 *   3. Otherwise the whole cell, trimmed, is the only option.
 */
module Choices {
  import opened Strings

  /** `s` starts with a lettered marker such as `B)`. */
  predicate MarkerAt(s: string) {
    |s| >= 2 && IsUpper(s[0]) && s[1] == ')'
  }

  /** Length of the marker match at the front of `s`: the letter, the
      parenthesis and the whitespace the `\s*` swallows. */
  function MarkerLength(s: string): (n: nat)
    requires MarkerAt(s)
    ensures 2 <= n <= |s|
  {
    2 + LeadingSpaces(s[2..])
  }

  /** `s.split(/[A-Z]\)\s*\/g)`. */
  function SplitMarkers(s: string): (r: seq<string>)
    ensures |r| >= 1
    decreases |s|
  {
    if s == [] then [""]
    else if MarkerAt(s) then [""] + SplitMarkers(s[MarkerLength(s)..])
    else Prepend([s[0]], SplitMarkers(s[1..]))
  }

  /** Number of line feeds at the front of `s`. */
  function NewlineRun(s: string): (n: nat)
    ensures n <= |s|
  {
    if s != [] && s[0] == '\n' then 1 + NewlineRun(s[1..]) else 0
  }

  /** `s.split(/\n+/)`. */
  function SplitNewlineRuns(s: string): (r: seq<string>)
    ensures |r| >= 1
    decreases |s|
  {
    if s == [] then [""]
    else if s[0] == '\n' then [""] + SplitNewlineRuns(s[1 + NewlineRun(s[1..])..])
    else Prepend([s[0]], SplitNewlineRuns(s[1..]))
  }

  /** `parts.filter(part => part.trim())`. */
  function NonBlank(parts: seq<string>): (r: seq<string>)
    ensures |r| <= |parts|
  {
    if parts == [] then []
    else (if Trim(parts[0]) != "" then [parts[0]] else []) + NonBlank(parts[1..])
  }

  /** `parts.map(opt => opt.trim())`. */
  function TrimAll(parts: seq<string>): (r: seq<string>)
    ensures |r| == |parts|
  {
    if parts == [] then [] else [Trim(parts[0])] + TrimAll(parts[1..])
  }

  /** `parts.filter(opt => opt)`. */
  function DropEmpty(parts: seq<string>): (r: seq<string>)
    ensures |r| <= |parts|
  {
    if parts == [] then []
    else (if parts[0] != "" then [parts[0]] else []) + DropEmpty(parts[1..])
  }

  /** `opt.replace(/^[A-Z]\)\s*\/, '')`. */
  function StripMarker(p: string): string
  {
    if MarkerAt(p) then p[MarkerLength(p)..] else p
  }

  /** The tier-2 clean-up of each newline-separated piece, empties dropped. */
  function LineOptions(pieces: seq<string>): seq<string>
  {
    if pieces == [] then []
    else
      var o := Trim(StripMarker(pieces[0]));
      (if o != "" then [o] else []) + LineOptions(pieces[1..])
  }

  /** Tier 1's candidate pieces. */
  function MarkerParts(text: string): seq<string>
  {
    NonBlank(SplitMarkers(text))
  }

  /** What `parseEnrichedChoices(text)` returns. */
  function ParseEnrichedChoices(text: string): (r: seq<string>)
    ensures |r| >= 1
  {
    var parts := MarkerParts(text);
    if |parts| > 1 then TrimNonBlank(SplitMarkers(text)); DropEmpty(TrimAll(parts))
    else
      var lineOptions := LineOptions(SplitNewlineRuns(text));
      if |lineOptions| > 1 then lineOptions
      else [Trim(text)]
  }

  // ---------------------------------------------------------------------------
  // Properties

  lemma SplitAtMarker(c: char, t: string)
    requires IsUpper(c)
    ensures SplitMarkers([c, ')'] + t) == [""] + SplitMarkers(t[LeadingSpaces(t)..])
  {
    var s := [c, ')'] + t;
    assert s[0] == c && s[1] == ')' && s[2..] == t;
    assert MarkerAt(s);
    assert MarkerLength(s) == 2 + LeadingSpaces(t);
    assert s[MarkerLength(s)..] == t[LeadingSpaces(t)..];
  }

  lemma SplitPastChar(c: char, t: string)
    requires !MarkerAt([c] + t)
    ensures SplitMarkers([c] + t) == Prepend([c], SplitMarkers(t))
  {
    assert ([c] + t)[1..] == t;
  }

  /** Trimming non-blank pieces leaves nothing empty for the final filter to
      drop, and every result is trimmed and non-empty. */
  lemma {:induction false} TrimNonBlank(parts: seq<string>)
    ensures DropEmpty(TrimAll(NonBlank(parts))) == TrimAll(NonBlank(parts))
    ensures forall k :: 0 <= k < |TrimAll(NonBlank(parts))| ==>
      TrimAll(NonBlank(parts))[k] != "" && Trim(TrimAll(NonBlank(parts))[k]) == TrimAll(NonBlank(parts))[k]
  {
    if parts != [] {
      TrimNonBlank(parts[1..]);
      var rest := NonBlank(parts[1..]);
      if Trim(parts[0]) != "" {
        assert NonBlank(parts) == [parts[0]] + rest;
        assert TrimAll([parts[0]] + rest) == [Trim(parts[0])] + TrimAll(rest) by {
          assert ([parts[0]] + rest)[1..] == rest;
        }
        TrimIdempotent(parts[0]);
        var t := TrimAll(NonBlank(parts));
        assert t[0] == Trim(parts[0]) && t[1..] == TrimAll(rest);
        assert t[0] != "";
        assert DropEmpty(t) == [t[0]] + DropEmpty(t[1..]);
        assert [t[0]] + t[1..] == t;
      } else {
        assert NonBlank(parts) == rest;
      }
    }
  }

  /** Every tier-2 option is non-empty and trimmed. */
  lemma {:induction false} LineOptionsTrimmed(pieces: seq<string>)
    ensures forall k :: 0 <= k < |LineOptions(pieces)| ==>
      LineOptions(pieces)[k] != "" && Trim(LineOptions(pieces)[k]) == LineOptions(pieces)[k]
  {
    if pieces != [] {
      LineOptionsTrimmed(pieces[1..]);
      TrimIdempotent(StripMarker(pieces[0]));
    }
  }

  /** A single piece gives at most one tier-2 option. */
  lemma LineOptionsSingle(p: string)
    ensures |LineOptions([p])| <= 1
  {
    assert [p][1..] == [];
  }

  /** Every option `parseEnrichedChoices` returns is trimmed; the options of
      tiers 1 and 2 are non-empty as well. */
  lemma EnrichedOptionsTrimmed(text: string)
    ensures forall k :: 0 <= k < |ParseEnrichedChoices(text)| ==>
      Trim(ParseEnrichedChoices(text)[k]) == ParseEnrichedChoices(text)[k]
  {
    TrimNonBlank(SplitMarkers(text));
    LineOptionsTrimmed(SplitNewlineRuns(text));
    TrimIdempotent(text);
  }

  /** Tier 1: when the markers cut the cell into two or more non-blank
      pieces, those pieces, trimmed and in order, are the options, and none
      of them is empty. */
  lemma MarkerTier(text: string)
    requires |MarkerParts(text)| > 1
    ensures ParseEnrichedChoices(text) == TrimAll(MarkerParts(text))
    ensures |ParseEnrichedChoices(text)| > 1
    ensures forall k :: 0 <= k < |ParseEnrichedChoices(text)| ==> ParseEnrichedChoices(text)[k] != ""
  {
    TrimNonBlank(SplitMarkers(text));
  }

  /** Tier 2: no marker split, but two or more non-empty newline-separated
      pieces. */
  lemma NewlineTier(text: string)
    requires |MarkerParts(text)| <= 1
    requires |LineOptions(SplitNewlineRuns(text))| > 1
    ensures ParseEnrichedChoices(text) == LineOptions(SplitNewlineRuns(text))
    ensures forall k :: 0 <= k < |ParseEnrichedChoices(text)| ==> ParseEnrichedChoices(text)[k] != ""
  {
    LineOptionsTrimmed(SplitNewlineRuns(text));
  }

  /** Tier 3: a cell without a line feed that holds no marker, or a single
      marker at its very start, is its own single option, trimmed, with that
      marker left in place. */
  lemma FallbackTier(text: string)
    requires '\n' !in text
    requires MarkerFree(text) || (MarkerAt(text) && MarkerFree(text[2..]))
    ensures ParseEnrichedChoices(text) == [Trim(text)]
  {
    if MarkerFree(text) {
      MarkerFreeWhole(text);
    } else {
      var rest := text[2..];
      assert text == [text[0], ')'] + rest;
      SplitAtMarker(text[0], rest);
      var u := rest[LeadingSpaces(rest)..];
      MarkerFreeSuffix(rest, LeadingSpaces(rest));
      MarkerFreeWhole(u);
      NonBlankCons("", [u]);
      assert Trim("") == "";
    }
    NoNewlineSkipsTier2(text);
  }

  /** A cell with no line feed splits by newlines into itself. */
  lemma {:induction false} NoNewlineIsOnePiece(s: string)
    requires '\n' !in s
    ensures SplitNewlineRuns(s) == [s]
  {
    if s != [] {
      NoNewlineIsOnePiece(s[1..]);
      assert [s[0]] + s[1..] == s;
    }
  }

  /** A cell with no line feed never reaches tier 2: the options are tier
      1's pieces or else the whole trimmed cell. Every cell that
      `parseCSV` passes in is of this kind. */
  lemma NoNewlineSkipsTier2(text: string)
    requires '\n' !in text
    ensures ParseEnrichedChoices(text) == TrimAll(MarkerParts(text))
         || ParseEnrichedChoices(text) == [Trim(text)]
    ensures |MarkerParts(text)| <= 1 ==> ParseEnrichedChoices(text) == [Trim(text)]
  {
    NoNewlineIsOnePiece(text);
    LineOptionsSingle(text);
    if |MarkerParts(text)| > 1 {
      MarkerTier(text);
    }
  }

  /** No piece of the marker split contains a marker. */
  lemma {:induction false} SplitMarkersHaveNoMarker(s: string)
    ensures forall k, i :: 0 <= k < |SplitMarkers(s)| && 0 <= i < |SplitMarkers(s)[k]| ==>
      !MarkerAt(SplitMarkers(s)[k][i..])
    decreases |s|
  {
    if s != [] {
      if MarkerAt(s) {
        SplitMarkersHaveNoMarker(s[MarkerLength(s)..]);
        var rest := SplitMarkers(s[MarkerLength(s)..]);
        assert ([""] + rest)[1..] == rest;
        forall k, i | 0 <= k < |SplitMarkers(s)| && 0 <= i < |SplitMarkers(s)[k]|
          ensures !MarkerAt(SplitMarkers(s)[k][i..])
        {
          assert k > 0 && SplitMarkers(s)[k] == rest[k - 1];
        }
      } else {
        SplitMarkersHaveNoMarker(s[1..]);
        var rest := SplitMarkers(s[1..]);
        var r := SplitMarkers(s);
        forall k, i | 0 <= k < |r| && 0 <= i < |r[k]|
          ensures !MarkerAt(r[k][i..])
        {
          if k > 0 {
            assert r[k] == rest[k];
          } else if i > 0 {
            assert r[0][i..] == rest[0][i - 1..];
          } else {
            // The piece starts at s[0], which does not begin a marker; if the
            // first piece of the rest is empty, the next character starts one.
            assert r[0] == [s[0]] + rest[0];
            if |r[0]| >= 2 {
              assert r[0][1] == rest[0][0];
              assert r[0][..2] == s[..2] by {
                PieceIsPrefix(s[1..]);
              }
            }
          }
        }
      }
    }
  }

  /** No marker starts anywhere in `a`. */
  predicate MarkerFree(a: string) {
    forall i :: 0 <= i < |a| ==> !MarkerAt(a[i..])
  }

  lemma MarkerFreeTail(a: string)
    requires a != [] && MarkerFree(a)
    ensures MarkerFree(a[1..])
  {
    forall i | 0 <= i < |a| - 1 ensures !MarkerAt(a[1..][i..]) {
      assert a[1..][i..] == a[i + 1..];
    }
  }

  /** A text without a closing parenthesis holds no marker. */
  lemma NoParenMarkerFree(a: string)
    requires ')' !in a
    ensures MarkerFree(a)
  {
    forall i | 0 <= i < |a| ensures !MarkerAt(a[i..]) {
      if |a[i..]| >= 2 {
        assert a[i..][1] == a[i + 1];
      }
    }
  }

  lemma MarkerFreeSuffix(a: string, k: nat)
    requires k <= |a| && MarkerFree(a)
    ensures MarkerFree(a[k..])
  {
    forall i | 0 <= i < |a| - k ensures !MarkerAt(a[k..][i..]) {
      assert a[k..][i..] == a[k + i..];
    }
  }

  /** A marker-free text is a single piece. */
  lemma {:induction false} MarkerFreeWhole(a: string)
    requires MarkerFree(a)
    ensures SplitMarkers(a) == [a]
  {
    if a != [] {
      assert !MarkerAt(a[0..]);
      MarkerFreeTail(a);
      MarkerFreeWhole(a[1..]);
      PrependTail(a[..1]);
      assert [a[0]] + a[1..] == a;
    }
  }

  /** A marker-free stretch followed by a marker is one whole piece, and the
      split resumes after the marker and its whitespace. */
  lemma SplitBeforeMarker(a: string, c: char, sp: string, t: string)
    requires MarkerFree(a) && IsUpper(c)
    requires AllSpace(sp) && (t == [] || !IsSpace(t[0]))
    ensures SplitMarkers(a + [c, ')'] + sp + t) == [a] + SplitMarkers(t)
  {
    LeadingSpacesOf(sp, t);
    assert (sp + t)[|sp|..] == t;
    assert a + [c, ')'] + sp + t == a + [c, ')'] + (sp + t);
    SplitAtMarkerAfter(a, c, sp + t);
  }

  lemma {:induction false} SplitAtMarkerAfter(a: string, c: char, t: string)
    requires MarkerFree(a) && IsUpper(c)
    ensures SplitMarkers(a + [c, ')'] + t) == [a] + SplitMarkers(t[LeadingSpaces(t)..])
  {
    if a == [] {
      assert a + [c, ')'] + t == [c, ')'] + t;
      SplitAtMarker(c, t);
    } else {
      MarkerFreeTail(a);
      SplitAtMarkerAfter(a[1..], c, t);
      MarkerAfterStep(a, c, t);
    }
  }

  /** The induction step of `SplitAtMarkerAfter`: one more marker-free
      character in front joins the first piece. */
  lemma MarkerAfterStep(a: string, c: char, t: string)
    requires a != [] && MarkerFree(a) && IsUpper(c)
    requires SplitMarkers(a[1..] + [c, ')'] + t) == [a[1..]] + SplitMarkers(t[LeadingSpaces(t)..])
    ensures SplitMarkers(a + [c, ')'] + t) == [a] + SplitMarkers(t[LeadingSpaces(t)..])
  {
    var u := a[1..] + [c, ')'] + t;
    NoMarkerInFront(a, c, t);
    ConsConcat(a, [c, ')'], t);
    SplitPastChar(a[0], u);
    PrependJoinPiece(a, SplitMarkers(t[LeadingSpaces(t)..]));
  }

  lemma ConsConcat(a: string, m: string, t: string)
    requires a != []
    ensures a + m + t == [a[0]] + (a[1..] + m + t)
  {
    assert a == [a[0]] + a[1..];
  }

  lemma PrependJoinPiece(a: string, x: seq<string>)
    requires a != []
    ensures Prepend([a[0]], [a[1..]] + x) == [a] + x
  {
    assert [a[0]] + a[1..] == a;
    assert ([a[1..]] + x)[1..] == x;
  }

  /** A marker-free non-empty prefix puts no marker at the front. */
  lemma NoMarkerInFront(a: string, c: char, t: string)
    requires a != [] && MarkerFree(a) && IsUpper(c)
    ensures !MarkerAt(a + [c, ')'] + t)
  {
    var s := a + [c, ')'] + t;
    assert a[0..] == a;
    assert !MarkerAt(a);
    assert s[0] == a[0];
    if |a| >= 2 { assert s[1] == a[1]; } else { assert s[1] == c; }
  }

  /** The first piece of the marker split is a prefix of the text. */
  lemma {:induction false} PieceIsPrefix(s: string)
    ensures |SplitMarkers(s)[0]| <= |s| && SplitMarkers(s)[0] == s[..|SplitMarkers(s)[0]|]
    decreases |s|
  {
    if s != [] && !MarkerAt(s) {
      PieceIsPrefix(s[1..]);
    }
  }

  /** `run` consists of line feeds only. */
  predicate AllNewlines(run: string) {
    forall i :: 0 <= i < |run| ==> run[i] == '\n'
  }

  /** A run of line feeds in front of a text not opening with one is
      counted in full. */
  lemma {:induction false} NewlineRunOf(run: string, t: string)
    requires AllNewlines(run) && (t == [] || t[0] != '\n')
    ensures NewlineRun(run + t) == |run|
  {
    if run == [] {
      assert run + t == t;
    } else {
      assert (run + t)[1..] == run[1..] + t;
      NewlineRunOf(run[1..], t);
    }
  }

  /** A line-feed-free stretch, a run of one or more line feeds, then a text
      not opening with one: the stretch is one piece, the whole run is a
      single separator, and the split resumes after it. */
  lemma {:induction false} SplitBeforeNewlines(a: string, run: string, t: string)
    requires '\n' !in a && |run| >= 1 && AllNewlines(run)
    requires t == [] || t[0] != '\n'
    ensures SplitNewlineRuns(a + run + t) == [a] + SplitNewlineRuns(t)
    decreases |a|
  {
    var s := a + run + t;
    if a == [] {
      assert s == run + t && s[1..] == run[1..] + t;
      NewlineRunOf(run[1..], t);
      assert s[1 + |run[1..]|..] == t;
    } else {
      assert s[1..] == a[1..] + run + t;
      SplitBeforeNewlines(a[1..], run, t);
      PrependJoinPiece(a, SplitNewlineRuns(t));
    }
  }

  /** No piece of the line split contains a line feed. */
  lemma {:induction false} SplitNewlineRunsAvoid(s: string)
    ensures forall k :: 0 <= k < |SplitNewlineRuns(s)| ==> '\n' !in SplitNewlineRuns(s)[k]
    decreases |s|
  {
    if s != [] {
      if s[0] == '\n' {
        var rest := s[1 + NewlineRun(s[1..])..];
        SplitNewlineRunsAvoid(rest);
        assert ([""] + SplitNewlineRuns(rest))[1..] == SplitNewlineRuns(rest);
      } else {
        SplitNewlineRunsAvoid(s[1..]);
        var rest := SplitNewlineRuns(s[1..]);
        assert '\n' !in [s[0]] + rest[0];
        assert forall k :: 1 <= k < |rest| ==> SplitNewlineRuns(s)[k] == rest[k];
      }
    }
  }

  lemma NonBlankCons(p: string, rest: seq<string>)
    ensures NonBlank([p] + rest) == (if Trim(p) != "" then [p] else []) + NonBlank(rest)
  {
    assert ([p] + rest)[1..] == rest;
  }

  lemma TrimAllCons(p: string, rest: seq<string>)
    ensures TrimAll([p] + rest) == [Trim(p)] + TrimAll(rest)
  {
    assert ([p] + rest)[1..] == rest;
  }

  lemma LineOptionsCons(p: string, rest: seq<string>)
    ensures LineOptions([p] + rest) ==
      (if Trim(StripMarker(p)) != "" then [Trim(StripMarker(p))] else []) + LineOptions(rest)
  {
    assert ([p] + rest)[1..] == rest;
  }

  // ---------------------------------------------------------------------------
  // The examples of the format

  /** `A) 3 B) 4 C) 5` has three lettered options. */
  lemma LetteredExample()
    ensures ParseEnrichedChoices("A) 3 B) 4 C) 5") == ["3", "4", "5"]
  {
    var s := "A) 3 B) 4 C) 5";
    LetteredSplit(s);
    TrimLetteredPieces();
    NonBlankExample("", "3 ", "4 ", "5");
    MarkerTier(s);
  }

  /** The marker split of the lettered example: an empty piece before
      `A)`, then one piece per option. The text is a parameter here and in
      `SplitAfterA`, `SplitFromThree` and `SplitFromFour`, so that the solver
      does not try to evaluate the split of a literal on its own. */
  lemma LetteredSplit(s: string)
    requires s == "A) 3 B) 4 C) 5"
    ensures SplitMarkers(s) == ["", "3 ", "4 ", "5"]
  {
    SplitAfterA(s, s[3..]);
  }

  lemma SplitAfterA(s: string, tb: string)
    requires tb == "3 B) 4 C) 5" && s == ['A', ')', ' '] + tb
    ensures SplitMarkers(s) == ["", "3 ", "4 ", "5"]
  {
    SplitFromThree(tb);
    assert s == ['A', ')'] + " " + tb;
    SplitLeadingMarker('A', " ", tb);
  }

  /** A marker at the very start yields an empty first piece. */
  lemma SplitLeadingMarker(c: char, sp: string, t: string)
    requires IsUpper(c) && AllSpace(sp) && (t == [] || !IsSpace(t[0]))
    ensures SplitMarkers([c, ')'] + sp + t) == [""] + SplitMarkers(t)
  {
    var e: string := [];
    assert e + [c, ')'] + sp + t == [c, ')'] + sp + t;
    SplitBeforeMarker(e, c, sp, t);
  }

  /** The lettered example after its `A) `. */
  lemma SplitFromThree(tb: string)
    requires tb == "3 B) 4 C) 5"
    ensures SplitMarkers(tb) == ["3 ", "4 ", "5"]
  {
    var tc := "4 C) 5";
    assert tb == "3 " + ['B', ')'] + " " + tc;
    SplitFromFour(tc);
    assert MarkerFree("3 ");
    SplitBeforeMarker("3 ", 'B', " ", tc);
  }

  /** The lettered example after its `B) `. */
  lemma SplitFromFour(tc: string)
    requires tc == "4 C) 5"
    ensures SplitMarkers(tc) == ["4 ", "5"]
  {
    assert tc == "4 " + ['C', ')'] + " " + "5";
    assert MarkerFree("5"); MarkerFreeWhole("5");
    assert MarkerFree("4 ");
    SplitBeforeMarker("4 ", 'C', " ", "5");
  }

  lemma TrimLetteredPieces()
    ensures Trim("3 ") == "3" && Trim("4 ") == "4" && Trim("5") == "5" && Trim("") == ""
  {
    assert LeadingSpaces("3 ") == 0 && TrailingSpaces("3 ") == 1;
    assert LeadingSpaces("4 ") == 0 && TrailingSpaces("4 ") == 1;
    TrimNoEdgeSpace("5");
  }

  lemma NonBlankExample(e: string, a: string, b: string, c: string)
    requires Trim(e) == "" && Trim(a) != "" && Trim(b) != "" && Trim(c) != ""
    ensures NonBlank([e, a, b, c]) == [a, b, c]
    ensures TrimAll([a, b, c]) == [Trim(a), Trim(b), Trim(c)]
  {
    var nil: seq<string> := [];
    NonBlankCons(c, nil);
    assert [b, c] == [b] + [c];
    NonBlankCons(b, [c]);
    assert [a, b, c] == [a] + [b, c];
    NonBlankCons(a, [b, c]);
    assert [e, a, b, c] == [e] + [a, b, c];
    NonBlankCons(e, [a, b, c]);
    TrimAllCons(c, nil);
    TrimAllCons(b, [c]);
    TrimAllCons(a, [b, c]);
  }

  /** `A) only` has one lettered option, so the fallback keeps the cell
      whole, marker included. */
  lemma SingleMarkerExample()
    ensures ParseEnrichedChoices("A) only") == ["A) only"]
  {
    var s := "A) only";
    assert s[2..] == " only";
    NoParenMarkerFree(" only");
    TrimmedCellFallback(s);
  }

  /** The fallback for a cell that is already trimmed returns it unchanged. */
  lemma TrimmedCellFallback(text: string)
    requires '\n' !in text
    requires MarkerFree(text) || (MarkerAt(text) && MarkerFree(text[2..]))
    requires text != [] ==> !IsSpace(text[0]) && !IsSpace(text[|text| - 1])
    ensures ParseEnrichedChoices(text) == [text]
  {
    FallbackTier(text);
    TrimNoEdgeSpace(text);
  }

  /** Tier 1 of `A) x\ny` finds the single piece `x\ny`. */
  lemma LineSeparatedParts()
    ensures |MarkerParts("A) x\ny")| == 1
  {
    var blob: string := "x\ny";
    var nil: seq<string> := [];
    assert MarkerFree(blob); MarkerFreeWhole(blob);
    SplitBeforeMarker("", 'A', " ", blob);
    assert "A) x\ny" == "" + ['A', ')'] + " " + blob;
    assert SplitMarkers("A) x\ny") == ["", blob];
    TrimEmptyIff(blob);
    assert !IsSpace(blob[0]);
    NonBlankCons(blob, nil);
    NonBlankCons("", [blob]);
    assert ["", blob] == [""] + [blob] && [blob] == [blob] + nil;
  }

  /** The line split of `A) x\ny` gives the options `x` and `y`. */
  lemma LineSeparatedLines()
    ensures LineOptions(SplitNewlineRuns("A) x\ny")) == ["x", "y"]
  {
    var first: string := "A) x";
    NoNewlineIsOnePiece("y");
    SplitBeforeNewlines(first, "\n", "y");
    assert "A) x\ny" == first + "\n" + "y";
    LineOptionsOfPieces(first, "y");
  }

  lemma LineOptionsOfPieces(first: string, second: string)
    requires first == "A) x" && second == "y"
    ensures LineOptions([first, second]) == ["x", "y"]
  {
    var nil: seq<string> := [];
    assert StripMarker(first) == "x" by {
      assert first[2..] == " " + "x";
      LeadingSpacesOf(" ", "x");
    }
    TrimNoEdgeSpace("x");
    TrimNoEdgeSpace(second);
    assert StripMarker(second) == second;
    LineOptionsCons(second, nil);
    LineOptionsCons(first, [second]);
    assert [first, second] == [first] + [second] && [second] == [second] + nil;
  }

  /** `A) x` and `y` on separate lines: tier 1 finds one piece, the line
      split finds two and strips the marker. */
  lemma LineSeparatedExample()
    ensures ParseEnrichedChoices("A) x\ny") == ["x", "y"]
  {
    LineSeparatedParts();
    LineSeparatedLines();
  }

  /** A cell with no marker and no line feed is its own single option. */
  lemma PlainCellExample()
    ensures ParseEnrichedChoices("onlyoneanswer") == ["onlyoneanswer"]
  {
    NoParenMarkerFree("onlyoneanswer");
    TrimmedCellFallback("onlyoneanswer");
  }
}
