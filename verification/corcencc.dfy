/** The CorCenCC corpus (`Corcencc`): one sentence per line, each
    whitespace entry seven `|`-separated fields
    `token|lemma|core POS|basic POS|enriched POS|predicted basic POS|USAS tag`,
    e.g. `A|a|pron|Rha|Rhaperth|Rha|Z5`.  Only the token and the USAS tag are
    read; the sentence has no MWEs. */
module Corcencc {
  import opened Outcome
  import opened Text
  import opened Tags
  import opened Dataset
  import opened Labels

  /** The hand-written correction tables of the parser, kept abstract: both
      look at (label, line index, token index, token).  `relabel` is the
      first table, which replaces some mistyped labels (and leaves every
      other label as it is); `skip` is the second, which lists entries whose
      (already relabelled) label is not checked and becomes `""`. */
  datatype Corrections = Corrections(
    relabel: (string, nat, nat, string) -> string,
    skip: (string, nat, nat, string) -> bool)

  /** No corrections at all. */
  function NoCorrections(): (c: Corrections)
    ensures forall l, i, j, t :: c.relabel(l, i, j, t) == l && !c.skip(l, i, j, t)
  {
    Corrections((l: string, i: nat, j: nat, t: string) => l, (l: string, i: nat, j: nat, t: string) => false)
  }

  /** The nested `validate_token`: the token must be non-empty, and unless
      it is the corpus name `S4C` it must not itself parse as tags. */
  predicate TokenAllowed(token: string) {
    |token| > 0 && (token == "S4C" || !ParsesAsTags(token))
  }

  /** One entry of a line, at `tokenIndex` on line `lineIndex`: it must have
      seven `|`-separated fields; the token is the first field stripped and
      the label the last one stripped, run through the relabel table; a
      skipped entry gets the label `""`, any other entry the validated and
      filtered label (`ValidateLabel`); finally the token is checked.  Gives
      (token, label). */
  function ParseEntry(entry: string, lineIndex: nat, tokenIndex: nat, validation: Option<set<string>>,
                      filter: Option<set<string>>, corrections: Corrections): (r: Result<(string, string)>)
    ensures |Split(entry, '|')| != 7 ==> r.Err?
    ensures |Split(entry, '|')| == 7 ==>
      var token := Strip(Split(entry, '|')[0]);
      var labelText := corrections.relabel(Strip(Split(entry, '|')[6]), lineIndex, tokenIndex, token);
      var skipped := corrections.skip(labelText, lineIndex, tokenIndex, token);
      && (r.Ok? <==> (skipped || ValidateLabel(labelText, validation, filter).Ok?) && TokenAllowed(token))
      && (r.Ok? ==> r.value == (token, if skipped then "" else ValidateLabel(labelText, validation, filter).value))
  {
    var fields := Split(entry, '|');
    if |fields| != 7 then Err
    else
      var token := Strip(fields[0]);
      var labelText := corrections.relabel(Strip(fields[6]), lineIndex, tokenIndex, token);
      var tag :- if corrections.skip(labelText, lineIndex, tokenIndex, token) then Ok("") else ValidateLabel(labelText, validation, filter);
      if TokenAllowed(token) then Ok((token, tag)) else Err
  }

  /** The entries of a line paired with their token index. */
  function Indexed(entries: seq<string>): (r: seq<(nat, string)>)
    ensures |r| == |entries|
    ensures forall i | 0 <= i < |entries| :: r[i] == (i, entries[i])
  {
    seq(|entries|, i requires 0 <= i < |entries| => (i, entries[i]))
  }

  function Firsts(pairs: seq<(string, string)>): (r: seq<string>)
    ensures |r| == |pairs| && forall i | 0 <= i < |pairs| :: r[i] == pairs[i].0
  {
    seq(|pairs|, i requires 0 <= i < |pairs| => pairs[i].0)
  }

  function Seconds(pairs: seq<(string, string)>): (r: seq<string>)
    ensures |r| == |pairs| && forall i | 0 <= i < |pairs| :: r[i] == pairs[i].1
  {
    seq(|pairs|, i requires 0 <= i < |pairs| => pairs[i].1)
  }

  /** The entries of line `lineIndex`, each parsed with its token index;
      the first bad entry fails the line (see `ParseEntriesSpec`). */
  function ParseEntries(entries: seq<string>, lineIndex: nat, validation: Option<set<string>>,
                        filter: Option<set<string>>, corrections: Corrections): (r: Result<seq<(string, string)>>)
    ensures r.Ok? ==> |r.value| == |entries|
  {
    MapResult(Indexed(entries), (p: (nat, string)) => ParseEntry(p.1, lineIndex, p.0, validation, filter, corrections))
  }

  /** A line's entries parse exactly when each parses at its own token
      index, and then give each entry's (token, label) in order. */
  lemma {:induction false} ParseEntriesSpec(entries: seq<string>, lineIndex: nat, validation: Option<set<string>>,
                                            filter: Option<set<string>>, corrections: Corrections)
    ensures ParseEntries(entries, lineIndex, validation, filter, corrections).Ok? <==>
      forall j | 0 <= j < |entries| :: ParseEntry(entries[j], lineIndex, j, validation, filter, corrections).Ok?
    ensures ParseEntries(entries, lineIndex, validation, filter, corrections).Ok? ==>
      forall j | 0 <= j < |entries| ::
        ParseEntries(entries, lineIndex, validation, filter, corrections).value[j]
          == ParseEntry(entries[j], lineIndex, j, validation, filter, corrections).value
  {
    var parseEntry := (p: (nat, string)) => ParseEntry(p.1, lineIndex, p.0, validation, filter, corrections);
    var indexed := Indexed(entries);
    assert forall j | 0 <= j < |entries| ::
      parseEntry(indexed[j]) == ParseEntry(entries[j], lineIndex, j, validation, filter, corrections);
  }

  /** One stripped, non-blank line, the `lineIndex`th of the file: every
      whitespace entry must parse (`ParseEntries`); the text is the tokens
      joined by single spaces, with one label and one empty MWE set per
      token. */
  function ParseLine(line: string, lineIndex: nat, validation: Option<set<string>>,
                     filter: Option<set<string>>, corrections: Corrections): (r: Result<EvaluationTexts>)
    ensures r.Ok? <==> ParseEntries(Words(line), lineIndex, validation, filter, corrections).Ok?
    ensures r.Ok? ==>
      var pairs := ParseEntries(Words(line), lineIndex, validation, filter, corrections).value;
      && ListsMatch(r.value)
      && r.value.tokens == Firsts(pairs)
      && r.value.semanticTags == Some(Seconds(pairs))
    ensures r.Ok? ==> r.value.text == Join(r.value.tokens, " ")
    ensures r.Ok? ==> r.value.mweIndexes == Some(NoMwes(|r.value.tokens|))
    ensures r.Ok? ==> r.value.lemmas.None? && r.value.posTags.None?
  {
    var pairs :- ParseEntries(Words(line), lineIndex, validation, filter, corrections);
    var tokens := Firsts(pairs);
    MakeTexts(Join(tokens, " "), tokens, None, None, Some(Seconds(pairs)), Some(NoMwes(|tokens|)))
  }

  /** `CorcenccParser.parse` over the lines of the file: every stripped,
      non-blank line becomes one text, in order, each parsed with its index
      in the file (see `ParseFails`, `ParseSucceeds` and `ParseTexts`).  The
      dataset is called `Corcencc`, holds sentences, and records the label
      filter it was given. */
  function Parse(lines: seq<string>, validation: Option<set<string>>, filter: Option<set<string>>,
                 corrections: Corrections): (r: Result<EvaluationDataset>)
    ensures r.Ok? ==> r.value.name == "Corcencc" && r.value.textLevel == Sentence
    ensures r.Ok? ==> r.value.labelsRemoved == filter
    ensures r.Ok? ==> |r.value.texts| == |NumberedLines(lines, 0)|
    ensures r.Ok? ==> ValidDataset(r.value)
  {
    var texts :- MapResult(NumberedLines(lines, 0), (p: (nat, string)) => ParseLine(p.1, p.0, validation, filter, corrections));
    Ok(EvaluationDataset("Corcencc", Sentence, filter, texts))
  }

  /** One bad line fails the whole parse. */
  lemma {:induction false} ParseFails(lines: seq<string>, validation: Option<set<string>>, filter: Option<set<string>>,
                                      corrections: Corrections, k: nat)
    requires k < |NumberedLines(lines, 0)|
    requires ParseLine(NumberedLines(lines, 0)[k].1, NumberedLines(lines, 0)[k].0, validation, filter, corrections).Err?
    ensures Parse(lines, validation, filter, corrections).Err?
  {
    var parseLine := (p: (nat, string)) => ParseLine(p.1, p.0, validation, filter, corrections);
    assert !parseLine(NumberedLines(lines, 0)[k]).Ok?;
  }

  /** When every line parses, so does the file. */
  lemma {:induction false} ParseSucceeds(lines: seq<string>, validation: Option<set<string>>, filter: Option<set<string>>,
                                         corrections: Corrections)
    requires forall k | 0 <= k < |NumberedLines(lines, 0)| ::
      ParseLine(NumberedLines(lines, 0)[k].1, NumberedLines(lines, 0)[k].0, validation, filter, corrections).Ok?
    ensures Parse(lines, validation, filter, corrections).Ok?
  {
    var ls := NumberedLines(lines, 0);
    var parseLine := (p: (nat, string)) => ParseLine(p.1, p.0, validation, filter, corrections);
    forall k | 0 <= k < |ls| ensures parseLine(ls[k]).Ok? {
    }
  }

  /** The text of a parsed file at position `k` is the parse of its `k`th
      stripped, non-blank line, a line of the file whose index it was parsed
      with. */
  lemma {:induction false} ParseTexts(lines: seq<string>, validation: Option<set<string>>, filter: Option<set<string>>,
                                      corrections: Corrections, k: nat)
    requires Parse(lines, validation, filter, corrections).Ok?
    requires k < |NumberedLines(lines, 0)|
    ensures var (lineIndex, line) := NumberedLines(lines, 0)[k];
      && lineIndex < |lines| && line == Strip(lines[lineIndex])
      && Parse(lines, validation, filter, corrections).value.texts[k]
         == ParseLine(line, lineIndex, validation, filter, corrections).value
  {
    var p := NumberedLines(lines, 0)[k];
    NumberedLinesSound(lines, 0);
    var parseLine := (p: (nat, string)) => ParseLine(p.1, p.0, validation, filter, corrections);
    assert parseLine(p) == ParseLine(p.1, p.0, validation, filter, corrections);
  }

  /** The text of a parsed line splits on whitespace back into its tokens:
      every entry is whitespace-free, and so is its stripped first field. */
  lemma {:induction false} ParsedLineWords(line: string, lineIndex: nat, validation: Option<set<string>>,
                                           filter: Option<set<string>>, corrections: Corrections)
    requires ParseLine(line, lineIndex, validation, filter, corrections).Ok?
    ensures var t := ParseLine(line, lineIndex, validation, filter, corrections).value;
      Words(t.text) == t.tokens
  {
    var t := ParseLine(line, lineIndex, validation, filter, corrections).value;
    var ws := Words(line);
    ParseEntriesSpec(ws, lineIndex, validation, filter, corrections);
    forall j | 0 <= j < |t.tokens| ensures |t.tokens[j]| > 0 && NoSpace(t.tokens[j]) {
      var fields := Split(ws[j], '|');
      assert ParseEntry(ws[j], lineIndex, j, validation, filter, corrections).Ok?;
      assert t.tokens[j] == Strip(fields[0]);
      FieldNoSpace(ws[j], 0);
      StripSpec(fields[0]);
    }
    WordsOfJoin(t.tokens);
  }

  /** A field of a whitespace-free entry is whitespace-free. */
  lemma {:induction false} FieldNoSpace(entry: string, k: nat)
    requires NoSpace(entry)
    requires k < |Split(entry, '|')|
    ensures NoSpace(Split(entry, '|')[k])
  {
    SplitNoSpace(entry, '|');
  }

  // ---------------------------------------------------------------------
  // The partner: writing entries

  /** The entry written from a token, the five columns the parser ignores,
      and a tag string. */
  function RenderEntry(token: string, middle: seq<string>, tag: string): string
    requires |middle| == 5
  {
    Join([token] + middle + [tag], "|")
  }

  /** A written entry splits on `|` back into its seven columns. */
  lemma {:induction false} SplitRenderedEntry(token: string, middle: seq<string>, tag: string)
    requires '|' !in token && '|' !in tag
    requires |middle| == 5 && forall k | 0 <= k < 5 :: '|' !in middle[k]
    ensures Split(RenderEntry(token, middle, tag), '|') == [token] + middle + [tag]
  {
    var fields := [token] + middle + [tag];
    forall k | 0 <= k < |fields| ensures '|' !in fields[k] {
      if 0 < k < 6 {
        assert fields[k] == middle[k - 1];
      }
    }
    SplitOfJoin(fields, '|');
  }

  /** Round trip for one entry: an entry written from a whitespace-free
      token the parser accepts and the tag string of a group of well-formed
      codes that pass validation reads back as that token and that tag
      string, filtered, provided the correction tables leave the entry
      alone. */
  lemma {:induction false} ParseRenderedEntry(token: string, middle: seq<string>, g: TagGroup,
                                              lineIndex: nat, tokenIndex: nat, validation: Option<set<string>>,
                                              filter: Option<set<string>>, corrections: Corrections)
    requires NoSpace(token) && '|' !in token && TokenAllowed(token)
    requires |middle| == 5 && forall k | 0 <= k < 5 :: '|' !in middle[k]
    requires |g.tags| > 0
    requires forall j | 0 <= j < |g.tags| :: IsWellFormedCode(g.tags[j].code)
    requires GroupAllowed(g, validation)
    requires corrections.relabel(JoinedCodes(g), lineIndex, tokenIndex, token) == JoinedCodes(g)
    requires !corrections.skip(JoinedCodes(g), lineIndex, tokenIndex, token)
    ensures ParseEntry(RenderEntry(token, middle, JoinedCodes(g)), lineIndex, tokenIndex, validation, filter, corrections)
      == Ok((token, Filtered(JoinedCodes(g), filter)))
  {
    var tag := JoinedCodes(g);
    JoinedCodesWord(g);
    JoinedCodesAvoid(g, '|');
    SplitRenderedEntry(token, middle, tag);
    var fields := Split(RenderEntry(token, middle, tag), '|');
    assert |fields| == 7 && fields[0] == token && fields[6] == tag;
    StripSpec(token);
    StripSpec(tag);
    ValidateGroupTag(g, validation, filter);
  }
}
