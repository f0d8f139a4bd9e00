/** The Benedict English corpus (`EnglishBenedict`): one sentence per line,
    each whitespace unit written `text_tag` with an optional MWE marker
    `[i<id>.<total>.<pos>` after the tag, e.g.
    `Turkish_F2/O4.5[i86.2.1 grind_F2/O4.5[i86.2.2 ,_PUNC`. */
module EnglishBenedict {
  import opened Outcome
  import opened Text
  import opened Tags
  import opened Dataset
  import opened Labels
  import opened EnglishMwe

  /** The tag strings the corpus writes for punctuation; each is read as
      `PUNCT` without consulting the tag grammar. */
  predicate IsPunctPayload(s: string) {
    s == "PUNC" || s == "-" || s == "." || s == "," || s == "!"
  }

  /** The tag part of what follows a unit's underscore: everything before
      the first `[i`.  A `[i` at the very start leaves no tag and fails. */
  function TagString(info: string): (r: Result<string>)
    ensures r.Ok? <==> !MatchAt(info, "[i", 0)
    ensures r.Ok? ==> StartsWith(info, r.value)
    ensures r.Ok? ==> r.value == info || MatchAt(info, "[i", |r.value|)
    ensures r.Ok? ==> forall q: nat | q < |r.value| :: !MatchAt(info, "[i", q)
  {
    match Find(info, "[i")
    case None => Ok(info)
    case Some(p) => if p == 0 then Err else Ok(info[..p])
  }

  /** One unit of `validate_text_string_format`: it must split on `_` into
      a non-empty text and a part whose tag string (see `TagString`) is a
      punctuation payload, read as `PUNCT`, or parses, read as the
      `/`-joined codes of its first group.  Gives (text, tag). */
  function ValidateUnit(unit: string): (r: Result<(string, string)>)
    ensures r.Ok? <==>
      && |Split(unit, '_')| == 2
      && |Split(unit, '_')[0]| > 0
      && TagString(Split(unit, '_')[1]).Ok?
      && var ts := TagString(Split(unit, '_')[1]).value;
         IsPunctPayload(ts) || FirstGroupCodes(ts).Ok?
    ensures r.Ok? ==> r.value.0 == Split(unit, '_')[0] && '_' !in r.value.0
    ensures r.Ok? ==>
      var ts := TagString(Split(unit, '_')[1]).value;
      r.value.1 == if IsPunctPayload(ts) then "PUNCT" else FirstGroupCodes(ts).value
  {
    var parts := Split(unit, '_');
    if |parts| != 2 then Err
    else if |parts[0]| == 0 then Err
    else
      var ts :- TagString(parts[1]);
      if IsPunctPayload(ts) then Ok((parts[0], "PUNCT"))
      else if |ts| == 0 then Err
      else
        var tag :- FirstGroupCodes(ts);
        Ok((parts[0], tag))
  }

  /** `validate_text_string_format`: blank text fails; otherwise every
      whitespace unit must be valid, and the result is the text unchanged
      with the units' texts and tags, in order. */
  function ValidateTextStringFormat(text: string): (r: Result<(string, seq<string>, seq<string>)>)
    ensures r.Ok? <==> !IsBlank(text) && forall i | 0 <= i < |Words(text)| :: ValidateUnit(Words(text)[i]).Ok?
    ensures r.Ok? ==> r.value.0 == text && |r.value.1| == |Words(text)| && |r.value.2| == |Words(text)|
    ensures r.Ok? ==> forall i | 0 <= i < |Words(text)| ::
      (r.value.1[i], r.value.2[i]) == ValidateUnit(Words(text)[i]).value
  {
    if IsBlank(text) then Err
    else
      match MapResult(Words(text), ValidateUnit)
      case Err => Err
      case Ok(pairs) =>
        Ok((text,
            seq(|pairs|, i requires 0 <= i < |pairs| => pairs[i].0),
            seq(|pairs|, i requires 0 <= i < |pairs| => pairs[i].1)))
  }

  // ---------------------------------------------------------------------
  // The partner: writing units back

  /** The unit a token and its tag are written as. */
  function RenderUnit(token: string, tag: string): string {
    token + "_" + tag
  }

  /** One unit per token. */
  function RenderUnits(tokens: seq<string>, tags: seq<string>): seq<string>
    requires |tokens| == |tags|
  {
    seq(|tokens|, i requires 0 <= i < |tokens| => RenderUnit(tokens[i], tags[i]))
  }

  /** A line of units, one per token, separated by single spaces. */
  function RenderLine(tokens: seq<string>, tags: seq<string>): string
    requires |tokens| == |tags|
  {
    Join(RenderUnits(tokens, tags), " ")
  }

  /** Tokens and tag groups a line can be written from: as many of each,
      at least one; every token non-empty without whitespace or `_`; every
      group non-empty with well-formed codes. */
  predicate Writable(tokens: seq<string>, groups: seq<TagGroup>) {
    && |tokens| == |groups| > 0
    && (forall i | 0 <= i < |tokens| :: |tokens[i]| > 0 && NoSpace(tokens[i]) && '_' !in tokens[i])
    && (forall i | 0 <= i < |groups| :: |groups[i].tags| > 0)
    && (forall i, j | 0 <= i < |groups| && 0 <= j < |groups[i].tags| :: IsWellFormedCode(groups[i].tags[j].code))
  }

  /** The tag string of a group of well-formed codes is neither a
      punctuation payload nor holds `[`, `_` or whitespace. */
  lemma {:induction false} JoinedCodesTag(g: TagGroup)
    requires |g.tags| > 0
    requires forall j | 0 <= j < |g.tags| :: IsWellFormedCode(g.tags[j].code)
    ensures !IsPunctPayload(JoinedCodes(g))
    ensures '_' !in JoinedCodes(g) && '[' !in JoinedCodes(g)
    ensures |JoinedCodes(g)| > 0 && NoSpace(JoinedCodes(g))
  {
    var p := JoinedCodes(g);
    JoinedCodesWord(g);
    PunctPayloadShape(p);
    assert IsWellFormedCode(Split(p, '/')[0]);
    JoinedCodesAvoid(g, '_');
    JoinedCodesAvoid(g, '[');
  }

  /** A punctuation payload has no `/` and is no well-formed code. */
  lemma {:induction false} PunctPayloadShape(p: string)
    ensures IsPunctPayload(p) ==> Split(p, '/') == [p] && !IsWellFormedCode(p)
  {
    if IsPunctPayload(p) {
      assert '/' !in p;
      SplitOfJoin([p], '/');
      if p == "PUNC" {
        assert !IsDigit(p[1..][0]);
      }
    }
  }

  /** A unit written from a token without `_` and the tag string of a group
      of well-formed codes validates back to that token and tag string. */
  lemma {:induction false} ValidateRenderedUnit(token: string, g: TagGroup)
    requires |token| > 0 && '_' !in token
    requires |g.tags| > 0
    requires forall j | 0 <= j < |g.tags| :: IsWellFormedCode(g.tags[j].code)
    ensures ValidateUnit(RenderUnit(token, JoinedCodes(g))) == Ok((token, JoinedCodes(g)))
  {
    var tag := JoinedCodes(g);
    JoinedCodesTag(g);
    assert Join([token, tag], "_") == RenderUnit(token, tag);
    SplitOfJoin([token, tag], '_');
    NoBracketNoMarker(tag);
    assert TagString(tag) == Ok(tag);
    ParseJoinedCodes(g);
    assert JoinedCodes(BareGroup(g)) == tag;
  }

  /** The whitespace units of a written line are the written units. */
  lemma {:induction false} RenderedLineWords(tokens: seq<string>, groups: seq<TagGroup>)
    requires Writable(tokens, groups)
    ensures Words(RenderLine(tokens, GroupTags(groups))) == RenderUnits(tokens, GroupTags(groups))
  {
    var tags := GroupTags(groups);
    var units := RenderUnits(tokens, tags);
    forall i | 0 <= i < |units| ensures |units[i]| > 0 && NoSpace(units[i]) {
      JoinedCodesTag(groups[i]);
      assert Join([tokens[i], tags[i]], "_") == units[i];
      JoinNoSpace([tokens[i], tags[i]], "_");
    }
    WordsOfJoin(units);
  }

  /** Round trip: a line written from writable tokens and groups validates
      to exactly that line, those tokens and the groups' tag strings. */
  lemma {:induction false} ValidateRenderedLine(tokens: seq<string>, groups: seq<TagGroup>)
    requires Writable(tokens, groups)
    ensures var line := RenderLine(tokens, GroupTags(groups));
      ValidateTextStringFormat(line) == Ok((line, tokens, GroupTags(groups)))
  {
    var tags := GroupTags(groups);
    var units := RenderUnits(tokens, tags);
    var line := RenderLine(tokens, tags);
    RenderedLineWords(tokens, groups);
    forall i | 0 <= i < |units| ensures ValidateUnit(units[i]) == Ok((tokens[i], tags[i])) {
      ValidateRenderedUnit(tokens[i], groups[i]);
    }
    var pairs := seq(|units|, i requires 0 <= i < |units| => (tokens[i], tags[i]));
    MapResultAllOk(units, ValidateUnit, pairs);
    var r := ValidateTextStringFormat(line);
    assert r.value.1 == tokens;
    assert r.value.2 == tags;
  }

  // ---------------------------------------------------------------------
  // parse

  /** The step of `parse` for one stripped, non-blank line: validate its
      format, reject a token that itself parses as a tag group, filter the
      tags and then validate what is left (`FilterThenValidate`), and read
      the MWE sets from the line.  The record holds the line itself as its
      text. */
  function ParseLine(line: string, validation: Option<set<string>>, filter: Option<set<string>>)
    : (r: Result<EvaluationTexts>)
    ensures var v := ValidateTextStringFormat(line);
      r.Ok? <==>
        && v.Ok?
        && (forall i | 0 <= i < |v.value.1| :: !ParsesAsTags(v.value.1[i]))
        && FilterThenValidate(v.value.2, validation, filter).Ok?
        && MweIndexes(line).Ok?
    ensures r.Ok? ==> ListsMatch(r.value)
    ensures r.Ok? ==>
      var v := ValidateTextStringFormat(line).value;
      && r.value.text == line
      && r.value.tokens == v.1
      && r.value.semanticTags == Some(FilterTags(v.2, filter))
      && r.value.mweIndexes == Some(MweIndexes(line).value)
      && r.value.lemmas.None? && r.value.posTags.None?
  {
    var v :- ValidateTextStringFormat(line);
    var (text, tokens, tags) := v;
    if exists i | 0 <= i < |tokens| :: ParsesAsTags(tokens[i]) then Err
    else
      var kept :- FilterThenValidate(tags, validation, filter);
      var mwes :- MweIndexes(text);
      MakeTexts(text, tokens, None, None, Some(kept), Some(mwes))
  }

  /** `EnglishBenedict.parse` over the lines of the file: every stripped,
      non-blank line becomes one text, in order (see `ParseFails`,
      `ParseSucceeds` and `ParseTexts`), and one bad line fails the whole
      parse.  The dataset is called `Benedict English`, holds sentences, and
      records the label filter it was given. */
  function Parse(lines: seq<string>, validation: Option<set<string>>, filter: Option<set<string>>)
    : (r: Result<EvaluationDataset>)
    ensures r.Ok? ==> r.value.name == "Benedict English" && r.value.textLevel == Sentence
    ensures r.Ok? ==> r.value.labelsRemoved == filter
    ensures r.Ok? ==> |r.value.texts| == |Cleaned(lines)|
    ensures r.Ok? ==> ValidDataset(r.value)
  {
    var texts :- MapResult(Cleaned(lines), l => ParseLine(l, validation, filter));
    Ok(EvaluationDataset("Benedict English", Sentence, filter, texts))
  }

  /** One bad line fails the whole parse. */
  lemma {:induction false} ParseFails(lines: seq<string>, validation: Option<set<string>>, filter: Option<set<string>>, i: nat)
    requires i < |Cleaned(lines)|
    requires ParseLine(Cleaned(lines)[i], validation, filter).Err?
    ensures Parse(lines, validation, filter).Err?
  {
    var parseLine := l => ParseLine(l, validation, filter);
    assert !parseLine(Cleaned(lines)[i]).Ok?;
  }

  /** When every line parses, so does the file. */
  lemma {:induction false} ParseSucceeds(lines: seq<string>, validation: Option<set<string>>, filter: Option<set<string>>)
    requires forall i | 0 <= i < |Cleaned(lines)| :: ParseLine(Cleaned(lines)[i], validation, filter).Ok?
    ensures Parse(lines, validation, filter).Ok?
  {
    var ls := Cleaned(lines);
    var parseLine := l => ParseLine(l, validation, filter);
    forall i | 0 <= i < |ls| ensures parseLine(ls[i]).Ok? {
    }
  }

  /** The text of a parsed file at position `i` is the parse of its `i`th
      stripped, non-blank line. */
  lemma {:induction false} ParseTexts(lines: seq<string>, validation: Option<set<string>>, filter: Option<set<string>>, i: nat)
    requires Parse(lines, validation, filter).Ok?
    requires i < |Cleaned(lines)|
    ensures Parse(lines, validation, filter).value.texts[i] == ParseLine(Cleaned(lines)[i], validation, filter).value
  {
    var parseLine := l => ParseLine(l, validation, filter);
    assert parseLine(Cleaned(lines)[i]) == ParseLine(Cleaned(lines)[i], validation, filter);
  }

  /** No unit carries a mark: there are no raw ids. */
  lemma {:induction false} NoMarkedIds(ms: seq<UnitMark>)
    requires forall i | 0 <= i < |ms| :: ms[i].None?
    ensures MarkedIds(ms) == {}
  {
    forall id: nat ensures id !in MarkedIds(ms) {
      MarkedIdsMembers(ms, id);
    }
  }

  /** A string without `[` holds neither a marker nor `[i`. */
  lemma {:induction false} NoBracketNoMarker(s: string)
    requires '[' !in s
    ensures FirstMarkerFrom(s, 0).None? && !Contains(s, "[i")
  {
    forall q: nat ensures !MatchAt(s, "[i", q) {
      if q + 2 <= |s| {
        assert s[q..q + 2][0] == s[q];
      }
    }
  }

  /** A unit written from a token and the tag string of a group of
      well-formed codes carries no MWE marker. */
  lemma {:induction false} RenderedUnitUnmarked(token: string, g: TagGroup)
    requires '_' !in token
    requires |g.tags| > 0
    requires forall j | 0 <= j < |g.tags| :: IsWellFormedCode(g.tags[j].code)
    ensures UnitMarker(RenderUnit(token, JoinedCodes(g))) == Ok(None)
  {
    var tag := JoinedCodes(g);
    JoinedCodesTag(g);
    assert Join([token, tag], "_") == RenderUnit(token, tag);
    SplitOfJoin([token, tag], '_');
    NoBracketNoMarker(tag);
  }

  /** A written line has no MWE markers: every token gets the empty set. */
  lemma {:induction false} RenderedLineUnmarked(tokens: seq<string>, groups: seq<TagGroup>)
    requires Writable(tokens, groups)
    ensures MweIndexes(RenderLine(tokens, GroupTags(groups))) == Ok(NoMwes(|tokens|))
  {
    var tags := GroupTags(groups);
    var units := RenderUnits(tokens, tags);
    var line := RenderLine(tokens, tags);
    RenderedLineWords(tokens, groups);
    var ms := seq(|units|, i requires 0 <= i < |units| => None);
    forall i | 0 <= i < |units| ensures UnitMarker(units[i]) == Ok(ms[i]) {
      RenderedUnitUnmarked(tokens[i], groups[i]);
    }
    MapResultAllOk(units, UnitMarker, ms);
    NoMarkedIds(ms);
    MweIndexesOfMarks(line, ms);
    assert MweSets(ms) == NoMwes(|tokens|);
  }

  /** Round trip through `parse` for one line: with neither validation nor
      filter, a line written from writable tokens that are not tags gives
      back exactly those tokens and the groups' tag strings, with an empty
      MWE set for every token. */
  lemma {:induction false} ParseRenderedLine(tokens: seq<string>, groups: seq<TagGroup>)
    requires Writable(tokens, groups)
    requires forall i | 0 <= i < |tokens| :: !ParsesAsTags(tokens[i])
    ensures var line := RenderLine(tokens, GroupTags(groups));
      ParseLine(line, None, None)
        == Ok(EvaluationTexts(line, tokens, None, None, Some(GroupTags(groups)), Some(NoMwes(|tokens|))))
  {
    ValidateRenderedLine(tokens, groups);
    RenderedLineUnmarked(tokens, groups);
  }
}
