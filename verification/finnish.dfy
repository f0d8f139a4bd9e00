/** The Benedict Finnish corpus (`FinnishBenedict`): one sentence per line,
    each whitespace unit written `text_tag`, `text_tag_i` for a token inside
    a multi word expression, or a bare punctuation token, e.g.
    `Vac_F2/O2_i pot_F2/O2_i on_A3+ .`.  Consecutive `_i` units form one MWE;
    the MWEs of a line are numbered from 1 in order. */
module FinnishBenedict {
  import opened Outcome
  import opened Text
  import opened Tags
  import opened Dataset
  import opened Labels

  /** The tokens written without a tag; each is read as `PUNCT`. */
  predicate IsSpecialPunctuation(s: string) {
    s == "-" || s == "." || s == "," || s == "!" || s == ":" || s == "(" || s == ")" || s == "\"" || s == "?"
  }

  /** One classified unit: its token, its tag string and whether it carries
      the `_i` MWE flag. */
  datatype Unit = Unit(token: string, tag: string, inMwe: bool)

  // ---------------------------------------------------------------------
  // MWE numbering

  /** Unit `j` opens a run of `_i` units: it carries the flag and the unit
      before it does not. */
  predicate OpensRun(flags: seq<bool>, j: nat)
    requires j < |flags|
  {
    flags[j] && (j == 0 || !flags[j - 1])
  }

  /** The number of runs opened among the first `n` units. */
  function RunsOpened(flags: seq<bool>, n: nat): (c: nat)
    requires n <= |flags|
    ensures c <= n
    decreases n
  {
    if n == 0 then 0 else RunsOpened(flags, n - 1) + (if OpensRun(flags, n - 1) then 1 else 0)
  }

  /** The MWE sets of a line: a flagged unit gets the number of the run it
      belongs to, counting runs from 1; any other unit the empty set. */
  function RunSets(flags: seq<bool>): (r: seq<set<int>>)
    ensures |r| == |flags|
  {
    seq(|flags|, i requires 0 <= i < |flags| => if flags[i] then {RunsOpened(flags, i + 1)} else {})
  }

  /** The loop of `validate_text_string_format` over the flags: a counter
      bumped by a flagged unit that follows an unflagged one (or starts the
      line), and the counter's value given to every flagged unit. */
  method NumberRuns(flags: seq<bool>) returns (mwes: seq<set<int>>)
    ensures mwes == RunSets(flags)
  {
    var mweIndex := 0;
    var isMwe := false;
    mwes := [];
    for i := 0 to |flags|
      invariant mweIndex == RunsOpened(flags, i)
      invariant isMwe == (i > 0 && flags[i - 1])
      invariant mwes == RunSets(flags)[..i]
    {
      if flags[i] {
        if !isMwe {
          mweIndex := mweIndex + 1;
        }
        isMwe := true;
        mwes := mwes + [{mweIndex}];
      } else {
        isMwe := false;
        mwes := mwes + [{}];
      }
    }
  }

  /** Runs are only ever opened, never closed: the count grows with the
      prefix. */
  lemma {:induction false} RunsOpenedMonotone(flags: seq<bool>, a: nat, b: nat)
    requires a <= b <= |flags|
    ensures RunsOpened(flags, a) <= RunsOpened(flags, b)
    decreases b
  {
    if a < b {
      RunsOpenedMonotone(flags, a, b - 1);
    }
  }

  /** Every flagged unit lies in a run that has been opened: its number is
      at least 1. */
  lemma {:induction false} RunNumberPositive(flags: seq<bool>, i: nat)
    requires i < |flags| && flags[i]
    ensures RunsOpened(flags, i + 1) >= 1
    decreases i
  {
    if !OpensRun(flags, i) {
      RunNumberPositive(flags, i - 1);
      RunsOpenedMonotone(flags, i, i + 1);
    }
  }

  /** Units of one unbroken run of flags share their number. */
  lemma {:induction false} SameRunSameNumber(flags: seq<bool>, i: nat, j: nat)
    requires i <= j < |flags|
    requires forall k | i <= k <= j :: flags[k]
    ensures RunsOpened(flags, i + 1) == RunsOpened(flags, j + 1)
    decreases j
  {
    if i < j {
      SameRunSameNumber(flags, i, j - 1);
      assert !OpensRun(flags, j);
    }
  }

  /** A flagged unit after an unflagged one has a larger number than any
      unit before the gap. */
  lemma {:induction false} GapNewNumber(flags: seq<bool>, i: nat, k: nat, j: nat)
    requires i < k < j < |flags|
    requires !flags[k] && flags[j]
    ensures RunsOpened(flags, i + 1) < RunsOpened(flags, j + 1)
    decreases j
  {
    RunsOpenedMonotone(flags, i + 1, k + 1);
    if OpensRun(flags, j) {
      RunsOpenedMonotone(flags, k + 1, j);
    } else {
      GapNewNumber(flags, i, k, j - 1);
      RunsOpenedMonotone(flags, j, j + 1);
    }
  }

  /** Two flagged units get the same MWE set exactly when no unflagged unit
      lies between them, and the later one never gets a smaller number; a
      flagged unit's number is at least 1, an unflagged unit's set is empty. */
  lemma {:induction false} RunSetsNumbering(flags: seq<bool>, i: nat, j: nat)
    requires i <= j < |flags|
    ensures RunSets(flags)[i] == {} <==> !flags[i]
    ensures flags[i] ==> RunSets(flags)[i] == {RunsOpened(flags, i + 1)} && RunsOpened(flags, i + 1) >= 1
    ensures flags[i] && flags[j] ==>
      (RunSets(flags)[i] == RunSets(flags)[j] <==> forall k | i <= k <= j :: flags[k])
    ensures flags[i] && flags[j] ==> RunsOpened(flags, i + 1) <= RunsOpened(flags, j + 1)
  {
    if flags[i] {
      RunNumberPositive(flags, i);
    }
    RunsOpenedMonotone(flags, i + 1, j + 1);
    if flags[i] && flags[j] {
      if forall k | i <= k <= j :: flags[k] {
        SameRunSameNumber(flags, i, j);
      } else {
        var k :| i <= k <= j && !flags[k];
        GapNewNumber(flags, i, k, j);
        assert RunsOpened(flags, i + 1) in RunSets(flags)[i];
        assert RunsOpened(flags, i + 1) !in RunSets(flags)[j];
      }
    }
  }

  // ---------------------------------------------------------------------
  // validate_text_string_format

  /** The checks every unit shares once split: the token must not be blank,
      and a tag string other than `PUNCT` is replaced by the `/`-joined
      codes of its first group. */
  function TaggedUnit(token: string, tagString: string, inMwe: bool): (r: Result<Unit>)
    ensures r.Ok? <==> !IsBlank(token) && (tagString == "PUNCT" || FirstGroupCodes(tagString).Ok?)
    ensures r.Ok? ==> r.value.token == token && r.value.inMwe == inMwe
    ensures r.Ok? ==> r.value.tag == if tagString == "PUNCT" then "PUNCT" else FirstGroupCodes(tagString).value
  {
    if IsBlank(token) then Err
    else if tagString == "PUNCT" then Ok(Unit(token, "PUNCT", inMwe))
    else
      var tag :- FirstGroupCodes(tagString);
      Ok(Unit(token, tag, inMwe))
  }

  /** One unit, by the number of its `_`-separated segments: one segment
      must be a special punctuation token, read as `PUNCT`; two are token and
      tag; three are token, tag and the MWE flag, which must be exactly `i`;
      more fail. */
  function ClassifyUnit(unit: string): (r: Result<Unit>)
    ensures |Split(unit, '_')| == 1 ==>
      (r.Ok? <==> IsSpecialPunctuation(Split(unit, '_')[0]))
    ensures |Split(unit, '_')| == 1 && r.Ok? ==> r.value == Unit(Split(unit, '_')[0], "PUNCT", false)
    ensures |Split(unit, '_')| == 3 && Split(unit, '_')[2] != "i" ==> r.Err?
    ensures |Split(unit, '_')| > 3 ==> r.Err?
    ensures r.Ok? ==> r.value.token == Split(unit, '_')[0] && !IsBlank(r.value.token)
    ensures r.Ok? ==> (r.value.inMwe <==> |Split(unit, '_')| == 3)
    ensures |Split(unit, '_')| == 2 || (|Split(unit, '_')| == 3 && Split(unit, '_')[2] == "i") ==>
      r == TaggedUnit(Split(unit, '_')[0], Split(unit, '_')[1], |Split(unit, '_')| == 3)
  {
    var parts := Split(unit, '_');
    if |parts| == 1 then
      if IsSpecialPunctuation(parts[0]) then TaggedUnit(parts[0], "PUNCT", false) else Err
    else if |parts| == 2 then TaggedUnit(parts[0], parts[1], false)
    else if |parts| == 3 then
      if parts[2] != "i" then Err else TaggedUnit(parts[0], parts[1], true)
    else Err
  }

  function UnitTokens(units: seq<Unit>): (r: seq<string>)
    ensures |r| == |units| && forall i | 0 <= i < |units| :: r[i] == units[i].token
  {
    seq(|units|, i requires 0 <= i < |units| => units[i].token)
  }

  function UnitTags(units: seq<Unit>): (r: seq<string>)
    ensures |r| == |units| && forall i | 0 <= i < |units| :: r[i] == units[i].tag
  {
    seq(|units|, i requires 0 <= i < |units| => units[i].tag)
  }

  function UnitFlags(units: seq<Unit>): (r: seq<bool>)
    ensures |r| == |units| && forall i | 0 <= i < |units| :: r[i] == units[i].inMwe
  {
    seq(|units|, i requires 0 <= i < |units| => units[i].inMwe)
  }

  /** `validate_text_string_format`: the text is stripped and must not be
      empty; every whitespace unit must classify; the record holds the
      stripped text, the units' tokens and tags, and the MWE sets numbered
      from the units' flags. */
  function ValidateTextStringFormat(text: string): (r: Result<EvaluationTexts>)
    ensures r.Ok? <==> |Strip(text)| > 0 && MapResult(Words(Strip(text)), ClassifyUnit).Ok?
    ensures r.Ok? ==>
      var units := MapResult(Words(Strip(text)), ClassifyUnit).value;
      r.value == EvaluationTexts(Strip(text), UnitTokens(units), None, None,
                                 Some(UnitTags(units)), Some(RunSets(UnitFlags(units))))
  {
    var t := Strip(text);
    if |t| == 0 then Err
    else
      var units :- MapResult(Words(t), ClassifyUnit);
      MakeTexts(t, UnitTokens(units), None, None, Some(UnitTags(units)), Some(RunSets(UnitFlags(units))))
  }

  /** A unit carries the MWE flag: it has three `_`-separated parts. */
  predicate Flagged(unit: string) {
    |Split(unit, '_')| == 3
  }

  /** The MWE sets of a valid text are numbered from its units' flags, and
      the flags are exactly its three-part units. */
  lemma {:induction false} ValidatedFlags(text: string)
    requires ValidateTextStringFormat(text).Ok?
    ensures var ws := Words(Strip(text));
      var flags := UnitFlags(MapResult(ws, ClassifyUnit).value);
      && ValidateTextStringFormat(text).value.mweIndexes.value == RunSets(flags)
      && forall k | 0 <= k < |ws| :: flags[k] == Flagged(ws[k])
  {
    var ws := Words(Strip(text));
    var units := MapResult(ws, ClassifyUnit).value;
    forall k | 0 <= k < |ws| ensures units[k].inMwe == Flagged(ws[k]) {
      assert units[k] == ClassifyUnit(ws[k]).value;
    }
  }

  /** `RunSetsNumbering` read against units whose flags are their
      three-part shape. */
  lemma {:induction false} UnitRunSets(ws: seq<string>, flags: seq<bool>, i: nat, j: nat)
    requires |flags| == |ws| && forall k | 0 <= k < |ws| :: flags[k] == Flagged(ws[k])
    requires i <= j < |ws|
    ensures RunSets(flags)[i] == {} <==> !Flagged(ws[i])
    ensures Flagged(ws[i]) && Flagged(ws[j]) ==>
      (RunSets(flags)[i] == RunSets(flags)[j] <==> forall k | i <= k <= j :: Flagged(ws[k]))
  {
    RunSetsNumbering(flags, i, j);
  }

  /** The MWE sets of a valid text, read against its units: a token's set
      is empty exactly when its unit has no `_i` flag; two flagged tokens
      share a set exactly when every unit from the one to the other is
      flagged. */
  lemma {:induction false} ValidatedMweSets(text: string, i: nat, j: nat)
    requires ValidateTextStringFormat(text).Ok?
    requires i <= j < |Words(Strip(text))|
    ensures var sets := ValidateTextStringFormat(text).value.mweIndexes.value;
      sets[i] == {} <==> !Flagged(Words(Strip(text))[i])
    ensures var sets := ValidateTextStringFormat(text).value.mweIndexes.value;
      Flagged(Words(Strip(text))[i]) && Flagged(Words(Strip(text))[j]) ==>
        (sets[i] == sets[j] <==> forall k | i <= k <= j :: Flagged(Words(Strip(text))[k]))
  {
    var ws := Words(Strip(text));
    var flags := UnitFlags(MapResult(ws, ClassifyUnit).value);
    ValidatedFlags(text);
    UnitRunSets(ws, flags, i, j);
  }

  // ---------------------------------------------------------------------
  // The partner: writing units back

  /** The unit a token, its tag and its MWE flag are written as. */
  function RenderUnit(token: string, tag: string, inMwe: bool): string {
    token + "_" + tag + (if inMwe then "_i" else "")
  }

  /** A line of units separated by single spaces. */
  function RenderLine(tokens: seq<string>, groups: seq<TagGroup>, flags: seq<bool>): string
    requires |tokens| == |groups| == |flags|
  {
    Join(RenderUnits(tokens, groups, flags), " ")
  }

  /** Tokens, tag groups and flags a line can be written from: as many of
      each, at least one; every token non-empty without whitespace or `_`;
      every group non-empty with well-formed codes. */
  predicate Writable(tokens: seq<string>, groups: seq<TagGroup>, flags: seq<bool>) {
    && |tokens| == |groups| == |flags| > 0
    && (forall i | 0 <= i < |tokens| :: |tokens[i]| > 0 && NoSpace(tokens[i]) && '_' !in tokens[i])
    && (forall i | 0 <= i < |groups| :: |groups[i].tags| > 0)
    && (forall i, j | 0 <= i < |groups| && 0 <= j < |groups[i].tags| :: IsWellFormedCode(groups[i].tags[j].code))
  }

  /** The tag string of a group of well-formed codes is a non-empty word
      without `_`. */
  lemma {:induction false} GroupTagWord(g: TagGroup)
    requires |g.tags| > 0
    requires forall j | 0 <= j < |g.tags| :: IsWellFormedCode(g.tags[j].code)
    ensures |JoinedCodes(g)| > 0 && NoSpace(JoinedCodes(g)) && '_' !in JoinedCodes(g)
  {
    JoinedCodesWord(g);
    JoinedCodesAvoid(g, '_');
  }

  /** The tag string of a group of well-formed codes reads back as itself. */
  lemma {:induction false} GroupTagParses(g: TagGroup)
    requires |g.tags| > 0
    requires forall j | 0 <= j < |g.tags| :: IsWellFormedCode(g.tags[j].code)
    ensures FirstGroupCodes(JoinedCodes(g)) == Ok(JoinedCodes(g))
  {
    JoinedCodesWord(g);
    ParseJoinedCodes(g);
    assert JoinedCodes(BareGroup(g)) == JoinedCodes(g);
  }

  /** The `_`-separated parts a unit is written from. */
  function UnitParts(token: string, tag: string, inMwe: bool): (ps: seq<string>)
    ensures |ps| == (if inMwe then 3 else 2) && ps[0] == token && ps[1] == tag
    ensures inMwe ==> ps[2] == "i"
  {
    if inMwe then [token, tag, "i"] else [token, tag]
  }

  /** A written unit is its parts joined with `_`. */
  lemma {:induction false} RenderUnitParts(token: string, tag: string, inMwe: bool)
    ensures RenderUnit(token, tag, inMwe) == Join(UnitParts(token, tag, inMwe), "_")
  {
    var ps := UnitParts(token, tag, inMwe);
    if inMwe {
      assert ps[1..] == [tag, "i"];
      assert [tag, "i"][1..] == ["i"];
      assert Join([tag, "i"], "_") == tag + "_" + "i";
      assert Join(ps, "_") == token + "_" + Join([tag, "i"], "_");
    } else {
      assert ps[1..] == [tag];
    }
  }

  /** A written unit splits on `_` into its token, its tag and, inside an
      MWE, the flag `i`. */
  lemma {:induction false} SplitRenderedUnit(token: string, tag: string, inMwe: bool)
    requires '_' !in token && '_' !in tag
    ensures Split(RenderUnit(token, tag, inMwe), '_') == UnitParts(token, tag, inMwe)
  {
    RenderUnitParts(token, tag, inMwe);
    SplitOfJoin(UnitParts(token, tag, inMwe), '_');
  }

  /** A written unit classifies back to its token, tag string and flag. */
  lemma {:induction false} ClassifyRenderedUnit(token: string, g: TagGroup, inMwe: bool)
    requires |token| > 0 && NoSpace(token) && '_' !in token
    requires |g.tags| > 0
    requires forall j | 0 <= j < |g.tags| :: IsWellFormedCode(g.tags[j].code)
    ensures ClassifyUnit(RenderUnit(token, JoinedCodes(g), inMwe)) == Ok(Unit(token, JoinedCodes(g), inMwe))
  {
    var tag := JoinedCodes(g);
    GroupTagWord(g);
    GroupTagParses(g);
    SplitRenderedUnit(token, tag, inMwe);
    assert !IsBlank(token) by {
      assert !IsSpace(token[0]);
    }
    assert TaggedUnit(token, tag, inMwe) == Ok(Unit(token, tag, inMwe));
    var parts := Split(RenderUnit(token, tag, inMwe), '_');
    if inMwe {
      assert |parts| == 3 && parts[0] == token && parts[1] == tag && parts[2] == "i";
    } else {
      assert |parts| == 2 && parts[0] == token && parts[1] == tag;
    }
  }

  /** A unit per token, written from its tag group and flag. */
  function RenderUnits(tokens: seq<string>, groups: seq<TagGroup>, flags: seq<bool>): (r: seq<string>)
    requires |tokens| == |groups| == |flags|
    ensures |r| == |tokens|
    ensures forall i | 0 <= i < |tokens| :: r[i] == RenderUnit(tokens[i], JoinedCodes(groups[i]), flags[i])
  {
    seq(|tokens|, i requires 0 <= i < |tokens| => RenderUnit(tokens[i], JoinedCodes(groups[i]), flags[i]))
  }

  /** A written unit is a non-empty word whose first character is its
      token's. */
  lemma {:induction false} RenderedUnitWord(token: string, g: TagGroup, inMwe: bool)
    requires |token| > 0 && NoSpace(token)
    requires |g.tags| > 0
    requires forall j | 0 <= j < |g.tags| :: IsWellFormedCode(g.tags[j].code)
    ensures var unit := RenderUnit(token, JoinedCodes(g), inMwe);
      |unit| > 0 && NoSpace(unit)
  {
    var tag := JoinedCodes(g);
    GroupTagWord(g);
    var ps := UnitParts(token, tag, inMwe);
    RenderUnitParts(token, tag, inMwe);
    assert forall k | 0 <= k < |ps| :: NoSpace(ps[k]) by {
      assert NoSpace("i") by { assert !IsSpace('i'); }
    }
    JoinNoSpace(ps, "_");
    assert |ps[0]| > 0;
  }

  /** A written line needs no stripping and splits on whitespace into its
      written units. */
  lemma {:induction false} RenderedLineWords(tokens: seq<string>, groups: seq<TagGroup>, flags: seq<bool>)
    requires Writable(tokens, groups, flags)
    ensures var line := RenderLine(tokens, groups, flags);
      Strip(line) == line && Words(line) == RenderUnits(tokens, groups, flags)
  {
    var units := RenderUnits(tokens, groups, flags);
    var line := RenderLine(tokens, groups, flags);
    assert line == Join(units, " ");
    forall i | 0 <= i < |units| ensures |units[i]| > 0 && NoSpace(units[i]) {
      RenderedUnitWord(tokens[i], groups[i], flags[i]);
    }
    WordsOfJoin(units);
    JoinEnds(units, " ");
    assert !IsSpace(units[0][0]);
    assert !IsSpace(units[|units| - 1][|units[|units| - 1]| - 1]);
    StripUnpadded(line);
  }

  /** Round trip: a line written from writable tokens, tag groups and MWE
      flags validates to that line, those tokens, the groups' tag strings,
      and the MWE sets numbered from the flags. */
  lemma {:induction false} ValidateRenderedLine(tokens: seq<string>, groups: seq<TagGroup>, flags: seq<bool>)
    requires Writable(tokens, groups, flags)
    ensures var line := RenderLine(tokens, groups, flags);
      ValidateTextStringFormat(line)
        == Ok(EvaluationTexts(line, tokens, None, None, Some(GroupTags(groups)), Some(RunSets(flags))))
  {
    var units := RenderUnits(tokens, groups, flags);
    var line := RenderLine(tokens, groups, flags);
    RenderedLineWords(tokens, groups, flags);
    var values := seq(|units|, i requires 0 <= i < |units| => Unit(tokens[i], JoinedCodes(groups[i]), flags[i]));
    forall i | 0 <= i < |units| ensures ClassifyUnit(units[i]) == Ok(values[i]) {
      ClassifyRenderedUnit(tokens[i], groups[i], flags[i]);
    }
    MapResultAllOk(units, ClassifyUnit, values);
    assert UnitTokens(values) == tokens;
    assert UnitTags(values) == GroupTags(groups);
    assert UnitFlags(values) == flags;
  }

  // ---------------------------------------------------------------------
  // parse

  /** The step of `parse` for one stripped, non-blank line: validate its
      format, reject a token that itself parses as a tag group, then filter
      the tags and validate what is left (`FilterThenValidate`).  The record
      keeps the validated text, tokens and MWE sets. */
  function ParseLine(line: string, validation: Option<set<string>>, filter: Option<set<string>>)
    : (r: Result<EvaluationTexts>)
    ensures var v := ValidateTextStringFormat(line);
      r.Ok? <==>
        && v.Ok?
        && (forall i | 0 <= i < |v.value.tokens| :: !ParsesAsTags(v.value.tokens[i]))
        && FilterThenValidate(v.value.semanticTags.value, validation, filter).Ok?
    ensures r.Ok? ==> ListsMatch(r.value)
    ensures r.Ok? ==>
      var v := ValidateTextStringFormat(line).value;
      r.value == v.(semanticTags := Some(FilterTags(v.semanticTags.value, filter)))
  {
    var v :- ValidateTextStringFormat(line);
    if exists i | 0 <= i < |v.tokens| :: ParsesAsTags(v.tokens[i]) then Err
    else
      var kept :- FilterThenValidate(v.semanticTags.value, validation, filter);
      MakeTexts(v.text, v.tokens, None, None, Some(kept), v.mweIndexes)
  }

  /** `FinnishBenedict.parse` over the lines of the file: every stripped,
      non-blank line becomes one text, in order (see `ParseFails`,
      `ParseSucceeds` and `ParseTexts`), and one bad line fails the whole
      parse.  The dataset is called `Benedict Finnish`, holds sentences, and
      records the label filter it was given. */
  function Parse(lines: seq<string>, validation: Option<set<string>>, filter: Option<set<string>>)
    : (r: Result<EvaluationDataset>)
    ensures r.Ok? ==> r.value.name == "Benedict Finnish" && r.value.textLevel == Sentence
    ensures r.Ok? ==> r.value.labelsRemoved == filter
    ensures r.Ok? ==> |r.value.texts| == |Cleaned(lines)|
    ensures r.Ok? ==> ValidDataset(r.value)
  {
    var texts :- MapResult(Cleaned(lines), l => ParseLine(l, validation, filter));
    Ok(EvaluationDataset("Benedict Finnish", Sentence, filter, texts))
  }

  /** One bad line fails the whole parse. */
  lemma {:induction false} ParseFails(lines: seq<string>, validation: Option<set<string>>, filter: Option<set<string>>, i: nat)
    requires i < |Cleaned(lines)|
    requires ParseLine(Cleaned(lines)[i], validation, filter).Err?
    ensures Parse(lines, validation, filter).Err?
  {
    var parseLine := l => ParseLine(l, validation, filter);
    assert !parseLine(Cleaned(lines)[i]).Ok?;
  }

  /** When every line parses, so does the file. */
  lemma {:induction false} ParseSucceeds(lines: seq<string>, validation: Option<set<string>>, filter: Option<set<string>>)
    requires forall i | 0 <= i < |Cleaned(lines)| :: ParseLine(Cleaned(lines)[i], validation, filter).Ok?
    ensures Parse(lines, validation, filter).Ok?
  {
    var ls := Cleaned(lines);
    var parseLine := l => ParseLine(l, validation, filter);
    forall i | 0 <= i < |ls| ensures parseLine(ls[i]).Ok? {
    }
  }

  /** The text of a parsed file at position `i` is the parse of its `i`th
      stripped, non-blank line. */
  lemma {:induction false} ParseTexts(lines: seq<string>, validation: Option<set<string>>, filter: Option<set<string>>, i: nat)
    requires Parse(lines, validation, filter).Ok?
    requires i < |Cleaned(lines)|
    ensures Parse(lines, validation, filter).value.texts[i] == ParseLine(Cleaned(lines)[i], validation, filter).value
  {
    var parseLine := l => ParseLine(l, validation, filter);
    assert parseLine(Cleaned(lines)[i]) == ParseLine(Cleaned(lines)[i], validation, filter);
  }

  /** Round trip through `parse` for one line: with neither validation nor
      filter, a line written from writable tokens that are not tags gives
      back exactly those tokens, the groups' tag strings and the MWE sets
      numbered from the flags. */
  lemma {:induction false} ParseRenderedLine(tokens: seq<string>, groups: seq<TagGroup>, flags: seq<bool>)
    requires Writable(tokens, groups, flags)
    requires forall i | 0 <= i < |tokens| :: !ParsesAsTags(tokens[i])
    ensures var line := RenderLine(tokens, groups, flags);
      ParseLine(line, None, None)
        == Ok(EvaluationTexts(line, tokens, None, None, Some(GroupTags(groups)), Some(RunSets(flags))))
  {
    ValidateRenderedLine(tokens, groups, flags);
  }
}
