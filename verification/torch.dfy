/** The ToRCH corpus (`Torch`): CSV rows, one per token, with the columns
    `Token`, `Corrected-USAS`, `sentence-break` and optionally
    `Predicted-USAS`.  A row whose break flag is true ends a sentence; the
    sentence has no MWEs. */
module Torch {
  import opened Outcome
  import opened Text
  import opened Tags
  import opened Dataset
  import opened Labels

  /** The columns of one CSV row the parser reads, as found in the file;
      `predicted` is `None` when the file has no `Predicted-USAS` column. */
  datatype Row = Row(token: string, corrected: string, predicted: Option<string>, sentenceBreak: string)

  /** A row once checked: its token, its label and whether it ends a
      sentence. */
  datatype Item = Item(token: string, tag: string, isBreak: bool)

  /** The rows (numbered as in the file, the header being row 1) whose
      corrected label `N` stands for the quantifier tag `N5`. */
  const QuantifierRows: set<nat> := {
    23, 53, 88, 92, 111, 148, 165, 191, 252, 285, 321, 389, 535, 559, 620, 680, 791, 820,
    834, 885, 914, 941, 1026, 1036, 1049, 1102, 1109, 1113, 1117, 1125, 1129, 1136, 1162, 1174, 1199
  }

  /** The number the parser gives the row at position `k` of the data: the
      header is row 1, so data starts at row 2. */
  function RowNumber(k: nat): (n: nat)
    ensures n >= 2
  {
    k + 2
  }

  // ---------------------------------------------------------------------
  // label_string_to_labels

  /** The pieces of a label string before cleaning: split on the
      full-width semicolon when there is one, else on commas when there is
      one, else on whitespace. */
  function LabelPieces(s: string): (ps: seq<string>)
    ensures '；' in s ==> ps == Split(s, '；')
    ensures '；' !in s && ',' in s ==> ps == Split(s, ',')
    ensures '；' !in s && ',' !in s ==> ps == Words(s)
  {
    if '；' in s then Split(s, '；')
    else if ',' in s then Split(s, ',')
    else Words(s)
  }

  /** The nested `label_string_to_labels`: the pieces, each stripped,
      empty ones dropped. */
  function LabelStringToLabels(s: string): (r: seq<string>)
  {
    Cleaned(LabelPieces(s))
  }

  /** A label string with no separator and no whitespace is its only
      label. */
  lemma {:induction false} SingleLabel(s: string)
    requires |s| > 0 && NoSpace(s) && '；' !in s && ',' !in s
    ensures LabelStringToLabels(s) == [s]
  {
    WordsOfWord(s);
    StripSpec(s);
    assert Cleaned([s]) == [Strip(s)] + Cleaned([s][1..]);
  }

  /** Round trip: clean labels without the full-width semicolon, at least
      two of them, written joined by it, read back as themselves. */
  lemma {:induction false} LabelsRoundTrip(ls: seq<string>)
    requires |ls| >= 2
    requires forall i | 0 <= i < |ls| :: |ls[i]| > 0 && Strip(ls[i]) == ls[i] && '；' !in ls[i]
    ensures LabelStringToLabels(Join(ls, "；")) == ls
  {
    var s := Join(ls, "；");
    assert s == ls[0] + "；" + Join(ls[1..], "；");
    assert s[|ls[0]|] == '；';
    SplitOfJoin(ls, '；');
    CleanedKeepsClean(ls);
  }

  /** The nested `validate_first_label`: there must be a label, and only
      the first one is validated and filtered (`ValidateLabel`); the rest
      are ignored. */
  function ValidateFirstLabel(labels: seq<string>, validation: Option<set<string>>, filter: Option<set<string>>)
    : (r: Result<string>)
    ensures |labels| == 0 ==> r.Err?
    ensures |labels| > 0 ==> r == ValidateLabel(labels[0], validation, filter)
  {
    if |labels| == 0 then Err else ValidateLabel(labels[0], validation, filter)
  }

  // ---------------------------------------------------------------------
  // One row

  /** The break column: `true` or `false` in any letter case, after
      stripping; anything else fails (a `KeyError` in the repository). */
  function ParseBreak(s: string): (r: Result<bool>)
    ensures r.Ok? <==> Lower(Strip(s)) == "true" || Lower(Strip(s)) == "false"
    ensures r.Ok? ==> (r.value <==> Lower(Strip(s)) == "true")
  {
    var key := Lower(Strip(s));
    if key == "true" then Ok(true)
    else if key == "false" then Ok(false)
    else Err
  }

  /** Round trip: a flag written as `true` or `false` reads back. */
  lemma {:induction false} BreakRoundTrip(b: bool)
    ensures ParseBreak(if b then "true" else "false") == Ok(b)
  {
    var w := if b then "true" else "false";
    StripUnpadded(w);
    assert Lower(w) == w;
  }

  /** The two fixes applied to the stripped corrected label before anything
      else: `N` on a quantifier row becomes `N5`, and an empty label becomes
      `PUNCT` when the predicted label (stripped) is `PUNCT`. */
  function CorrectedLabel(row: Row, rowNumber: nat): (c: string)
    ensures rowNumber in QuantifierRows && Strip(row.corrected) == "N" ==> c == "N5"
    ensures Strip(row.corrected) == "" && row.predicted.Some? && Strip(row.predicted.value) == "PUNCT" ==> c == "PUNCT"
    ensures !(rowNumber in QuantifierRows && Strip(row.corrected) == "N")
         && !(Strip(row.corrected) == "" && row.predicted.Some? && Strip(row.predicted.value) == "PUNCT")
         ==> c == Strip(row.corrected)
  {
    var c := Strip(row.corrected);
    var c := if rowNumber in QuantifierRows && c == "N" then "N5" else c;
    if c == "" && row.predicted.Some? && Strip(row.predicted.value) == "PUNCT" then "PUNCT" else c
  }

  /** The nested `validate_token`: non-empty and not itself a tag; unlike
      CorCenCC there is no exemption. */
  predicate TokenAllowed(token: string) {
    |token| > 0 && !ParsesAsTags(token)
  }

  /** One row, numbered `rowNumber`: the corrected label is fixed
      (`CorrectedLabel`); a row the skip table lists (`skip`, looking at the
      row number and the fixed label) gets the label `""`, any other row the
      validated and filtered first label of its label string; then the
      stripped token is checked and the break column read. */
  function ParseRow(row: Row, rowNumber: nat, validation: Option<set<string>>, filter: Option<set<string>>,
                    skip: (nat, string) -> bool): (r: Result<Item>)
    ensures var c := CorrectedLabel(row, rowNumber);
      r.Ok? <==>
        && (skip(rowNumber, c) || ValidateFirstLabel(LabelStringToLabels(c), validation, filter).Ok?)
        && TokenAllowed(Strip(row.token))
        && ParseBreak(row.sentenceBreak).Ok?
    ensures var c := CorrectedLabel(row, rowNumber);
      r.Ok? ==>
        && r.value.token == Strip(row.token)
        && r.value.tag == (if skip(rowNumber, c) then "" else ValidateFirstLabel(LabelStringToLabels(c), validation, filter).value)
        && r.value.isBreak == ParseBreak(row.sentenceBreak).value
  {
    var token := Strip(row.token);
    var c := CorrectedLabel(row, rowNumber);
    var tag :- if skip(rowNumber, c) then Ok("") else ValidateFirstLabel(LabelStringToLabels(c), validation, filter);
    if !TokenAllowed(token) then Err
    else
      var isBreak :- ParseBreak(row.sentenceBreak);
      Ok(Item(token, tag, isBreak))
  }

  /** Round trip for one row: a row holding a whitespace-free token the
      parser accepts, the tag string of a group of well-formed codes that
      pass validation as its corrected label, and a break flag written as
      `true` or `false`, reads back as that token, that tag string filtered
      and that flag, provided the quantifier fix and the skip table leave
      the row alone. */
  lemma {:induction false} ParseRenderedRow(token: string, g: TagGroup, predicted: Option<string>, isBreak: bool,
                                            rowNumber: nat, validation: Option<set<string>>,
                                            filter: Option<set<string>>, skip: (nat, string) -> bool)
    requires NoSpace(token) && TokenAllowed(token)
    requires |g.tags| > 0
    requires forall j | 0 <= j < |g.tags| :: IsWellFormedCode(g.tags[j].code)
    requires GroupAllowed(g, validation)
    requires !(rowNumber in QuantifierRows && JoinedCodes(g) == "N")
    requires !skip(rowNumber, JoinedCodes(g))
    ensures ParseRow(Row(token, JoinedCodes(g), predicted, if isBreak then "true" else "false"),
                     rowNumber, validation, filter, skip)
      == Ok(Item(token, Filtered(JoinedCodes(g), filter), isBreak))
  {
    var tag := JoinedCodes(g);
    JoinedCodesWord(g);
    JoinedCodesAvoid(g, '；');
    JoinedCodesAvoid(g, ',');
    StripSpec(token);
    StripSpec(tag);
    var row := Row(token, tag, predicted, if isBreak then "true" else "false");
    assert CorrectedLabel(row, rowNumber) == tag;
    SingleLabel(tag);
    ValidateGroupTag(g, validation, filter);
    BreakRoundTrip(isBreak);
  }

  // ---------------------------------------------------------------------
  // Sentence grouping

  /** The rows still to come, grouped after the open sentence `current`:
      a break row closes the sentence it joins, and a non-empty open
      sentence at the end is closed too. */
  function Sentences(items: seq<Item>, current: seq<Item>): (r: seq<seq<Item>>)
    decreases |items|
  {
    if |items| == 0 then (if |current| > 0 then [current] else [])
    else
      var open := current + [items[0]];
      if items[0].isBreak then [open] + Sentences(items[1..], [])
      else Sentences(items[1..], open)
  }

  /** The concatenation of a sequence of sequences. */
  function Flatten<T>(xss: seq<seq<T>>): (r: seq<T>)
    decreases |xss|
  {
    if |xss| == 0 then [] else xss[0] + Flatten(xss[1..])
  }

  lemma {:induction false} FlattenAppend<T>(a: seq<seq<T>>, b: seq<seq<T>>)
    ensures Flatten(a + b) == Flatten(a) + Flatten(b)
    decreases |a|
  {
    if |a| > 0 {
      assert (a + b)[1..] == a[1..] + b;
      FlattenAppend(a[1..], b);
    } else {
      assert a + b == b;
    }
  }

  /** Grouping loses and invents no row: the sentences, concatenated, are
      the open sentence followed by the rows, in order. */
  lemma {:induction false} SentencesFlatten(items: seq<Item>, current: seq<Item>)
    ensures Flatten(Sentences(items, current)) == current + items
    decreases |items|
  {
    if |items| == 0 {
      assert current + items == current;
      if |current| > 0 {
        assert Flatten([current]) == current + Flatten([current][1..]);
      }
    } else {
      var open := current + [items[0]];
      assert open + items[1..] == current + items;
      SentencesFlatten(items[1..], if items[0].isBreak then [] else open);
      if items[0].isBreak {
        assert Flatten([open] + Sentences(items[1..], [])) == open + Flatten(Sentences(items[1..], []));
      }
    }
  }

  /** Every sentence is non-empty; inside a sentence only its last row may
      be a break; and every sentence but the last ends with a break. */
  lemma {:induction false} SentencesShape(items: seq<Item>, current: seq<Item>)
    requires forall k | 0 <= k < |current| :: !current[k].isBreak
    ensures forall i | 0 <= i < |Sentences(items, current)| :: |Sentences(items, current)[i]| > 0
    ensures forall i, k | 0 <= i < |Sentences(items, current)| && 0 <= k < |Sentences(items, current)[i]| - 1 ::
      !Sentences(items, current)[i][k].isBreak
    ensures forall i | 0 <= i < |Sentences(items, current)| - 1 ::
      Sentences(items, current)[i][|Sentences(items, current)[i]| - 1].isBreak
    decreases |items|
  {
    if |items| == 0 {
      if |current| > 0 {
        assert Sentences(items, current) == [current];
      } else {
        assert Sentences(items, current) == [];
      }
    } else {
      var open := current + [items[0]];
      if items[0].isBreak {
        var rest := Sentences(items[1..], []);
        SentencesShape(items[1..], []);
        var r := Sentences(items, current);
        assert r == [open] + rest;
        forall i | 0 <= i < |r| ensures |r[i]| > 0 {
          if i > 0 { assert r[i] == rest[i - 1]; }
        }
        forall i, k | 0 <= i < |r| && 0 <= k < |r[i]| - 1 ensures !r[i][k].isBreak {
          if i > 0 { assert r[i] == rest[i - 1]; }
        }
        forall i | 0 <= i < |r| - 1 ensures r[i][|r[i]| - 1].isBreak {
          if i > 0 { assert r[i] == rest[i - 1]; }
        }
      } else {
        SentencesShape(items[1..], open);
      }
    }
  }

  /** The loop of `parse` over the checked rows: rows are appended to the
      open sentence, which a break row closes; a non-empty open sentence is
      closed after the last row. */
  method GroupSentences(items: seq<Item>) returns (sentences: seq<seq<Item>>)
    ensures sentences == Sentences(items, [])
  {
    sentences := [];
    var current: seq<Item> := [];
    for i := 0 to |items|
      invariant sentences + Sentences(items[i..], current) == Sentences(items, [])
    {
      assert items[i..][1..] == items[i + 1..];
      current := current + [items[i]];
      if items[i].isBreak {
        sentences := sentences + [current];
        current := [];
      }
    }
    assert items[|items|..] == [];
    if |current| > 0 {
      sentences := sentences + [current];
    }
  }

  /** The tokens of some checked rows. */
  function Tokens(items: seq<Item>): (r: seq<string>)
    ensures |r| == |items| && forall k | 0 <= k < |items| :: r[k] == items[k].token
  {
    seq(|items|, k requires 0 <= k < |items| => items[k].token)
  }

  /** The labels of some checked rows. */
  function ItemTags(items: seq<Item>): (r: seq<string>)
    ensures |r| == |items| && forall k | 0 <= k < |items| :: r[k] == items[k].tag
  {
    seq(|items|, k requires 0 <= k < |items| => items[k].tag)
  }

  /** The text of one sentence: the tokens joined by single spaces, the
      labels, one empty MWE set per token.  Construction always succeeds. */
  function SentenceText(sentence: seq<Item>): (t: EvaluationTexts)
    ensures t.tokens == Tokens(sentence) && t.semanticTags == Some(ItemTags(sentence))
    ensures t.text == Join(t.tokens, " ")
    ensures t.mweIndexes == Some(NoMwes(|sentence|)) && t.lemmas.None? && t.posTags.None?
    ensures MakeTexts(t.text, t.tokens, t.lemmas, t.posTags, t.semanticTags, t.mweIndexes) == Ok(t)
  {
    var tokens := Tokens(sentence);
    EvaluationTexts(Join(tokens, " "), tokens, None, None, Some(ItemTags(sentence)), Some(NoMwes(|sentence|)))
  }

  /** The rows paired with their row numbers. */
  function Numbered(rows: seq<Row>): (r: seq<(nat, Row)>)
    ensures |r| == |rows|
    ensures forall k | 0 <= k < |rows| :: r[k] == (RowNumber(k), rows[k])
  {
    seq(|rows|, k requires 0 <= k < |rows| => (RowNumber(k), rows[k]))
  }

  /** Every row checked in order, the first bad one failing the whole
      parse (see `ParseRowsSpec`). */
  function ParseRows(rows: seq<Row>, validation: Option<set<string>>, filter: Option<set<string>>,
                     skip: (nat, string) -> bool): (r: Result<seq<Item>>)
    ensures r.Ok? ==> |r.value| == |rows|
  {
    MapResult(Numbered(rows), (p: (nat, Row)) => ParseRow(p.1, p.0, validation, filter, skip))
  }

  /** The rows parse exactly when each row parses under its own row number,
      and then give each row's item in order. */
  lemma {:induction false} ParseRowsSpec(rows: seq<Row>, validation: Option<set<string>>, filter: Option<set<string>>,
                                         skip: (nat, string) -> bool)
    ensures ParseRows(rows, validation, filter, skip).Ok? <==>
      forall k | 0 <= k < |rows| :: ParseRow(rows[k], RowNumber(k), validation, filter, skip).Ok?
    ensures ParseRows(rows, validation, filter, skip).Ok? ==>
      forall k | 0 <= k < |rows| ::
        ParseRows(rows, validation, filter, skip).value[k] == ParseRow(rows[k], RowNumber(k), validation, filter, skip).value
  {
    var parseRow := (p: (nat, Row)) => ParseRow(p.1, p.0, validation, filter, skip);
    var numbered := Numbered(rows);
    forall k | 0 <= k < |rows|
      ensures parseRow(numbered[k]) == ParseRow(rows[k], RowNumber(k), validation, filter, skip)
    {
      assert numbered[k] == (RowNumber(k), rows[k]);
    }
  }

  /** `TorchParser.parse` over the data rows: every row must check, then
      the rows are grouped into sentences, one text each.  The dataset is
      called `Torch`, holds sentences, and records the label filter it was
      given. */
  function Parse(rows: seq<Row>, validation: Option<set<string>>, filter: Option<set<string>>,
                 skip: (nat, string) -> bool): (r: Result<EvaluationDataset>)
    ensures r.Ok? <==> ParseRows(rows, validation, filter, skip).Ok?
    ensures r.Ok? ==> r.value.name == "Torch" && r.value.textLevel == Sentence && r.value.labelsRemoved == filter
    ensures r.Ok? ==>
      var sentences := Sentences(ParseRows(rows, validation, filter, skip).value, []);
      |r.value.texts| == |sentences| && forall i | 0 <= i < |sentences| :: r.value.texts[i] == SentenceText(sentences[i])
    ensures r.Ok? ==> ValidDataset(r.value)
  {
    var items :- ParseRows(rows, validation, filter, skip);
    var sentences := Sentences(items, []);
    Ok(EvaluationDataset("Torch", Sentence, filter, seq(|sentences|, i requires 0 <= i < |sentences| => SentenceText(sentences[i]))))
  }

  /** The token lists of some texts. */
  function TokenLists(texts: seq<EvaluationTexts>): (r: seq<seq<string>>)
    ensures |r| == |texts| && forall i | 0 <= i < |texts| :: r[i] == texts[i].tokens
  {
    seq(|texts|, i requires 0 <= i < |texts| => texts[i].tokens)
  }

  /** The stripped tokens of the rows. */
  function RowTokens(rows: seq<Row>): (r: seq<string>)
    ensures |r| == |rows| && forall k | 0 <= k < |rows| :: r[k] == Strip(rows[k].token)
  {
    seq(|rows|, k requires 0 <= k < |rows| => Strip(rows[k].token))
  }

  /** Taking tokens commutes with concatenation. */
  lemma {:induction false} FlattenTokens(xss: seq<seq<Item>>)
    ensures Flatten(seq(|xss|, i requires 0 <= i < |xss| => Tokens(xss[i]))) == Tokens(Flatten(xss))
    decreases |xss|
  {
    var ts := seq(|xss|, i requires 0 <= i < |xss| => Tokens(xss[i]));
    if |xss| > 0 {
      FlattenTokens(xss[1..]);
      assert ts[1..] == seq(|xss[1..]|, i requires 0 <= i < |xss[1..]| => Tokens(xss[1..][i]));
      assert Tokens(xss[0] + Flatten(xss[1..])) == Tokens(xss[0]) + Tokens(Flatten(xss[1..]));
    } else {
      assert Tokens(Flatten(xss)) == [];
    }
  }

  /** The token lists of the texts grouped from some items, concatenated,
      are the items' tokens, and no text is empty. */
  lemma {:induction false} SentenceTokens(items: seq<Item>)
    ensures var sentences := Sentences(items, []);
      Flatten(seq(|sentences|, i requires 0 <= i < |sentences| => Tokens(sentences[i]))) == Tokens(items)
    ensures forall i | 0 <= i < |Sentences(items, [])| :: |Sentences(items, [])[i]| > 0
  {
    SentencesFlatten(items, []);
    SentencesShape(items, []);
    FlattenTokens(Sentences(items, []));
  }

  /** Read back, the texts of a parsed file hold every row's stripped token,
      in row order, and none is empty: grouping into sentences loses,
      duplicates and reorders nothing. */
  lemma {:induction false} ParsedTokensAreRows(rows: seq<Row>, validation: Option<set<string>>, filter: Option<set<string>>,
                                               skip: (nat, string) -> bool)
    requires Parse(rows, validation, filter, skip).Ok?
    ensures Flatten(TokenLists(Parse(rows, validation, filter, skip).value.texts)) == RowTokens(rows)
    ensures forall i | 0 <= i < |Parse(rows, validation, filter, skip).value.texts| ::
      |Parse(rows, validation, filter, skip).value.texts[i].tokens| > 0
  {
    var items := ParseRows(rows, validation, filter, skip).value;
    var sentences := Sentences(items, []);
    var texts := Parse(rows, validation, filter, skip).value.texts;
    SentenceTokens(items);
    assert TokenLists(texts) == seq(|sentences|, i requires 0 <= i < |sentences| => Tokens(sentences[i]));
    assert Tokens(items) == RowTokens(rows) by {
      ParseRowsSpec(rows, validation, filter, skip);
    }
  }
}
