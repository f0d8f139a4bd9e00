/** The shared output types of every corpus parser (`dataset.py`):
    `TextLevel`, `EvaluationTexts` with its length check, and
    `EvaluationDataset`. */
module Dataset {
  import opened Outcome

  /** The granularity of the texts of a dataset (`TextLevel`). */
  datatype TextLevel = Sentence | Paragraph | Document

  /** The string value of each level. */
  function LevelName(l: TextLevel): (s: string)
    ensures |s| > 0
  {
    match l
    case Sentence => "sentence"
    case Paragraph => "paragraph"
    case Document => "document"
  }

  /** Looking a level up by its string value, as the enumeration does: only
      the three exact member values are accepted. */
  function ParseTextLevel(s: string): (r: Result<TextLevel>)
    ensures r.Ok? <==> s == "sentence" || s == "paragraph" || s == "document"
    ensures r.Ok? ==> LevelName(r.value) == s
  {
    if s == "sentence" then Ok(Sentence)
    else if s == "paragraph" then Ok(Paragraph)
    else if s == "document" then Ok(Document)
    else Err
  }

  /** Every level is recovered from its string value, and distinct levels
      have distinct values. */
  lemma {:induction false} LevelNameRoundTrip(l: TextLevel, m: TextLevel)
    ensures ParseTextLevel(LevelName(l)) == Ok(l)
    ensures LevelName(l) == LevelName(m) ==> l == m
  {
  }

  /** One text with its per-token annotations (`EvaluationTexts`).  An
      absent annotation list is `None`; an MWE set is empty for a token
      outside every multi word expression. */
  datatype EvaluationTexts = EvaluationTexts(
    text: string,
    tokens: seq<string>,
    lemmas: Option<seq<string>>,
    posTags: Option<seq<string>>,
    semanticTags: Option<seq<string>>,
    mweIndexes: Option<seq<set<int>>>)

  /** An optional list that is absent or has exactly `n` entries. */
  predicate Fits<T>(o: Option<seq<T>>, n: nat) {
    o.None? || |o.value| == n
  }

  /** The invariant of `EvaluationTexts`: every list that is present has one
      entry per token. */
  predicate ListsMatch(t: EvaluationTexts) {
    && Fits(t.lemmas, |t.tokens|)
    && Fits(t.posTags, |t.tokens|)
    && Fits(t.semanticTags, |t.tokens|)
    && Fits(t.mweIndexes, |t.tokens|)
  }

  /** Constructing an `EvaluationTexts`, including its validator
      `check_lists_match`: the lemma list, then the POS list, then the
      semantic tag list, then the MWE list is compared with the token count,
      and the first mismatch raises.  On success the record holds exactly the
      given fields. */
  function MakeTexts(
    text: string,
    tokens: seq<string>,
    lemmas: Option<seq<string>>,
    posTags: Option<seq<string>>,
    semanticTags: Option<seq<string>>,
    mweIndexes: Option<seq<set<int>>>): (r: Result<EvaluationTexts>)
    ensures r.Ok? <==>
      && (lemmas.Some? ==> |lemmas.value| == |tokens|)
      && (posTags.Some? ==> |posTags.value| == |tokens|)
      && (semanticTags.Some? ==> |semanticTags.value| == |tokens|)
      && (mweIndexes.Some? ==> |mweIndexes.value| == |tokens|)
    ensures r.Ok? ==> r.value == EvaluationTexts(text, tokens, lemmas, posTags, semanticTags, mweIndexes)
    ensures r.Ok? ==> ListsMatch(r.value)
  {
    var number := |tokens|;
    if lemmas.Some? && number != |lemmas.value| then Err
    else if posTags.Some? && number != |posTags.value| then Err
    else if semanticTags.Some? && number != |semanticTags.value| then Err
    else if mweIndexes.Some? && number != |mweIndexes.value| then Err
    else Ok(EvaluationTexts(text, tokens, lemmas, posTags, semanticTags, mweIndexes))
  }

  /** Construction accepts a record exactly when it satisfies the invariant,
      and then gives it back unchanged. */
  lemma {:induction false} MakeTextsAcceptsValid(t: EvaluationTexts)
    ensures MakeTexts(t.text, t.tokens, t.lemmas, t.posTags, t.semanticTags, t.mweIndexes).Ok?
       <==> ListsMatch(t)
    ensures ListsMatch(t) ==>
      MakeTexts(t.text, t.tokens, t.lemmas, t.posTags, t.semanticTags, t.mweIndexes) == Ok(t)
  {
  }

  /** A record with no annotation lists is valid whatever its tokens. */
  lemma {:induction false} AllAbsentIsValid(text: string, tokens: seq<string>)
    ensures MakeTexts(text, tokens, None, None, None, None) == Ok(EvaluationTexts(text, tokens, None, None, None, None))
  {
  }

  /** `[frozenset()] * n`: one empty MWE set per token. */
  function NoMwes(n: nat): (r: seq<set<int>>)
    ensures |r| == n
    ensures forall i | 0 <= i < n :: r[i] == {}
  {
    seq(n, _ => {})
  }

  /** A parsed corpus (`EvaluationDataset`).  `labelsRemoved` is the label
      filter the parser was given, `None` when none was. */
  datatype EvaluationDataset = EvaluationDataset(
    name: string,
    textLevel: TextLevel,
    labelsRemoved: Option<set<string>>,
    texts: seq<EvaluationTexts>)

  /** Building a dataset without naming `labels_removed` leaves it `None`. */
  function NewDataset(name: string, level: TextLevel, texts: seq<EvaluationTexts>): (d: EvaluationDataset)
    ensures d.labelsRemoved.None?
    ensures d.name == name && d.textLevel == level && d.texts == texts
  {
    EvaluationDataset(name, level, None, texts)
  }

  /** Every text of the dataset satisfies the `EvaluationTexts` invariant. */
  predicate ValidDataset(d: EvaluationDataset) {
    forall i | 0 <= i < |d.texts| :: ListsMatch(d.texts[i])
  }
}
