# USAS Evaluation Framework — a Dafny model of the corpus parsers

This project models the part of the USAS Evaluation Framework that turns
annotated corpus text into evaluation records. It then proves properties of
that model. The modelled parts are:

- **The USAS tag grammar** (`Tags`).
  - `parse_usas_token_group` splits a label string into whitespace atoms, and each atom into `/`-pieces.
  - Each piece is a tag: a code (`[A-Z]\d+(\.\d+)*`, or the literal `PUNCT`) followed by `+`/`-` runs and six one-letter flags.
  - `get_all_mwe_token_indexes` is the union of half-open index ranges.
- **The shared output records** (`Dataset`).
  - `EvaluationTexts` and its check that every present list has one entry per token.
  - `TextLevel` and `EvaluationDataset`.
- **The per-token label checks** the parsers share (`Labels`).
  - CorCenCC and ToRCH *validate, then filter*: exactly one tag group, every code other than `PUNCT` in the validation set, then the whole-string filter.
  - The Benedict parsers *filter, then validate*, and exempt `PUNCT` and `""`.
  - Every parser rejects a token that itself parses as tags.
- **The Benedict English parser** (`EnglishBenedict`, `EnglishMwe`).
  - The `token_tag[i<id>.<total>.<pos>` unit validator.
  - `get_mwe_indexes`:
    - buckets marked units by raw MWE id;
    - checks each bucket's size against the total declared at the id's first occurrence;
    - renumbers the raw ids 1..k in numeric order.
- **The Benedict Finnish parser** (`FinnishBenedict`).
  - The `token_tag(_i)?` unit validator, decided by the underscore count.
  - The `(mwe_index, is_mwe)` state machine that numbers contiguous `_i` runs.
- **The CorCenCC parser** (`Corcencc`): the 7-column `|` entries, the label and token checks, and the per-line text assembly.
- **The ToRCH parser** (`Torch`).
  - The label-string splitting.
  - The first-label validation.
  - The `N`→`N5` and predicted-`PUNCT` fixes.
  - The break column.
  - The grouping of rows into sentences.

Python's exceptions become the `Err` case of `Outcome.Result`. A Python
loop that raises at the first bad element becomes `Outcome.MapResult`.
`Text` models the Python string methods the parsers use, each in terms of
Python's whitespace set:

| Python | Dafny |
|---|---|
| `str.split()` | `Words` |
| `str.split(c)` | `Split` |
| `str.strip()` | `Strip` |
| `" ".join` | `Join` |
| `str.find` | `Find` |

A file is modelled as its sequence of lines. A CSV file is modelled as its
sequence of data rows.

Each parser has a writer that renders an annotation:

- English and Finnish: `RenderLine`.
- CorCenCC: `RenderEntry`.
- ToRCH: the row built in `ParseRenderedRow`.
- The tag grammar: `Tags.Render`.

The model proves that the parser reads each writer's output back.

## Model

| member | source | states |
|---|---|---|
| Outcome.MapResult | src/usas_evaluation_framework/parsers/corcencc.py:150-343 | A loop that raises at the first bad element succeeds exactly when every element succeeds. Its results then come back one per element, in order. |
| Outcome.MapResultAllOk | src/usas_evaluation_framework/parsers/corcencc.py:150-343 | When every element succeeds with a known value, the loop returns exactly those values. |
| Tags.CodePrefixLen | src/usas_evaluation_framework/data_utils.py:12 | The `TAG_RE` match: the longest prefix of the form upper-case letter, digits, then `.digits` groups. It is empty exactly when no such prefix exists. |
| Tags.CodeCannotExtend | src/usas_evaluation_framework/data_utils.py:12 | Once the digits stop and no `.digit` follows, no longer prefix is a code. The regex match is therefore maximal. |
| Tags.FirstRun | src/usas_evaluation_framework/data_utils.py:179-181 | `search(r"\++")`: the first maximal run of the character. Its length is 0 exactly when the character is absent. |
| Tags.RemoveAllMembers | src/usas_evaluation_framework/data_utils.py:182 | `sub` of every run removes every copy of the character and keeps every other character. |
| Tags.ParseTag | src/usas_evaluation_framework/data_utils.py:163-176 | The code is chosen in priority order: the longest code prefix, else `PUNCT` when the piece starts with it, else failure. The code is well-formed, and the rest of the piece decodes the markers. |
| Tags.ParseTagMarkers | src/usas_evaluation_framework/data_utils.py:178-228 | The `+` count is the first `+` run. The `-` count is the first `-` run after every `+` is removed. The six flags are independent membership tests, and `idiom` is always false. |
| Tags.ParseCodeThen | src/usas_evaluation_framework/data_utils.py:163-172 | A code followed by a character that cannot extend it is read as exactly that code. |
| Tags.ParsePunctThen | src/usas_evaluation_framework/data_utils.py:170-172 | Anything starting `PUNCT` that has no code prefix gets the code `PUNCT`. |
| Tags.DecodeRenderedMarkers | src/usas_evaluation_framework/data_utils.py:178-215 | Decoding is inverse to writing: the marker text written for a tag decodes back to that tag. |
| Tags.ParseRender | src/usas_evaluation_framework/data_utils.py:163-228 | Round trip: any tag with a well-formed code and no idiom flag, once written, parses back to itself. |
| Tags.ParseAtom | src/usas_evaluation_framework/data_utils.py:233-236 | An atom gives one tag per `/`-piece, in order. It fails when any piece fails, including an empty piece. |
| Tags.ParseTagGroups | src/usas_evaluation_framework/data_utils.py:230-238 | Blank input gives no groups. Otherwise there is one group per whitespace atom, in order. A single bad atom fails the whole call. |
| Tags.ParsedCodesWellFormed | src/usas_evaluation_framework/data_utils.py:163-176 | Every code a successful parse returns is well-formed. |
| Tags.ParseJoinedCodes | src/usas_evaluation_framework/data_utils.py:230-238 | The `/`-joined codes of a group of well-formed codes parse back to that group, with no markers. |
| Tags.SplitJoinedCodes | src/usas_evaluation_framework/data_utils.py:234 | Splitting `/`-joined well-formed codes on `/` gives the codes back. |
| Tags.FirstGroupCodes | src/usas_evaluation_framework/parsers/benedict.py:125-130 | `"/".join` of the first group's codes. It fails when the payload is blank (no first group) or does not parse. |
| Tags.Range | src/usas_evaluation_framework/data_utils.py:114 | `range(s, e)` holds exactly the integers from `s` up to but excluding `e`. It is empty when `e <= s`. |
| Tags.MweTokenIndexes | src/usas_evaluation_framework/data_utils.py:97-115 | The result is exactly the union of the half-open ranges. Empty input gives the empty set, and overlapping or repeated ranges collapse. |
| Dataset.ParseTextLevel | src/usas_evaluation_framework/dataset.py:6-18 | Exactly the names `sentence`, `paragraph` and `document` are text levels. |
| Dataset.LevelNameRoundTrip | src/usas_evaluation_framework/dataset.py:6-18 | A level's name reads back as that level, and distinct levels have distinct names. |
| Dataset.MakeTexts | src/usas_evaluation_framework/dataset.py:45-69 | Construction succeeds exactly when each present list of lemmas, POS tags, semantic tags and MWE sets has one entry per token. The fields are then kept unchanged. |
| Dataset.MakeTextsAcceptsValid | src/usas_evaluation_framework/dataset.py:56-69 | Construction from a record's own fields succeeds exactly when the lists match, and then gives that record back. |
| Dataset.AllAbsentIsValid | src/usas_evaluation_framework/dataset.py:57-66 | A record with every optional list absent is valid, whatever its tokens. |
| Dataset.NewDataset | src/usas_evaluation_framework/dataset.py:86-89 | When no filter is given, `labels_removed` is absent. |
| Dataset.NoMwes | src/usas_evaluation_framework/parsers/corcencc.py:350 | `[frozenset()] * n` is `n` empty MWE sets. |
| Labels.ValidateLabel | src/usas_evaluation_framework/parsers/corcencc.py:86-108 | A label is accepted exactly when it is one tag group whose codes, other than `PUNCT`, are all in the validation set. The value is then the joined codes, or `""` when that whole string is filtered. A blank label fails. |
| Labels.ValidateBeforeFilter | src/usas_evaluation_framework/parsers/corcencc.py:94-108 | The filter never changes whether a label is accepted, so a filtered label must still be valid. It only replaces the accepted value. |
| Labels.ValidatedSubTags | src/usas_evaluation_framework/parsers/corcencc.py:94-103 | Every `/`-piece of an accepted label passes validation. |
| Labels.ValidateLabelIdempotent | src/usas_evaluation_framework/parsers/corcencc.py:86-103 | Validating an accepted label's value again accepts it unchanged. |
| Labels.LabelIsTag | src/usas_evaluation_framework/parsers/corcencc.py:86-103 | An accepted label's value is itself a tag string. |
| Labels.ValidateGroupTag | src/usas_evaluation_framework/parsers/corcencc.py:86-108 | The joined codes of a group of well-formed codes that pass validation are accepted. The result is that string, filtered. |
| Labels.FilterTags | src/usas_evaluation_framework/parsers/benedict.py:326-334 | The filter keeps each tag or blanks it. It blanks exactly the whole tag strings in the filter set, and changes nothing when there is no filter. |
| Labels.FilterThenValidate | src/usas_evaluation_framework/parsers/benedict.py:326-346 | A line's tags pass exactly when every filtered tag is `PUNCT`, `""`, or made only of validated `/`-pieces. The result is the filtered tags, and anything passes without a validation set. |
| Labels.FilteredTagsExempt | src/usas_evaluation_framework/parsers/benedict.py:336-341 | A tag that the filter removes escapes validation. |
| Labels.PipelinesDisagree | src/usas_evaluation_framework/parsers/corcencc.py:94-108 | For a code outside the validation set but inside the filter set, validate-then-filter fails while filter-then-validate gives `""`. |
| Labels.PipelinesDisagreeOnZ99 | src/usas_evaluation_framework/parsers/corcencc.py:94-108 | The same disagreement on the concrete label `Z99`. |
| Labels.ParseSingleCode | src/usas_evaluation_framework/data_utils.py:230-238 | A single well-formed code parses to one group holding one bare tag. |
| Labels.LowerWordIsNotTag | src/usas_evaluation_framework/parsers/benedict.py:316-325 | A word that does not start with an upper-case letter never counts as a tag, so the token check accepts it. |
| EnglishMwe.MarkerAt | src/usas_evaluation_framework/parsers/benedict.py:182 | A match of `\[i(\d+)\.(\d+)\.(\d+)` at a position is `[i`, digits and dots, and ends where the digits stop. |
| EnglishMwe.NoMarkerInside | src/usas_evaluation_framework/parsers/benedict.py:182 | No second marker starts strictly inside a marker. |
| EnglishMwe.FirstMarkerFrom | src/usas_evaluation_framework/parsers/benedict.py:192 | `search`: the leftmost position where a marker matches, or none when no position matches. |
| EnglishMwe.FindAllTwo | src/usas_evaluation_framework/parsers/benedict.py:208 | `len(findall) > 1` holds exactly when two marker matches exist at different positions. |
| EnglishMwe.UnitMarker | src/usas_evaluation_framework/parsers/benedict.py:185-189 | A unit without exactly one `_` is an error. |
| EnglishMwe.UnitMarkerSpec | src/usas_evaluation_framework/parsers/benedict.py:190-224 | A unit is marked exactly when its part after `_` holds exactly one marker. It is unmarked exactly when that part holds none and either has no `[i` or ends in `]`. The mark is the first marker's id and total. |
| EnglishMwe.MarkerIgnoresTokenText | src/usas_evaluation_framework/parsers/benedict.py:190-192 | The marker is searched only after the underscore, so the token text never changes it. |
| EnglishMwe.MarkedIdsMembers | src/usas_evaluation_framework/parsers/benedict.py:211-219 | The bucket keys are exactly the ids some unit is marked with. |
| EnglishMwe.PositionsMembers | src/usas_evaluation_framework/parsers/benedict.py:218 | An id's bucket lists exactly the positions of the units marked with it, in increasing order. |
| EnglishMwe.DeclaredTotalIsFirst | src/usas_evaluation_framework/parsers/benedict.py:212-216 | The total recorded for an id is the one declared at its first occurrence. Later totals are ignored. |
| EnglishMwe.RankBounds | src/usas_evaluation_framework/parsers/benedict.py:238-241 | The new number of an id is between 1 and the number of distinct ids. |
| EnglishMwe.RankMonotone | src/usas_evaluation_framework/parsers/benedict.py:238-241 | Renumbering keeps the numeric order of raw ids. |
| EnglishMwe.RankOfSmallest | src/usas_evaluation_framework/parsers/benedict.py:238-241 | The smallest raw id becomes 1. |
| EnglishMwe.MweSetsNumbering | src/usas_evaluation_framework/parsers/benedict.py:236-248 | An unmarked unit gets `{}`. A marked unit gets a singleton `{k}` with k between 1 and the number of ids. Two marked units share a set exactly when their raw ids are equal, and smaller raw ids get smaller numbers. |
| EnglishMwe.MweIndexes | src/usas_evaluation_framework/parsers/benedict.py:174-250 | Blank text gives `[]`. The call succeeds exactly when every unit's mark reads and every bucket's size equals its declared total. The result then has one set per unit. |
| EnglishMwe.MweIndexesNumbering | src/usas_evaluation_framework/parsers/benedict.py:236-248 | The same numbering facts, stated for the sets of a successful `get_mwe_indexes`. |
| EnglishMwe.MweIndexesUnitErr | src/usas_evaluation_framework/parsers/benedict.py:184-224 | One malformed unit anywhere fails the whole text. |
| EnglishMwe.MweIndexesOfMarks | src/usas_evaluation_framework/parsers/benedict.py:226-248 | Given the marks, the result is the renumbered sets when the counts are consistent, and an error otherwise. |
| EnglishMwe.AddMarkKeepsData | src/usas_evaluation_framework/parsers/benedict.py:211-219 | Each loop step keeps the `mwe_data` dictionary equal to the buckets of the units seen so far. |
| EnglishMwe.CollectMarks | src/usas_evaluation_framework/parsers/benedict.py:184-224 | The scanning loop succeeds exactly when every unit's mark reads. It then returns the marks and the bucket dictionary for them. |
| EnglishMwe.CheckCounts | src/usas_evaluation_framework/parsers/benedict.py:226-234 | The consistency loop passes exactly when every bucket's size equals its declared total. |
| EnglishMwe.SmallestId | src/usas_evaluation_framework/parsers/benedict.py:237 | A non-empty set of raw ids has a smallest one, which is the one `sorted` puts first. |
| EnglishMwe.SortIds | src/usas_evaluation_framework/parsers/benedict.py:237 | `sorted(mwe_data.keys())` lists every key, and only keys, in strictly increasing order. |
| EnglishMwe.NumberSorted | src/usas_evaluation_framework/parsers/benedict.py:238-241 | The `enumerate` loop numbers the key at index `idx` of the sorted keys `idx + 1`. |
| EnglishMwe.IncreasingCard | src/usas_evaluation_framework/parsers/benedict.py:237 | A strictly increasing list repeats nothing: it holds as many distinct ids as it has entries. |
| EnglishMwe.RankInSorted | src/usas_evaluation_framework/parsers/benedict.py:237-241 | The id at index `idx` of the sorted keys has exactly `idx` smaller keys, so `idx + 1` is its rank. |
| EnglishMwe.Renumber | src/usas_evaluation_framework/parsers/benedict.py:236-248 | Sorting the keys, numbering them `idx + 1` in that order and mapping every unit through that table gives the rank numbering `MweSets`. `MweSets` counts the smaller ids and does not sort. |
| EnglishMwe.GetMweIndexes | src/usas_evaluation_framework/parsers/benedict.py:140-250 | The imperative `get_mwe_indexes` computes exactly `MweIndexes`. |
| EnglishBenedict.TagString | src/usas_evaluation_framework/parsers/benedict.py:109-114 | The tag payload is the part after `_` up to the first `[i`, or all of it when there is none. `[i` at position 0 is an error. |
| EnglishBenedict.ValidateUnit | src/usas_evaluation_framework/parsers/benedict.py:88-133 | A unit passes exactly when it has one `_`, a non-empty token, and a payload that is a special punctuation string or a parsable tag string. Its tag is then `PUNCT` or the first group's joined codes. |
| EnglishBenedict.ValidateTextStringFormat | src/usas_evaluation_framework/parsers/benedict.py:51-135 | Blank text fails. Otherwise every unit must pass. The result is the unchanged text with one token and one tag per unit, in order. |
| EnglishBenedict.PunctPayloadShape | src/usas_evaluation_framework/parsers/benedict.py:86 | A special punctuation payload is not a tag code, so it needs its own case. |
| EnglishBenedict.JoinedCodesTag | src/usas_evaluation_framework/parsers/benedict.py:118-130 | The joined codes of a well-formed group are a non-empty word. They hold no `_` and no `[`, and are not special punctuation. |
| EnglishBenedict.ValidateRenderedUnit | src/usas_evaluation_framework/parsers/benedict.py:88-133 | Round trip for one unit: `token_tag` reads back as that token and tag. |
| EnglishBenedict.RenderedLineWords | src/usas_evaluation_framework/parsers/benedict.py:83 | A written line splits on whitespace back into its units. |
| EnglishBenedict.ValidateRenderedLine | src/usas_evaluation_framework/parsers/benedict.py:51-135 | Round trip for a line: the validator returns the written line, its tokens and its tags. |
| EnglishBenedict.RenderedUnitUnmarked | src/usas_evaluation_framework/parsers/benedict.py:190-224 | A unit written without a marker reads as unmarked. |
| EnglishBenedict.RenderedLineUnmarked | src/usas_evaluation_framework/parsers/benedict.py:174-250 | A line written without markers gets one empty MWE set per unit. |
| EnglishBenedict.ParseLine | src/usas_evaluation_framework/parsers/benedict.py:312-356 | A line is accepted exactly when all four checks pass: the unit validator, the token-is-not-a-tag check, filter-then-validate, and `get_mwe_indexes`. The record is then the line, its tokens, the filtered tags and the MWE sets. |
| EnglishBenedict.Parse | src/usas_evaluation_framework/parsers/benedict.py:292-365 | The dataset is named `Benedict English` at sentence level. It records the filter and holds one valid text per non-blank line. |
| EnglishBenedict.ParseFails | src/usas_evaluation_framework/parsers/benedict.py:305-356 | One bad non-blank line fails the whole file. |
| EnglishBenedict.ParseSucceeds | src/usas_evaluation_framework/parsers/benedict.py:305-356 | When every non-blank line is accepted, so is the file. |
| EnglishBenedict.ParseTexts | src/usas_evaluation_framework/parsers/benedict.py:305-356 | The i-th text is the record of the i-th non-blank line. |
| EnglishBenedict.ParseRenderedLine | src/usas_evaluation_framework/parsers/benedict.py:305-356 | Round trip through the whole line parser with no validation and no filter. The written line reads back as its tokens, its tags, and no MWEs. |
| FinnishBenedict.NumberRuns | src/usas_evaluation_framework/parsers/benedict.py:439-501 | The `(mwe_index, is_mwe)` loop gives each `_i` unit the number of runs opened so far. Every other unit gets `{}`. |
| FinnishBenedict.RunsOpenedMonotone | src/usas_evaluation_framework/parsers/benedict.py:470-472 | The run counter never decreases. |
| FinnishBenedict.RunNumberPositive | src/usas_evaluation_framework/parsers/benedict.py:470-472 | An `_i` unit's number is at least 1. |
| FinnishBenedict.SameRunSameNumber | src/usas_evaluation_framework/parsers/benedict.py:470-472 | Units of one contiguous `_i` run share a number. |
| FinnishBenedict.GapNewNumber | src/usas_evaluation_framework/parsers/benedict.py:470-472 | An `_i` unit after a gap gets a larger number. |
| FinnishBenedict.RunSetsNumbering | src/usas_evaluation_framework/parsers/benedict.py:439-501 | A unit's set is empty exactly when it is not `_i`, and otherwise a singleton with a number at least 1. Two `_i` units share a set exactly when every unit between them is `_i`. Numbers never decrease along the line. |
| FinnishBenedict.TaggedUnit | src/usas_evaluation_framework/parsers/benedict.py:479-495 | A unit passes exactly when its token is not blank and its tag string is `PUNCT` or parses. Its tag is then `PUNCT` or the first group's joined codes. |
| FinnishBenedict.ClassifyUnit | src/usas_evaluation_framework/parsers/benedict.py:442-495 | Behaviour depends on the number of `_`-segments. One segment must be one of the nine punctuation tokens and becomes `PUNCT`. Two segments are token and tag. Three segments need `i` last and mark the unit as in an MWE. More segments fail. |
| FinnishBenedict.ValidateTextStringFormat | src/usas_evaluation_framework/parsers/benedict.py:430-510 | The stripped text must be non-blank and every unit must pass. The record is then the stripped text, one token and tag per unit, and the run-numbered MWE sets. |
| FinnishBenedict.ValidatedFlags | src/usas_evaluation_framework/parsers/benedict.py:455-472 | A unit is in an MWE exactly when it has three segments. |
| FinnishBenedict.UnitRunSets | src/usas_evaluation_framework/parsers/benedict.py:498-501 | Run numbering stated over the units themselves. |
| FinnishBenedict.ValidatedMweSets | src/usas_evaluation_framework/parsers/benedict.py:439-501 | In a validated line, a unit's set is empty exactly when it has no `_i`. Two `_i` units share a set exactly when all units between them are `_i`. |
| FinnishBenedict.GroupTagParses | src/usas_evaluation_framework/parsers/benedict.py:486-492 | The joined codes of a well-formed group read back as themselves. |
| FinnishBenedict.SplitRenderedUnit | src/usas_evaluation_framework/parsers/benedict.py:442 | A written unit splits on `_` into token, tag and, when it is in an MWE, `i`. |
| FinnishBenedict.ClassifyRenderedUnit | src/usas_evaluation_framework/parsers/benedict.py:441-495 | Round trip for one unit, with or without `_i`. |
| FinnishBenedict.RenderedLineWords | src/usas_evaluation_framework/parsers/benedict.py:431-434 | A written line is already stripped and splits back into its units. |
| FinnishBenedict.ValidateRenderedLine | src/usas_evaluation_framework/parsers/benedict.py:386-510 | Round trip for a line: tokens, tags and the run numbering of the written flags. |
| FinnishBenedict.ParseLine | src/usas_evaluation_framework/parsers/benedict.py:572-620 | A line is accepted exactly when the validator accepts it, no token parses as tags, and filter-then-validate passes. The record is the validator's, with the tags filtered. |
| FinnishBenedict.Parse | src/usas_evaluation_framework/parsers/benedict.py:552-629 | The dataset is named `Benedict Finnish` at sentence level. It records the filter and holds one valid text per non-blank line. |
| FinnishBenedict.ParseFails | src/usas_evaluation_framework/parsers/benedict.py:565-620 | One bad non-blank line fails the whole file. |
| FinnishBenedict.ParseSucceeds | src/usas_evaluation_framework/parsers/benedict.py:565-620 | When every non-blank line is accepted, so is the file. |
| FinnishBenedict.ParseTexts | src/usas_evaluation_framework/parsers/benedict.py:565-620 | The i-th text is the record of the i-th non-blank line. |
| FinnishBenedict.ParseRenderedLine | src/usas_evaluation_framework/parsers/benedict.py:565-620 | Round trip through the whole line parser with no validation and no filter. |
| Corcencc.NoCorrections | src/usas_evaluation_framework/parsers/corcencc.py:162-333 | The empty correction table relabels nothing and skips nothing. |
| Corcencc.ParseEntry | src/usas_evaluation_framework/parsers/corcencc.py:150-343 | An entry must have exactly 7 `\|` fields. The token is field 0 stripped, and the label is field 6 stripped and then corrected. The entry passes exactly when the label is skipped or validates, and the token is non-empty and is `S4C` or not a tag. A skipped label becomes `""`. |
| Corcencc.ParseEntriesSpec | src/usas_evaluation_framework/parsers/corcencc.py:150-343 | A line's entries pass exactly when each passes under its own position. They then give each entry's token and label, in order. |
| Corcencc.ParseLine | src/usas_evaluation_framework/parsers/corcencc.py:148-350 | The record holds the entries' tokens and labels. Its text is the tokens joined by single spaces, with one empty MWE set per token. |
| Corcencc.ParsedLineWords | src/usas_evaluation_framework/parsers/corcencc.py:345 | The text splits back into exactly the tokens. |
| Corcencc.Parse | src/usas_evaluation_framework/parsers/corcencc.py:128-361 | The dataset is named `Corcencc` at sentence level. It records the filter and holds one valid text per non-blank line. |
| Corcencc.ParseFails | src/usas_evaluation_framework/parsers/corcencc.py:141-352 | One bad non-blank line fails the whole file. |
| Corcencc.ParseSucceeds | src/usas_evaluation_framework/parsers/corcencc.py:141-352 | When every non-blank line is accepted, so is the file. |
| Corcencc.ParseTexts | src/usas_evaluation_framework/parsers/corcencc.py:141-352 | The k-th text is the record of the k-th non-blank line. That line is parsed with its physical line number, which the corrections see. |
| Corcencc.SplitRenderedEntry | src/usas_evaluation_framework/parsers/corcencc.py:151 | A written entry splits back into its seven fields. |
| Corcencc.ParseRenderedEntry | src/usas_evaluation_framework/parsers/corcencc.py:150-343 | Round trip for one entry that the corrections leave alone. It reads back as its token and its tag, filtered. |
| Torch.RowNumber | src/usas_evaluation_framework/parsers/torch.py:208 | Data rows are numbered from 2, because the header is row 1. |
| Torch.LabelPieces | src/usas_evaluation_framework/parsers/torch.py:117-125 | A label string is split on `；` if it has one, else on `,` if it has one, else on whitespace. |
| Text.CleanedKeepsClean | src/usas_evaluation_framework/parsers/torch.py:126-131 | Cleaning leaves labels that are already non-empty and stripped alone. |
| Torch.SingleLabel | src/usas_evaluation_framework/parsers/torch.py:117-131 | A separator-free word is its own single label. |
| Torch.LabelsRoundTrip | src/usas_evaluation_framework/parsers/torch.py:117-131 | Two or more clean labels joined by `；` split back into themselves. |
| Torch.ValidateFirstLabel | src/usas_evaluation_framework/parsers/torch.py:133-158 | An empty label list fails. Otherwise only the first label is validated and filtered. |
| Torch.ParseBreak | src/usas_evaluation_framework/parsers/torch.py:251 | The break column must be `true` or `false` after stripping and lower-casing. It is true exactly for `true`. |
| Torch.BreakRoundTrip | src/usas_evaluation_framework/parsers/torch.py:251 | The written flag reads back. |
| Torch.CorrectedLabel | src/usas_evaluation_framework/parsers/torch.py:209-220 | `N` becomes `N5` on a quantifier row. An empty label becomes `PUNCT` when the predicted label is `PUNCT`. Otherwise the label is the stripped column. |
| Torch.ParseRow | src/usas_evaluation_framework/parsers/torch.py:208-251 | A row passes exactly when its label is skipped or validates, its stripped token is non-empty and not a tag, and its break flag reads. The item then holds that token, the label (`""` when skipped) and the flag. |
| Torch.ParseRenderedRow | src/usas_evaluation_framework/parsers/torch.py:208-251 | Round trip for one row that the fixes and the skip table leave alone. |
| Torch.ParseRowsSpec | src/usas_evaluation_framework/parsers/torch.py:208-251 | The rows pass exactly when each row passes under its own row number, and then give each row's item. |
| Torch.SentencesFlatten | src/usas_evaluation_framework/parsers/torch.py:247-269 | Concatenating the sentences gives back the rows, in order. |
| Torch.SentencesShape | src/usas_evaluation_framework/parsers/torch.py:247-269 | No sentence is empty. A break can only end a sentence, and every sentence but the last ends with a break. |
| Torch.GroupSentences | src/usas_evaluation_framework/parsers/torch.py:247-269 | The accumulate-and-flush loop builds exactly these sentences. |
| Torch.SentenceText | src/usas_evaluation_framework/parsers/torch.py:253-258 | A sentence's record holds its tokens joined by spaces, its tags and empty MWE sets. It is a valid `EvaluationTexts`. |
| Torch.Parse | src/usas_evaluation_framework/parsers/torch.py:176-277 | The dataset is named `Torch` at sentence level and records the filter. It succeeds exactly when every row passes, with one valid text per sentence. |
| Torch.ParsedTokensAreRows | src/usas_evaluation_framework/parsers/torch.py:247-269 | The texts' tokens, concatenated, are exactly the rows' stripped tokens, and no text is empty. |
| Text.CleanedShape | src/usas_evaluation_framework/parsers/benedict.py:306-309 | Every kept line is non-empty, stripped text. ToRCH cleans label pieces the same way (`Torch.LabelStringToLabels`), so this holds for cleaned labels too. |
| Text.CleanedFrom | src/usas_evaluation_framework/parsers/benedict.py:306-309 | Every kept line is the strip of some file line. |
| Text.CleanedKeep | src/usas_evaluation_framework/parsers/benedict.py:306-309 | Every non-blank file line is kept. |
| Text.NumberedLinesSound | src/usas_evaluation_framework/parsers/corcencc.py:143-146 | Each kept line is paired with its physical line number. The line is the non-empty strip of that file line. |
| Text.NumberedLinesOrdered | src/usas_evaluation_framework/parsers/corcencc.py:143-146 | Line numbers strictly increase, so file order is kept. |
| Text.NumberedLinesKeep | src/usas_evaluation_framework/parsers/corcencc.py:143-146 | Every non-blank file line is kept, with its number. |

## Left out

- File and CSV input. A file is its list of lines and a CSV file its list of data rows. The ToRCH header check, the encoding, and the row value `None` that `csv.DictReader` gives for short rows are not modelled.
- Logging.
- `load_usas_mapper` and the YAML tag descriptions, which are configuration loading.
- `parsers/base.py`, which is an interface with no behaviour.
- Exception classes and messages. `ValueError`, `IndexError` (for example a Finnish `tok_` unit with an empty tag) and `KeyError` (a bad ToRCH break flag) are all `Err`. Which error is raised first when several apply is not modelled; only success or failure is.
- Corcencc.ParseEntry: the hard-coded CorCenCC correction and skip tables are data. They become the functions `relabel` and `skip` of `Corrections`, over label, line number, token position and token. The concrete table contents are not modelled.
- Torch.ParseRow: the ToRCH skip table is the same kind of data and becomes the predicate `skip` over row number and fixed label. The quantifier row set is kept as the constant `QuantifierRows`.
- Tags.CodePrefixLen: a digit is ASCII `0`-`9`. Python's `\d` also accepts other Unicode decimal digits.
- Text.Strip: only Python's whitespace characters are modelled. There is no other Unicode handling.
- Torch.ParseBreak: lower-casing is ASCII-only. No non-ASCII character lower-cases into a letter of `true` or `false`, so the decision itself is unaffected.
- `USASTag` and `USASTagGroup` validation by pydantic beyond the fields the parser sets.
- The Finnish docstring example shows `mwe_indexes=[frozenset({2})]` for a three-unit line. The code gives one set per unit, with `{1}` for the first run; the model follows the code.
- Torch.Parse: a ToRCH token may contain inner spaces, because only the cell is stripped. So the model does not claim that splitting a ToRCH text on whitespace gives its tokens. It does claim this for CorCenCC (`Corcencc.ParsedLineWords`).
- Equality of records (`EvaluationTexts`, `EvaluationDataset`) is Dafny's structural equality of datatypes. It is not a separate operation.
