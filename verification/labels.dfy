/** The per-token label and token checks the corpus parsers share.

    Two pipelines exist.  The CorCenCC and ToRCH parsers validate a label
    first -- it must parse into exactly one tag group whose codes, `PUNCT`
    aside, all belong to the validation set -- and only then apply the label
    filter to the `/`-joined codes.  The Benedict parsers filter first and
    validate the surviving tag strings afterwards, skipping `PUNCT` and the
    empty string.  Every parser also rejects a token that itself parses as a
    tag group. */
module Labels {
  import opened Outcome
  import opened Text
  import opened Tags

  /** `parse_usas_token_group(s)` returns instead of raising. */
  predicate ParsesAsTags(s: string) {
    ParseTagGroups(s).Ok?
  }

  /** The whole-string filter: a tag string found in the filter set becomes
      the empty string, anything else is kept. */
  function Filtered(tag: string, filter: Option<set<string>>): string {
    if filter.Some? && tag in filter.value then "" else tag
  }

  /** A code passes label validation: `PUNCT` always does, any code does
      when no validation set is given, otherwise it must be in the set. */
  predicate CodeAllowed(code: string, validation: Option<set<string>>) {
    code == "PUNCT" || validation.None? || code in validation.value
  }

  /** Every code of the group passes label validation. */
  predicate GroupAllowed(g: TagGroup, validation: Option<set<string>>) {
    forall j | 0 <= j < |g.tags| :: CodeAllowed(g.tags[j].code, validation)
  }

  // ---------------------------------------------------------------------
  // Validate, then filter (CorCenCC `validate_label`, ToRCH
  // `validate_first_label` on its first label)

  /** The label must be a single whitespace-free atom that parses; each of
      its codes must pass validation; the result is the `/`-joined codes,
      replaced by `""` when that whole string is in the filter set.  A blank
      label has no group and is rejected. */
  function ValidateLabel(labelText: string, validation: Option<set<string>>, filter: Option<set<string>>)
    : (r: Result<string>)
    ensures r.Ok? <==>
      && |Words(labelText)| == 1
      && ParseAtom(Words(labelText)[0]).Ok?
      && GroupAllowed(ParseAtom(Words(labelText)[0]).value, validation)
    ensures r.Ok? ==> r.value == Filtered(JoinedCodes(ParseAtom(Words(labelText)[0]).value), filter)
    ensures IsBlank(labelText) ==> r.Err?
  {
    var groups :- ParseTagGroups(labelText);
    if |groups| != 1 then Err
    else if GroupAllowed(groups[0], validation) then Ok(Filtered(JoinedCodes(groups[0]), filter))
    else Err
  }

  /** Validation happens before filtering: the filter never decides whether
      a label is accepted (a filtered label must still be valid), it only
      blanks the accepted string. */
  lemma {:induction false} ValidateBeforeFilter(labelText: string, validation: Option<set<string>>, filter: Option<set<string>>)
    ensures ValidateLabel(labelText, validation, filter).Ok? <==> ValidateLabel(labelText, validation, None).Ok?
    ensures ValidateLabel(labelText, validation, filter).Ok? ==>
      ValidateLabel(labelText, validation, filter).value == Filtered(ValidateLabel(labelText, validation, None).value, filter)
  {
  }

  /** The string an accepted label is reduced to is the `/`-join of the
      codes of its one group, and each `/`-separated sub-tag of it passes
      validation. */
  lemma {:induction false} ValidatedSubTags(labelText: string, validation: Option<set<string>>)
    requires ValidateLabel(labelText, validation, None).Ok?
    ensures var s := ValidateLabel(labelText, validation, None).value;
      forall k | 0 <= k < |Split(s, '/')| :: CodeAllowed(Split(s, '/')[k], validation)
  {
    var g := ParseTagGroups(labelText).value[0];
    ParsedCodesWellFormed(labelText);
    SplitJoinedCodes(g);
  }

  /** Validation without a filter is idempotent: the string an accepted
      label is reduced to is itself accepted and reduced to itself. */
  lemma {:induction false} ValidateLabelIdempotent(labelText: string, validation: Option<set<string>>)
    requires ValidateLabel(labelText, validation, None).Ok?
    ensures var s := ValidateLabel(labelText, validation, None).value;
      ValidateLabel(s, validation, None) == Ok(s)
  {
    var g := ParseTagGroups(labelText).value[0];
    ParsedCodesWellFormed(labelText);
    var s := JoinedCodes(g);
    ParseJoinedCodes(g);
    var b := BareGroup(g);
    assert GroupAllowed(b, validation) by {
      forall j | 0 <= j < |b.tags| ensures CodeAllowed(b.tags[j].code, validation) {
        assert b.tags[j].code == Codes(b)[j] == Codes(g)[j] == g.tags[j].code;
      }
    }
    assert JoinedCodes(b) == s;
  }

  // ---------------------------------------------------------------------
  // Filter, then validate (both Benedict parsers)

  /** The filter applied to every tag string of a line. */
  function FilterTags(tags: seq<string>, filter: Option<set<string>>): (r: seq<string>)
    ensures |r| == |tags|
    ensures forall i | 0 <= i < |tags| :: r[i] == "" || r[i] == tags[i]
    ensures forall i | 0 <= i < |tags| :: r[i] == "" <== filter.Some? && tags[i] in filter.value
    ensures forall i | 0 <= i < |tags| :: !(filter.Some? && tags[i] in filter.value) ==> r[i] == tags[i]
    ensures filter.None? ==> r == tags
  {
    seq(|tags|, i requires 0 <= i < |tags| => Filtered(tags[i], filter))
  }

  /** A tag string passes the Benedict validation: `PUNCT` and the empty
      (filtered) string are skipped, any other string must have every
      `/`-separated sub-tag in the validation set. */
  predicate TagStringAllowed(tag: string, validation: Option<set<string>>) {
    || validation.None?
    || tag == "PUNCT"
    || tag == ""
    || forall k | 0 <= k < |Split(tag, '/')| :: Split(tag, '/')[k] in validation.value
  }

  /** The Benedict label step for one line: filter every tag string, then
      validate what is left.  Fails when some surviving string has a
      sub-tag outside the validation set. */
  function FilterThenValidate(tags: seq<string>, validation: Option<set<string>>, filter: Option<set<string>>)
    : (r: Result<seq<string>>)
    ensures r.Ok? <==> forall i | 0 <= i < |tags| :: TagStringAllowed(Filtered(tags[i], filter), validation)
    ensures r.Ok? ==> r.value == FilterTags(tags, filter)
    ensures validation.None? ==> r.Ok?
  {
    var filtered := FilterTags(tags, filter);
    if forall i | 0 <= i < |filtered| :: TagStringAllowed(filtered[i], validation) then Ok(filtered)
    else Err
  }

  /** A tag string the filter removes is never checked by the Benedict
      validation, whatever its sub-tags. */
  lemma {:induction false} FilteredTagsExempt(tags: seq<string>, validation: Option<set<string>>, filter: Option<set<string>>)
    requires filter.Some?
    requires forall i | 0 <= i < |tags| :: tags[i] in filter.value || TagStringAllowed(tags[i], validation)
    ensures FilterThenValidate(tags, validation, filter) == Ok(FilterTags(tags, filter))
  {
    forall i | 0 <= i < |tags| ensures TagStringAllowed(Filtered(tags[i], filter), validation) {
    }
  }

  /** A single well-formed code parses as one group holding its bare tag. */
  lemma {:induction false} ParseSingleCode(code: string)
    requires IsWellFormedCode(code)
    ensures ParseTagGroups(code) == Ok([TagGroup([BareTag(code)])])
  {
    var g := TagGroup([BareTag(code)]);
    assert Codes(g) == [code];
    assert JoinedCodes(g) == code;
    ParseJoinedCodes(g);
    assert BareGroup(g) == g;
  }

  /** The order of the two steps matters.  A well-formed code outside the
      validation set that is also filtered is rejected by validate-then-filter
      but blanked and accepted by filter-then-validate (for instance `Z99`
      with validation set {A1} and filter set {Z99}). */
  lemma {:induction false} PipelinesDisagree(code: string, validation: set<string>)
    requires IsWellFormedCode(code) && code != "PUNCT" && code !in validation
    ensures ValidateLabel(code, Some(validation), Some({code})) == Err
    ensures FilterThenValidate([code], Some(validation), Some({code})) == Ok([""])
  {
    ParseSingleCode(code);
    var g := TagGroup([BareTag(code)]);
    assert !CodeAllowed(g.tags[0].code, Some(validation));
    var filtered := FilterTags([code], Some({code}));
    assert filtered == [""];
    assert TagStringAllowed(Filtered([code][0], Some({code})), Some(validation));
  }

  /** The instance above: `Z99` is a well-formed code. */
  lemma {:induction false} PipelinesDisagreeOnZ99()
    ensures ValidateLabel("Z99", Some({"A1"}), Some({"Z99"})) == Err
    ensures FilterThenValidate(["Z99"], Some({"A1"}), Some({"Z99"})) == Ok([""])
  {
    var code := "Z99";
    assert IsTagCode(code) by {
      assert code[1..] == "99";
    }
    PipelinesDisagree(code, {"A1"});
  }

  // ---------------------------------------------------------------------
  // The token check

  /** A word that does not start with an upper-case ASCII letter is never a
      tag: its first `/`-piece has neither a code prefix nor the `PUNCT`
      prefix.  So ordinary lower-case tokens always pass the token check. */
  lemma {:induction false} LowerWordIsNotTag(w: string)
    requires |w| > 0 && NoSpace(w)
    requires !IsUpper(w[0])
    ensures !ParsesAsTags(w)
  {
    WordsOfWord(w);
    assert w == [w[0]] + w[1..];
    var piece := Split(w, '/')[0];
    if w[0] == '/' {
      SplitSeparatorFirst(w[1..], '/');
      assert piece == "";
    } else {
      SplitOtherFirst(w[0], w[1..], '/');
      assert piece[0] == w[0];
    }
    NoCodePrefix(piece);
    assert !StartsWith(piece, "PUNCT");
    assert ParseTag(piece).Err?;
  }

  /** Every accepted, unfiltered label string is itself rejected as a token:
      it parses as a tag group. */
  lemma {:induction false} LabelIsTag(labelText: string, validation: Option<set<string>>)
    requires ValidateLabel(labelText, validation, None).Ok?
    ensures ParsesAsTags(ValidateLabel(labelText, validation, None).value)
  {
    ValidateLabelIdempotent(labelText, validation);
  }

  /** Validating the tag string of a group of well-formed codes that pass
      validation gives that tag string back, filtered. */
  lemma {:induction false} ValidateGroupTag(g: TagGroup, validation: Option<set<string>>, filter: Option<set<string>>)
    requires |g.tags| > 0
    requires forall j | 0 <= j < |g.tags| :: IsWellFormedCode(g.tags[j].code)
    requires GroupAllowed(g, validation)
    ensures ValidateLabel(JoinedCodes(g), validation, filter) == Ok(Filtered(JoinedCodes(g), filter))
  {
    ParseJoinedCodes(g);
    var b := BareGroup(g);
    assert GroupAllowed(b, validation) by {
      forall j | 0 <= j < |b.tags| ensures CodeAllowed(b.tags[j].code, validation) {
        assert b.tags[j].code == g.tags[j].code;
      }
    }
    assert JoinedCodes(b) == JoinedCodes(g);
  }
}
