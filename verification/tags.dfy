/** The USAS tag micro-grammar of `data_utils.py`: `USASTag`, `USASTagGroup`,
    `parse_usas_token_group` with its nested `parse_usas_tag`, and
    `get_all_mwe_token_indexes`.

    A tag atom is a code -- `[A-Z]\d+(\.\d+)*` (the longest such prefix) or,
    failing that, the literal prefix `PUNCT` -- followed by markers: the first
    run of `+` gives the positive count, then (after every `+` is removed) the
    first run of `-` gives the negative count, and six single characters are
    independent yes/no flags.  Anything else left over is ignored. */
module Tags {
  import opened Outcome
  import opened Text

  /** One decoded USAS tag (`USASTag`). */
  datatype Tag = Tag(
    code: string,          // `tag`: a taxonomy code or `PUNCT`
    positiveMarkers: nat,  // `number_positive_markers`
    negativeMarkers: nat,  // `number_negative_markers`
    rarity1: bool,         // `%`
    rarity2: bool,         // `@`
    female: bool,          // `f`
    male: bool,            // `m`
    antecedents: bool,     // `c`
    neuter: bool,          // `n`
    idiom: bool)           // never set by the parser

  /** Multi-tag membership of one token (`USASTagGroup`), e.g. `F2/O4.5`. */
  datatype TagGroup = TagGroup(tags: seq<Tag>)

  // ---------------------------------------------------------------------
  // The code pattern `[A-Z]\d+(\.\d+)*`, stated declaratively

  /** `t` matches `\d+(\.\d+)*`: digits and dots only, starting and ending
      with a digit, never two dots in a row. */
  predicate IsDottedNumber(t: string) {
    && |t| > 0
    && IsDigit(t[0])
    && IsDigit(t[|t| - 1])
    && (forall i | 0 <= i < |t| :: IsDigit(t[i]) || t[i] == '.')
    && (forall i | 0 <= i < |t| - 1 :: t[i] == '.' ==> t[i + 1] != '.')
  }

  /** `c` matches `[A-Z]\d+(\.\d+)*` entirely. */
  predicate IsTagCode(c: string) {
    |c| >= 2 && IsUpper(c[0]) && IsDottedNumber(c[1..])
  }

  /** Some prefix of `s` is a tag code. */
  predicate HasCodePrefix(s: string) {
    exists k | 0 <= k <= |s| :: IsTagCode(s[..k])
  }

  /** `c` is the longest prefix of `s` that is a tag code (what the greedy
      regular expression `^[A-Z](\d+)((\.\d+)+)?` captures). */
  predicate IsLongestCodePrefix(s: string, c: string) {
    && StartsWith(s, c)
    && IsTagCode(c)
    && forall k | |c| < k <= |s| :: !IsTagCode(s[..k])
  }

  /** The codes a parsed tag may carry. */
  predicate IsWellFormedCode(c: string) {
    IsTagCode(c) || c == "PUNCT"
  }

  // ---------------------------------------------------------------------
  // Scanning the code prefix

  /** End of the maximal run of digits starting at `i`. */
  function DigitsEnd(s: string, i: nat): (j: nat)
    requires i <= |s|
    ensures i <= j <= |s|
    ensures forall k | i <= k < j :: IsDigit(s[k])
    ensures j == |s| || !IsDigit(s[j])
    decreases |s| - i
  {
    if i < |s| && IsDigit(s[i]) then DigitsEnd(s, i + 1) else i
  }

  /** A dotted number followed by `.` and a digit run is a dotted number. */
  lemma {:induction false} DottedExtend(s: string, i: nat, e: nat)
    requires 2 <= i && i + 1 < e <= |s|
    requires IsDottedNumber(s[1..i])
    requires s[i] == '.'
    requires forall k | i + 1 <= k < e :: IsDigit(s[k])
    ensures IsDottedNumber(s[1..e])
  {
    var t := s[1..e];
    forall k | 0 <= k < |t| ensures IsDigit(t[k]) || t[k] == '.' {
      if k + 1 < i { assert t[k] == s[1..i][k]; }
    }
    forall k | 0 <= k < |t| - 1 ensures t[k] == '.' ==> t[k + 1] != '.' {
      if k + 2 < i {
        assert t[k] == s[1..i][k] && t[k + 1] == s[1..i][k + 1];
      } else if k + 2 == i {
        assert t[k] == s[1..i][|s[1..i]| - 1];
      }
    }
  }

  /** End of the `(\.\d+)*` part of a code whose digits and dot groups have
      been read up to `i`: as many `.`-digit groups as follow. */
  function DotGroupsEnd(s: string, i: nat): (j: nat)
    requires 2 <= i <= |s|
    requires IsDottedNumber(s[1..i])
    requires i == |s| || !IsDigit(s[i])
    ensures i <= j <= |s|
    ensures IsDottedNumber(s[1..j])
    ensures j == |s| || !IsDigit(s[j])
    ensures !(j + 1 < |s| && s[j] == '.' && IsDigit(s[j + 1]))
    decreases |s| - i
  {
    if i + 1 < |s| && s[i] == '.' && IsDigit(s[i + 1]) then
      var e := DigitsEnd(s, i + 1);
      DottedExtend(s, i, e);
      DotGroupsEnd(s, e)
    else i
  }

  /** A code read up to a point where no further digit or `.`-digit group
      follows cannot be extended. */
  lemma {:induction false} CodeCannotExtend(s: string, j: nat)
    requires 2 <= j <= |s|
    requires j == |s| || !IsDigit(s[j])
    requires !(j + 1 < |s| && s[j] == '.' && IsDigit(s[j + 1]))
    ensures forall k | j < k <= |s| :: !IsTagCode(s[..k])
  {
    forall k | j < k <= |s| ensures !IsTagCode(s[..k]) {
      var t := s[..k][1..];
      assert t[j - 1] == s[j];
      if j + 1 < k {
        assert t[j] == s[j + 1];
      }
    }
  }

  lemma {:induction false} NoCodePrefix(s: string)
    requires !(|s| >= 2 && IsUpper(s[0]) && IsDigit(s[1]))
    ensures !HasCodePrefix(s)
  {
    forall k | 0 <= k <= |s| ensures !IsTagCode(s[..k]) {
      if k >= 2 {
        assert s[..k][1..][0] == s[1];
      }
    }
  }

  /** Length of the code matched at the start of `s` (0 when there is none):
      exactly the longest tag-code prefix. */
  function CodePrefixLen(s: string): (n: nat)
    ensures n <= |s|
    ensures n > 0 ==> IsLongestCodePrefix(s, s[..n])
    ensures n == 0 <==> !HasCodePrefix(s)
  {
    if |s| >= 2 && IsUpper(s[0]) && IsDigit(s[1]) then
      var d := DigitsEnd(s, 1);
      assert IsDottedNumber(s[1..d]) by {
        var t := s[1..d];
        forall k | 0 <= k < |t| ensures IsDigit(t[k]) { assert t[k] == s[k + 1]; }
      }
      var j := DotGroupsEnd(s, d);
      CodeCannotExtend(s, j);
      assert s[..j][1..] == s[1..j];
      assert HasCodePrefix(s) by { assert IsTagCode(s[..j]); }
      j
    else
      NoCodePrefix(s);
      0
  }

  /** A tag code followed by anything that starts with neither a digit nor a
      `.` is exactly the code the scanner reads back. */
  lemma {:induction false} CodePrefixOfCodeThen(code: string, rest: string)
    requires IsTagCode(code)
    requires |rest| == 0 || (!IsDigit(rest[0]) && rest[0] != '.')
    ensures CodePrefixLen(code + rest) == |code|
  {
    var s := code + rest;
    var m := |code|;
    assert s[..m] == code;
    assert HasCodePrefix(s);
    var n := CodePrefixLen(s);
    CodeCharsAfterLetter(s, n);
  }

  /** Past its leading letter, a tag code holds only digits and dots. */
  lemma {:induction false} CodeCharsAfterLetter(s: string, n: nat)
    requires n <= |s| && IsTagCode(s[..n])
    ensures forall m | 1 <= m < n :: IsDigit(s[m]) || s[m] == '.'
  {
    forall m | 1 <= m < n ensures IsDigit(s[m]) || s[m] == '.' {
      assert s[..n][1..][m - 1] == s[m];
    }
  }

  // ---------------------------------------------------------------------
  // Markers

  /** Length of the run of `c` at the very start of `s`. */
  function LeadingRunLen(s: string, c: char): (n: nat)
    ensures n <= |s|
    ensures forall k | 0 <= k < n :: s[k] == c
    ensures n == |s| || s[n] != c
  {
    if |s| > 0 && s[0] == c then 1 + LeadingRunLen(s[1..], c) else 0
  }

  /** `s[p..p+n]` is the leftmost maximal run of `c` in `s`. */
  predicate IsFirstRun(s: string, c: char, p: nat, n: nat) {
    && n > 0
    && p + n <= |s|
    && (forall k | 0 <= k < p :: s[k] != c)
    && (forall k | p <= k < p + n :: s[k] == c)
    && (p + n == |s| || s[p + n] != c)
  }

  /** The search `re.search(c + "+", s)`: (start, length) of the leftmost
      maximal run of `c`, with length 0 when `c` does not occur. */
  function FirstRun(s: string, c: char): (r: (nat, nat))
    ensures r.1 == 0 <==> c !in s
    ensures r.1 > 0 ==> IsFirstRun(s, c, r.0, r.1)
  {
    if |s| == 0 then (0, 0)
    else if s[0] == c then (0, LeadingRunLen(s, c))
    else
      var r := FirstRun(s[1..], c);
      assert c in s <==> c in s[1..] by {
        assert s == [s[0]] + s[1..];
      }
      if r.1 == 0 then (0, 0) else (r.0 + 1, r.1)
  }

  /** `re.sub(c + "+", "", s)`: every occurrence of `c` removed, every other
      character kept in order. */
  function RemoveAll(s: string, c: char): string
  {
    if |s| == 0 then []
    else (if s[0] == c then [] else [s[0]]) + RemoveAll(s[1..], c)
  }

  /** `RemoveAll` drops every `c` and keeps every other character. */
  lemma {:induction false} RemoveAllMembers(s: string, c: char)
    ensures c !in RemoveAll(s, c)
    ensures forall x | x != c :: x in RemoveAll(s, c) <==> x in s
    decreases |s|
  {
    if |s| > 0 {
      RemoveAllMembers(s[1..], c);
      assert s == [s[0]] + s[1..];
    }
  }

  /** Decodes the markers that follow a code (the second half of
      `parse_usas_tag`). */
  function DecodeMarkers(code: string, rest: string): Tag
  {
    var plus := FirstRun(rest, '+').1;
    var rest1 := RemoveAll(rest, '+');
    var minus := FirstRun(rest1, '-').1;
    var rest2 := RemoveAll(rest1, '-');
    Tag(code, plus, minus,
        '%' in rest2, '@' in rest2, 'f' in rest2, 'm' in rest2, 'c' in rest2, 'n' in rest2,
        false)
  }

  // ---------------------------------------------------------------------
  // parse_usas_tag

  /** `parse_usas_tag`: the code is the longest `[A-Z]\d+(\.\d+)*` prefix if
      there is one, else `PUNCT` if the atom starts with it, else the parse
      fails; whatever follows the code is decoded as markers (see
      `ParseTagMarkers` for what the decoded fields mean). */
  function ParseTag(atom: string): (r: Result<Tag>)
    ensures HasCodePrefix(atom) ==> r.Ok? && IsLongestCodePrefix(atom, r.value.code)
    ensures !HasCodePrefix(atom) ==> (r.Ok? <==> StartsWith(atom, "PUNCT"))
    ensures !HasCodePrefix(atom) && r.Ok? ==> r.value.code == "PUNCT"
    ensures r.Ok? ==> IsWellFormedCode(r.value.code) && StartsWith(atom, r.value.code)
    ensures r.Ok? ==> r.value == DecodeMarkers(r.value.code, atom[|r.value.code|..])
  {
    var n := CodePrefixLen(atom);
    if n > 0 then
      Ok(DecodeMarkers(atom[..n], atom[n..]))
    else if StartsWith(atom, "PUNCT") then
      Ok(DecodeMarkers("PUNCT", atom[5..]))
    else
      Err
  }

  /** The marker fields `parse_usas_tag` returns: the positive count is the
      length of the first `+` run after the code; the negative count is the
      length of the first `-` run once every `+` is gone (so `A1-+-` counts
      two); the six flags are plain membership tests on everything after the
      code, other characters are ignored, and `idiom` is never set. */
  lemma {:induction false} ParseTagMarkers(atom: string)
    requires ParseTag(atom).Ok?
    ensures var t := ParseTag(atom).value;
      var rest := atom[|t.code|..];
      && t.positiveMarkers == FirstRun(rest, '+').1
      && t.negativeMarkers == FirstRun(RemoveAll(rest, '+'), '-').1
      && (t.male <==> 'm' in rest)
      && (t.female <==> 'f' in rest)
      && (t.rarity1 <==> '%' in rest)
      && (t.rarity2 <==> '@' in rest)
      && (t.antecedents <==> 'c' in rest)
      && (t.neuter <==> 'n' in rest)
      && !t.idiom
  {
    var t := ParseTag(atom).value;
    var rest := atom[|t.code|..];
    var rest1 := RemoveAll(rest, '+');
    RemoveAllMembers(rest, '+');
    RemoveAllMembers(rest1, '-');
  }

  // ---------------------------------------------------------------------
  // parse_usas_token_group

  /** One whitespace-free atom such as `Z2/S2mf`: every `/`-piece parsed as a
      tag, in order; one bad piece (an empty one included) fails the atom. */
  function ParseAtom(atom: string): (r: Result<TagGroup>)
    ensures r.Ok? <==> forall j | 0 <= j < |Split(atom, '/')| :: ParseTag(Split(atom, '/')[j]).Ok?
    ensures r.Ok? ==> |r.value.tags| == |Split(atom, '/')| > 0
    ensures r.Ok? ==> forall j | 0 <= j < |r.value.tags| ::
      r.value.tags[j] == ParseTag(Split(atom, '/')[j]).value
  {
    match MapResult(Split(atom, '/'), ParseTag)
    case Err => Err
    case Ok(tags) => Ok(TagGroup(tags))
  }

  /** `parse_usas_token_group`: one group per whitespace-separated atom, in
      order; blank input gives no groups; any failing atom fails the call. */
  function ParseTagGroups(text: string): (r: Result<seq<TagGroup>>)
    ensures IsBlank(text) ==> r == Ok([])
    ensures r.Ok? <==> forall w | w in Words(text) :: ParseAtom(w).Ok?
    ensures r.Ok? ==> |r.value| == |Words(text)|
    ensures r.Ok? ==> forall i | 0 <= i < |r.value| :: r.value[i] == ParseAtom(Words(text)[i]).value
  {
    MapResult(Words(text), ParseAtom)
  }

  /** The codes of a group, in order. */
  function Codes(g: TagGroup): (cs: seq<string>)
    ensures |cs| == |g.tags|
    ensures forall i | 0 <= i < |cs| :: cs[i] == g.tags[i].code
  {
    seq(|g.tags|, i requires 0 <= i < |g.tags| => g.tags[i].code)
  }

  /** The tag string the parsers keep for a token: the group's codes joined
      with `/` (markers dropped). */
  function JoinedCodes(g: TagGroup): string {
    Join(Codes(g), "/")
  }

  /** The tag string written for each group: its `/`-joined codes. */
  function GroupTags(groups: seq<TagGroup>): (r: seq<string>)
    ensures |r| == |groups|
    ensures forall i | 0 <= i < |groups| :: r[i] == JoinedCodes(groups[i])
  {
    seq(|groups|, i requires 0 <= i < |groups| => JoinedCodes(groups[i]))
  }

  /** What every corpus parser does with a tag payload: parse it and keep the
      `/`-joined codes of the first group.  A blank payload has no first group
      and fails (an `IndexError` in the repository). */
  function FirstGroupCodes(payload: string): (r: Result<string>)
    ensures r.Ok? <==> ParseTagGroups(payload).Ok? && !IsBlank(payload)
    ensures r.Ok? ==> r.value == JoinedCodes(ParseTagGroups(payload).value[0])
  {
    var groups :- ParseTagGroups(payload);
    if |groups| == 0 then Err else Ok(JoinedCodes(groups[0]))
  }

  /** Every tag a successful parse produces has a well-formed code. */
  lemma {:induction false} ParsedCodesWellFormed(text: string)
    requires ParseTagGroups(text).Ok?
    ensures forall i, j | 0 <= i < |ParseTagGroups(text).value| && 0 <= j < |ParseTagGroups(text).value[i].tags| ::
      IsWellFormedCode(ParseTagGroups(text).value[i].tags[j].code)
  {
  }

  /** A well-formed code is a non-empty string with neither whitespace nor
      `/` in it. */
  lemma {:induction false} WellFormedCodeShape(c: string)
    requires IsWellFormedCode(c)
    ensures |c| > 0 && NoSpace(c) && '/' !in c
  {
    if IsTagCode(c) {
      assert forall k | 1 <= k < |c| :: c[k] == c[1..][k - 1];
    }
  }

  /** A well-formed code is made of upper-case letters, digits and dots
      only, so it holds no other character. */
  lemma {:induction false} CodeAvoids(code: string, c: char)
    requires IsWellFormedCode(code)
    requires !IsUpper(c) && !IsDigit(c) && c != '.'
    ensures c !in code
  {
    if IsTagCode(code) {
      assert code[..|code|] == code;
      CodeCharsAfterLetter(code, |code|);
    } else {
      assert forall k | 0 <= k < |code| :: IsUpper(code[k]);
    }
  }

  /** The `/`-joined codes of well-formed tags hold no character other than
      letters, digits, dots and `/`. */
  lemma {:induction false} JoinedCodesAvoid(g: TagGroup, c: char)
    requires forall j | 0 <= j < |g.tags| :: IsWellFormedCode(g.tags[j].code)
    requires !IsUpper(c) && !IsDigit(c) && c != '.' && c != '/'
    ensures c !in JoinedCodes(g)
  {
    var cs := Codes(g);
    forall j | 0 <= j < |cs| ensures c !in cs[j] {
      CodeAvoids(cs[j], c);
    }
    JoinAvoids(cs, "/", c);
  }

  /** The joined tag string of a group splits on `/` back into its codes: the
      "sub-tags" the label validation checks are exactly the group's codes. */
  lemma {:induction false} SplitJoinedCodes(g: TagGroup)
    requires |g.tags| > 0
    requires forall j | 0 <= j < |g.tags| :: IsWellFormedCode(g.tags[j].code)
    ensures Split(JoinedCodes(g), '/') == Codes(g)
  {
    var cs := Codes(g);
    forall j | 0 <= j < |cs| ensures '/' !in cs[j] {
      WellFormedCodeShape(cs[j]);
    }
    SplitOfJoin(cs, '/');
  }

  /** A tag carrying only its code: no markers and no flags. */
  function BareTag(code: string): Tag {
    Tag(code, 0, 0, false, false, false, false, false, false, false)
  }

  /** The group of the bare tags of `g`'s codes. */
  function BareGroup(g: TagGroup): (b: TagGroup)
    ensures |b.tags| == |g.tags|
    ensures forall j | 0 <= j < |g.tags| :: b.tags[j] == BareTag(g.tags[j].code)
    ensures Codes(b) == Codes(g)
  {
    TagGroup(seq(|g.tags|, j requires 0 <= j < |g.tags| => BareTag(g.tags[j].code)))
  }

  /** The `/`-joined codes of well-formed tags form one whitespace-free word
      that splits on `/` into exactly those codes. */
  lemma {:induction false} JoinedCodesWord(g: TagGroup)
    requires |g.tags| > 0
    requires forall j | 0 <= j < |g.tags| :: IsWellFormedCode(g.tags[j].code)
    ensures |JoinedCodes(g)| > 0 && NoSpace(JoinedCodes(g))
    ensures Split(JoinedCodes(g), '/') == Codes(g)
  {
    var cs := Codes(g);
    var s := JoinedCodes(g);
    forall j | 0 <= j < |cs| ensures |cs[j]| > 0 && NoSpace(cs[j]) {
      WellFormedCodeShape(cs[j]);
    }
    JoinNoSpace(cs, "/");
    assert |s| > 0 by {
      assert |cs| == 1 ==> s == cs[0];
      assert |cs| > 1 ==> s == cs[0] + "/" + Join(cs[1..], "/");
    }
    SplitJoinedCodes(g);
  }

  /** The atom made of the `/`-joined codes of well-formed tags parses to the
      bare tags of those codes. */
  lemma {:induction false} ParseJoinedCodesAtom(g: TagGroup)
    requires |g.tags| > 0
    requires forall j | 0 <= j < |g.tags| :: IsWellFormedCode(g.tags[j].code)
    ensures ParseAtom(JoinedCodes(g)) == Ok(BareGroup(g))
  {
    var cs := Codes(g);
    var b := BareGroup(g);
    JoinedCodesWord(g);
    forall j | 0 <= j < |cs| ensures ParseTag(cs[j]) == Ok(b.tags[j]) {
      ParseBareCode(cs[j]);
    }
    MapResultAllOk(cs, ParseTag, b.tags);
  }

  /** The `/`-joined codes of a group of well-formed tags parse back to a
      single group: the bare tags of those codes, so the same codes in the
      same order. */
  lemma {:induction false} ParseJoinedCodes(g: TagGroup)
    requires |g.tags| > 0
    requires forall j | 0 <= j < |g.tags| :: IsWellFormedCode(g.tags[j].code)
    ensures ParseTagGroups(JoinedCodes(g)) == Ok([BareGroup(g)])
  {
    JoinedCodesWord(g);
    WordsOfWord(JoinedCodes(g));
    ParseJoinedCodesAtom(g);
    MapResultAllOk([JoinedCodes(g)], ParseAtom, [BareGroup(g)]);
  }

  // ---------------------------------------------------------------------
  // Rendering: the partner of ParseTag

  function Repeat(c: char, n: nat): (s: string)
    ensures |s| == n
    ensures forall k | 0 <= k < n :: s[k] == c
  {
    if n == 0 then [] else [c] + Repeat(c, n - 1)
  }

  /** The six flag characters a tag carries, in a fixed order. */
  function FlagChars(t: Tag): string {
    (Flag(t.male, 'm') + Flag(t.female, 'f') + Flag(t.rarity1, '%'))
    + (Flag(t.rarity2, '@') + Flag(t.antecedents, 'c') + Flag(t.neuter, 'n'))
  }

  /** The character `c` when `b` holds, nothing otherwise. */
  function Flag(b: bool, c: char): (s: string)
    ensures forall x :: x in s <==> b && x == c
  {
    if b then [c] else []
  }

  /** What follows the code in the canonical spelling: the `+` run, the `-`
      run, then the flags. */
  function MarkerText(t: Tag): string {
    Repeat('+', t.positiveMarkers) + Repeat('-', t.negativeMarkers) + FlagChars(t)
  }

  /** The canonical spelling of a tag: its code followed by its markers. */
  function Render(t: Tag): string {
    t.code + MarkerText(t)
  }

  /** The tags `parse_usas_tag` can return. */
  predicate IsParsableTag(t: Tag) {
    IsWellFormedCode(t.code) && !t.idiom
  }

  lemma {:induction false} FirstRunOfRunThen(c: char, n: nat, u: string)
    requires n > 0
    requires |u| == 0 || u[0] != c
    ensures FirstRun(Repeat(c, n) + u, c).1 == n
  {
    var s := Repeat(c, n) + u;
    assert s[0] == c;
    var r := FirstRun(s, c);
    assert r.0 == 0;
    assert forall k | 0 <= k < n :: s[k] == c;
    assert n < |s| ==> s[n] == u[0];
  }

  lemma {:induction false} RemoveAllAppend(a: string, b: string, c: char)
    ensures RemoveAll(a + b, c) == RemoveAll(a, c) + RemoveAll(b, c)
    decreases |a|
  {
    if |a| == 0 {
      assert a + b == b;
    } else {
      var h := if a[0] == c then [] else [a[0]];
      assert (a + b)[0] == a[0];
      assert (a + b)[1..] == a[1..] + b;
      assert RemoveAll(a + b, c) == h + RemoveAll(a[1..] + b, c);
      assert RemoveAll(a, c) == h + RemoveAll(a[1..], c);
      RemoveAllAppend(a[1..], b, c);
      assert h + (RemoveAll(a[1..], c) + RemoveAll(b, c)) == (h + RemoveAll(a[1..], c)) + RemoveAll(b, c);
    }
  }

  lemma {:induction false} RemoveAllAbsent(s: string, c: char)
    requires c !in s
    ensures RemoveAll(s, c) == s
    decreases |s|
  {
    if |s| > 0 {
      assert s == [s[0]] + s[1..];
      RemoveAllAbsent(s[1..], c);
    }
  }

  lemma {:induction false} RemoveAllRun(c: char, n: nat)
    ensures RemoveAll(Repeat(c, n), c) == []
    decreases n
  {
    if n > 0 {
      assert Repeat(c, n)[1..] == Repeat(c, n - 1);
      RemoveAllRun(c, n - 1);
    }
  }

  lemma {:induction false} FlagCharsContent(t: Tag)
    ensures '+' !in FlagChars(t) && '-' !in FlagChars(t)
    ensures 'm' in FlagChars(t) <==> t.male
    ensures 'f' in FlagChars(t) <==> t.female
    ensures '%' in FlagChars(t) <==> t.rarity1
    ensures '@' in FlagChars(t) <==> t.rarity2
    ensures 'c' in FlagChars(t) <==> t.antecedents
    ensures 'n' in FlagChars(t) <==> t.neuter
  {
    var a := Flag(t.male, 'm') + Flag(t.female, 'f') + Flag(t.rarity1, '%');
    var b := Flag(t.rarity2, '@') + Flag(t.antecedents, 'c') + Flag(t.neuter, 'n');
    assert forall x :: x in a <==> (t.male && x == 'm') || (t.female && x == 'f') || (t.rarity1 && x == '%');
    assert forall x :: x in b <==> (t.rarity2 && x == '@') || (t.antecedents && x == 'c') || (t.neuter && x == 'n');
    assert forall x :: x in FlagChars(t) <==> x in a || x in b;
  }

  /** A run of `c` followed by text free of `c`: the run is the first run and
      removing `c` leaves the text. */
  lemma {:induction false} RunThenFree(c: char, n: nat, u: string)
    requires c !in u
    ensures FirstRun(Repeat(c, n) + u, c).1 == n
    ensures RemoveAll(Repeat(c, n) + u, c) == u
  {
    if n > 0 {
      FirstRunOfRunThen(c, n, u);
    } else {
      assert Repeat(c, n) + u == u;
    }
    RemoveAllAppend(Repeat(c, n), u, c);
    RemoveAllRun(c, n);
    RemoveAllAbsent(u, c);
  }

  /** Markers written as a `+` run, a `-` run and then text free of both
      decode to the two run lengths and the flags of that text. */
  lemma {:induction false} DecodeRunsThen(code: string, p: nat, n: nat, flags: string)
    requires '+' !in flags && '-' !in flags
    ensures DecodeMarkers(code, Repeat('+', p) + Repeat('-', n) + flags)
         == Tag(code, p, n, '%' in flags, '@' in flags, 'f' in flags, 'm' in flags,
                'c' in flags, 'n' in flags, false)
  {
    var minus := Repeat('-', n);
    assert Repeat('+', p) + minus + flags == Repeat('+', p) + (minus + flags);
    assert '+' !in minus + flags;
    RunThenFree('+', p, minus + flags);
    RunThenFree('-', n, flags);
  }

  /** Decoding the markers of a canonical spelling gives the marker fields
      back. */
  lemma {:induction false} DecodeRenderedMarkers(t: Tag)
    requires !t.idiom
    ensures DecodeMarkers(t.code, MarkerText(t)) == t
  {
    var flags := FlagChars(t);
    FlagCharsContent(t);
    DecodeRunsThen(t.code, t.positiveMarkers, t.negativeMarkers, flags);
  }

  /** `parse_usas_tag` on a tag code followed by text that cannot extend the
      code: the code is taken whole and the rest is decoded as markers. */
  lemma {:induction false} ParseCodeThen(code: string, rest: string)
    requires IsTagCode(code)
    requires |rest| == 0 || (!IsDigit(rest[0]) && rest[0] != '.')
    ensures ParseTag(code + rest) == Ok(DecodeMarkers(code, rest))
  {
    CodePrefixOfCodeThen(code, rest);
    var s := code + rest;
    assert s[..|code|] == code;
    assert s[|code|..] == rest;
  }

  /** `parse_usas_tag` on `PUNCT` followed by anything: no code prefix, so
      the `PUNCT` branch decodes the rest as markers. */
  lemma {:induction false} ParsePunctThen(rest: string)
    ensures ParseTag("PUNCT" + rest) == Ok(DecodeMarkers("PUNCT", rest))
  {
    var s := "PUNCT" + rest;
    assert s[1] == 'U';
    NoCodePrefix(s);
    assert s[..5] == "PUNCT";
    assert s[5..] == rest;
  }

  /** A well-formed code on its own parses to the bare tag of that code. */
  lemma {:induction false} ParseBareCode(code: string)
    requires IsWellFormedCode(code)
    ensures ParseTag(code) == Ok(BareTag(code))
  {
    assert code + "" == code;
    if IsTagCode(code) {
      ParseCodeThen(code, "");
    } else {
      ParsePunctThen("");
    }
  }

  /** Round trip: every tag `parse_usas_tag` can produce is recovered exactly
      from its canonical spelling. */
  lemma {:induction false} ParseRender(t: Tag)
    requires IsParsableTag(t)
    ensures ParseTag(Render(t)) == Ok(t)
  {
    var rest := MarkerText(t);
    DecodeRenderedMarkers(t);
    if IsTagCode(t.code) {
      MarkerTextStart(t);
      ParseCodeThen(t.code, rest);
    } else {
      ParsePunctThen(rest);
    }
  }

  /** The markers of a canonical spelling never start with a digit or a
      dot, so they cannot extend the code in front of them. */
  lemma {:induction false} MarkerTextStart(t: Tag)
    ensures |MarkerText(t)| == 0 || (!IsDigit(MarkerText(t)[0]) && MarkerText(t)[0] != '.')
  {
    var rest := MarkerText(t);
    if |rest| > 0 {
      var x := rest[0];
      assert x in rest;
      var a := Flag(t.male, 'm') + Flag(t.female, 'f') + Flag(t.rarity1, '%');
      var b := Flag(t.rarity2, '@') + Flag(t.antecedents, 'c') + Flag(t.neuter, 'n');
      assert x in Repeat('+', t.positiveMarkers) || x in Repeat('-', t.negativeMarkers) || x in a || x in b;
    }
  }

  // ---------------------------------------------------------------------
  // get_all_mwe_token_indexes

  /** Python's `range(lo, hi)` as a set. */
  function Range(lo: int, hi: int): (r: set<int>)
    ensures forall x :: x in r <==> lo <= x < hi
    decreases hi - lo
  {
    if lo >= hi then {} else {lo} + Range(lo + 1, hi)
  }

  /** `get_all_mwe_token_indexes`: the union of the half-open index ranges
      `[start, end)`; an empty list gives the empty set and repeated or
      overlapping ranges collapse. */
  method MweTokenIndexes(ranges: seq<(int, int)>) returns (r: set<int>)
    ensures forall x :: x in r <==> exists i | 0 <= i < |ranges| :: ranges[i].0 <= x < ranges[i].1
  {
    r := {};
    var i := 0;
    while i < |ranges|
      invariant 0 <= i <= |ranges|
      invariant forall x :: x in r <==> exists j | 0 <= j < i :: ranges[j].0 <= x < ranges[j].1
    {
      var lo := ranges[i].0;
      var hi := ranges[i].1;
      r := r + Range(lo, hi);
      i := i + 1;
    }
  }
}
