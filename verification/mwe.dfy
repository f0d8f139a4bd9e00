/** `EnglishBenedict.get_mwe_indexes`: multi word expression (MWE) ids of
    the Benedict English corpus.

    A unit `text_tag[i<id>.<total>.<pos>` belongs to MWE `<id>`, which has
    `<total>` units in all.  The marker is looked for only after the unit's
    underscore.  Units are bucketed by raw id; each bucket must hold as many
    units as the total declared where that id first appears (so the units of
    one MWE need not be adjacent); the distinct raw ids are then renumbered
    1, 2, ... in increasing order. */
module EnglishMwe {
  import opened Outcome
  import opened Text
  import opened Tags

  // ---------------------------------------------------------------------
  // The marker pattern `\[i(\d+)\.(\d+)\.(\d+)`

  /** The value of one decimal digit. */
  function DigitValue(c: char): nat {
    if IsDigit(c) then c as int - '0' as int else 0
  }

  /** `int(s)` for a string of decimal digits (leading zeros allowed). */
  function DigitsValue(s: string): nat
    decreases |s|
  {
    if |s| == 0 then 0 else 10 * DigitsValue(s[..|s| - 1]) + DigitValue(s[|s| - 1])
  }

  /** What the pattern captures at one position: the first two groups as
      numbers, and where the match ends (the third group is greedy and its
      value is never used). */
  datatype Marker = Marker(id: nat, total: nat, end: nat)

  /** The pattern tried at position `p` of `s`.  Since a digit run can only
      be followed by `.` or a non-digit, the greedy groups leave no choice:
      `[i`, digits, `.`, digits, `.`, then the maximal digit run. */
  function MarkerAt(s: string, p: nat): (r: Option<Marker>)
    ensures r.Some? ==> MatchAt(s, "[i", p) && p + 7 <= r.value.end <= |s|
    ensures r.Some? ==> s[p] == '[' && s[p + 1] == 'i'
    ensures r.Some? ==> forall k | p + 2 <= k < r.value.end :: IsDigit(s[k]) || s[k] == '.'
    ensures r.Some? ==> r.value.end == |s| || !IsDigit(s[r.value.end])
  {
    if !MatchAt(s, "[i", p) then None
    else
      assert s[p] == s[p..p + 2][0] && s[p + 1] == s[p..p + 2][1];
      var e1 := DigitsEnd(s, p + 2);
      if e1 == p + 2 || e1 == |s| || s[e1] != '.' then None
      else
        var e2 := DigitsEnd(s, e1 + 1);
        if e2 == e1 + 1 || e2 == |s| || s[e2] != '.' then None
        else
          var e3 := DigitsEnd(s, e2 + 1);
          if e3 == e2 + 1 then None
          else Some(Marker(DigitsValue(s[p + 2..e1]), DigitsValue(s[e1 + 1..e2]), e3))
  }

  /** A match starts with `[` and holds no other `[`, so no match can
      start strictly inside another one. */
  lemma {:induction false} NoMarkerInside(s: string, p: nat, q: nat)
    requires MarkerAt(s, p).Some?
    requires p < q < MarkerAt(s, p).value.end
    ensures MarkerAt(s, q).None?
  {
    assert s[q] != '[';
  }

  /** `pattern.search(s[from:])` as a position: the leftmost match at or
      after `from`. */
  function FirstMarkerFrom(s: string, from: nat): (r: Option<nat>)
    ensures r.Some? ==> from <= r.value && MarkerAt(s, r.value).Some?
    ensures r.Some? ==> forall q: nat | from <= q < r.value :: MarkerAt(s, q).None?
    ensures r.None? ==> forall q: nat | from <= q :: MarkerAt(s, q).None?
    decreases |s| - from
  {
    if from >= |s| then None
    else if MarkerAt(s, from).Some? then Some(from)
    else FirstMarkerFrom(s, from + 1)
  }

  /** `len(pattern.findall(s))`, counted from `from`: the scan resumes where
      each match ends. */
  function FindAllCount(s: string, from: nat): nat
    decreases |s| - from
  {
    match FirstMarkerFrom(s, from)
    case None => 0
    case Some(p) => 1 + FindAllCount(s, MarkerAt(s, p).value.end)
  }

  /** `s` holds a match somewhere. */
  ghost predicate HasMarker(s: string) {
    exists p: nat :: MarkerAt(s, p).Some?
  }

  /** `s` holds matches at two different positions. */
  ghost predicate TwoMarkers(s: string) {
    exists p: nat, q: nat | p < q :: MarkerAt(s, p).Some? && MarkerAt(s, q).Some?
  }

  /** A second match found by the scan is a second match position. */
  lemma {:induction false} FindAllTwoSound(s: string)
    requires FindAllCount(s, 0) > 1
    ensures TwoMarkers(s)
  {
    var p := FirstMarkerFrom(s, 0).value;
    var e := MarkerAt(s, p).value.end;
    var q := FirstMarkerFrom(s, e).value;
    assert p < q && MarkerAt(s, p).Some? && MarkerAt(s, q).Some?;
  }

  /** Two match positions make the scan find a second match: the later one
      cannot start inside the first match the scan takes. */
  lemma {:induction false} FindAllTwoComplete(s: string, a: nat, b: nat)
    requires a < b && MarkerAt(s, a).Some? && MarkerAt(s, b).Some?
    ensures FindAllCount(s, 0) > 1
  {
    var p := FirstMarkerFrom(s, 0).value;
    var e := MarkerAt(s, p).value.end;
    assert p <= a;
    if b < e {
      NoMarkerInside(s, p, b);
    }
    assert FirstMarkerFrom(s, e).Some?;
  }

  /** `findall` reports more than one match exactly when matches start at
      two different positions. */
  lemma {:induction false} FindAllTwo(s: string)
    ensures FindAllCount(s, 0) > 1 <==> TwoMarkers(s)
  {
    if FindAllCount(s, 0) > 1 {
      FindAllTwoSound(s);
    }
    if TwoMarkers(s) {
      var a: nat, b: nat :| a < b && MarkerAt(s, a).Some? && MarkerAt(s, b).Some?;
      FindAllTwoComplete(s, a, b);
    }
  }

  // ---------------------------------------------------------------------
  // One unit

  /** A unit's MWE marker as `(raw id, declared total)`, `None` when the
      unit carries none. */
  type UnitMark = Option<(nat, nat)>

  /** What one whitespace unit contributes.  It must split on `_` into
      exactly two parts; the marker is searched for in the second part only.
      A part with a marker must not hold a second one.  A part without a
      marker fails when it holds `[i` and does not end in `]`. */
  function UnitMarker(unit: string): (r: Result<UnitMark>)
    ensures |Split(unit, '_')| != 2 ==> r.Err?
  {
    var parts := Split(unit, '_');
    if |parts| != 2 then Err
    else
      var info := parts[1];
      match FirstMarkerFrom(info, 0)
      case Some(p) =>
        var m := MarkerAt(info, p).value;
        if FindAllCount(info, 0) > 1 then Err else Ok(Some((m.id, m.total)))
      case None =>
        if Contains(info, "[i") && !EndsWithChar(info, ']') then Err else Ok(None)
  }

  /** What a unit of exactly two parts contributes, in terms of the matches
      of the marker pattern in its second part: a mark exactly when there is
      one match and no second one, carrying the id and total of the leftmost
      match; no mark exactly when there is no match and the part either
      holds no `[i` or ends in `]`; otherwise the unit is rejected. */
  lemma {:induction false} UnitMarkerSpec(unit: string)
    requires |Split(unit, '_')| == 2
    ensures var r := UnitMarker(unit);
      var info := Split(unit, '_')[1];
      && (r.Ok? && r.value.Some? <==> HasMarker(info) && !TwoMarkers(info))
      && (r.Ok? && r.value.None? <==> !HasMarker(info) && (!Contains(info, "[i") || EndsWithChar(info, ']')))
    ensures var r := UnitMarker(unit);
      var info := Split(unit, '_')[1];
      r.Ok? && r.value.Some? ==>
        && FirstMarkerFrom(info, 0).Some?
        && var m := MarkerAt(info, FirstMarkerFrom(info, 0).value).value;
        r.value.value == (m.id, m.total)
  {
    FindAllTwo(Split(unit, '_')[1]);
  }

  /** The marker is looked for after the underscore only: the text before
      it never changes what a unit contributes, even when it holds `[i`. */
  lemma {:induction false} MarkerIgnoresTokenText(t1: string, t2: string, info: string)
    requires '_' !in t1 && '_' !in t2 && '_' !in info
    ensures UnitMarker(t1 + "_" + info) == UnitMarker(t2 + "_" + info)
  {
    SplitOfJoin([t1, info], '_');
    SplitOfJoin([t2, info], '_');
    assert Join([t1, info], "_") == t1 + "_" + info;
    assert Join([t2, info], "_") == t2 + "_" + info;
  }

  // ---------------------------------------------------------------------
  // Buckets by raw id (the dictionary `mwe_data`), stated per prefix

  function Init<T>(xs: seq<T>): seq<T>
    requires |xs| > 0
  {
    xs[..|xs| - 1]
  }

  /** Unit `m` carries raw id `id`. */
  predicate HasId(m: UnitMark, id: nat) {
    m.Some? && m.value.0 == id
  }

  /** The raw ids of the marked units (the keys of `mwe_data`). */
  function MarkedIds(ms: seq<UnitMark>): set<nat>
    decreases |ms|
  {
    if |ms| == 0 then {}
    else MarkedIds(Init(ms)) + (if ms[|ms| - 1].Some? then {ms[|ms| - 1].value.0} else {})
  }

  /** The positions of the units carrying raw id `id`, in order (its
      `token_indices`). */
  function Positions(ms: seq<UnitMark>, id: nat): seq<nat>
    decreases |ms|
  {
    if |ms| == 0 then []
    else Positions(Init(ms), id) + (if HasId(ms[|ms| - 1], id) then [|ms| - 1] else [])
  }

  /** The total declared for `id` where it first appears (later totals are
      ignored); 0 when `id` does not appear. */
  function DeclaredTotal(ms: seq<UnitMark>, id: nat): nat
    decreases |ms|
  {
    if |ms| == 0 then 0
    else if id in MarkedIds(Init(ms)) then DeclaredTotal(Init(ms), id)
    else if HasId(ms[|ms| - 1], id) then ms[|ms| - 1].value.1
    else 0
  }

  /** A raw id is a key exactly when some unit carries it. */
  lemma {:induction false} MarkedIdsMembers(ms: seq<UnitMark>, id: nat)
    ensures id in MarkedIds(ms) <==> exists i | 0 <= i < |ms| :: HasId(ms[i], id)
    decreases |ms|
  {
    if |ms| > 0 {
      var xs := Init(ms);
      MarkedIdsMembers(xs, id);
      if exists i | 0 <= i < |ms| :: HasId(ms[i], id) {
        var i :| 0 <= i < |ms| && HasId(ms[i], id);
        if i < |xs| { assert HasId(xs[i], id); }
      }
      if exists i | 0 <= i < |xs| :: HasId(xs[i], id) {
        var i :| 0 <= i < |xs| && HasId(xs[i], id);
        assert HasId(ms[i], id);
      }
    }
  }

  /** The bucket of `id` holds exactly the positions of the units that
      carry it, in strictly increasing order. */
  lemma {:induction false} PositionsMembers(ms: seq<UnitMark>, id: nat)
    ensures forall k: nat :: k in Positions(ms, id) <==> k < |ms| && HasId(ms[k], id)
    ensures forall a, b | 0 <= a < b < |Positions(ms, id)| :: Positions(ms, id)[a] < Positions(ms, id)[b]
    decreases |ms|
  {
    if |ms| > 0 {
      var xs := Init(ms);
      PositionsMembers(xs, id);
      forall k | 0 <= k < |xs| ensures ms[k] == xs[k] { }
      var ps := Positions(xs, id);
      forall a | 0 <= a < |ps| ensures ps[a] < |xs| {
        assert ps[a] in ps;
      }
    }
  }

  /** An id no unit carries has an empty bucket. */
  lemma {:induction false} PositionsOfUnmarked(ms: seq<UnitMark>, id: nat)
    requires id !in MarkedIds(ms)
    ensures Positions(ms, id) == []
    decreases |ms|
  {
    if |ms| > 0 {
      PositionsOfUnmarked(Init(ms), id);
    }
  }

  /** The declared total of an id is the one at its first unit. */
  lemma {:induction false} DeclaredTotalIsFirst(ms: seq<UnitMark>, id: nat, i: nat)
    requires i < |ms| && HasId(ms[i], id)
    requires forall j | 0 <= j < i :: !HasId(ms[j], id)
    ensures DeclaredTotal(ms, id) == ms[i].value.1
    decreases |ms|
  {
    var xs := Init(ms);
    if i < |xs| {
      assert HasId(xs[i], id);
      MarkedIdsMembers(xs, id);
      forall j | 0 <= j < i ensures !HasId(xs[j], id) {
        assert xs[j] == ms[j];
      }
      DeclaredTotalIsFirst(xs, id, i);
    } else {
      MarkedIdsMembers(xs, id);
      forall j | 0 <= j < |xs| ensures !HasId(xs[j], id) {
        assert xs[j] == ms[j];
      }
    }
  }

  /** `check`: every MWE has as many units as its first unit declared. */
  predicate Consistent(ms: seq<UnitMark>) {
    forall id | id in MarkedIds(ms) :: |Positions(ms, id)| == DeclaredTotal(ms, id)
  }

  // ---------------------------------------------------------------------
  // Renumbering

  /** The ids of `ids` smaller than `id`. */
  function Below(ids: set<nat>, id: nat): set<nat> {
    set x | x in ids && x < id
  }

  /** `idx + 1` for `id` at index `idx` of `sorted(ids)`: one more than the
      number of smaller ids. */
  function Rank(ids: set<nat>, id: nat): nat {
    |Below(ids, id)| + 1
  }

  /** A subset is no larger than its superset. */
  lemma {:induction false} SubsetCard<T>(a: set<T>, b: set<T>)
    requires a <= b
    ensures |a| <= |b|
    decreases a
  {
    if a != {} {
      var x :| x in a;
      SubsetCard(a - {x}, b - {x});
    }
  }

  /** The ranks of the ids of a set lie in 1..(number of ids). */
  lemma {:induction false} RankBounds(ids: set<nat>, id: nat)
    requires id in ids
    ensures 1 <= Rank(ids, id) <= |ids|
  {
    SubsetCard(Below(ids, id), ids - {id});
  }

  /** Renumbering keeps the numeric order of raw ids, strictly, so distinct
      raw ids get distinct numbers. */
  lemma {:induction false} RankMonotone(ids: set<nat>, a: nat, b: nat)
    requires a in ids && a < b
    ensures Rank(ids, a) < Rank(ids, b)
  {
    var lo := Below(ids, a);
    var hi := Below(ids, b);
    assert a !in lo;
    SubsetCard(lo + {a}, hi);
  }

  /** The smallest raw id becomes 1. */
  lemma {:induction false} RankOfSmallest(ids: set<nat>, id: nat)
    requires id in ids
    requires forall x | x in ids :: id <= x
    ensures Rank(ids, id) == 1
  {
    assert Below(ids, id) == {};
  }

  /** The set of one unit: `{rank of its raw id}` when it is marked, `{}`
      otherwise. */
  function MweSet(ids: set<nat>, m: UnitMark): set<int> {
    if m.Some? then {Rank(ids, m.value.0) as int} else {}
  }

  /** The MWE sets of all units, numbered among the raw ids they carry. */
  function MweSets(ms: seq<UnitMark>): (r: seq<set<int>>)
    ensures |r| == |ms|
    ensures forall i | 0 <= i < |ms| :: r[i] == MweSet(MarkedIds(ms), ms[i])
  {
    var ids := MarkedIds(ms);
    seq(|ms|, i requires 0 <= i < |ms| => MweSet(ids, ms[i]))
  }

  // ---------------------------------------------------------------------
  // get_mwe_indexes

  /** `get_mwe_indexes`, stated over the units: blank text has no units and
      gives `[]`; otherwise every unit must be well formed, every MWE
      complete, and the result has one set per unit. */
  function MweIndexes(text: string): (r: Result<seq<set<int>>>)
    ensures IsBlank(text) ==> r == Ok([])
    ensures r.Ok? ==> |r.value| == |Words(text)|
    ensures r.Ok? <==> var ms := MapResult(Words(text), UnitMarker); ms.Ok? && Consistent(ms.value)
  {
    if IsBlank(text) then Ok([])
    else
      var ms :- MapResult(Words(text), UnitMarker);
      if Consistent(ms) then Ok(MweSets(ms)) else Err
  }

  /** The declared total of `x` after unit `m` is added to `ms`. */
  function DeclaredTotalStep(ms: seq<UnitMark>, m: UnitMark, x: nat): nat {
    if x in MarkedIds(ms) then DeclaredTotal(ms, x) else if HasId(m, x) then m.value.1 else 0
  }

  /** Adding one unit at the end extends the keys, the buckets and the
      declared totals the way one loop iteration updates the dictionary. */
  lemma {:induction false} ExtendBuckets(ms: seq<UnitMark>, m: UnitMark)
    ensures MarkedIds(ms + [m]) == MarkedIds(ms) + (if m.Some? then {m.value.0} else {})
    ensures forall x: nat :: Positions(ms + [m], x) == Positions(ms, x) + (if HasId(m, x) then [|ms|] else [])
    ensures forall x: nat :: DeclaredTotal(ms + [m], x) == DeclaredTotalStep(ms, m, x)
  {
    assert Init(ms + [m]) == ms;
  }

  /** The sets of the units of a consistent sequence of marks, unit by
      unit: `{}` exactly for an unmarked unit, otherwise one number between
      1 and the number of distinct raw ids; equal sets exactly for equal raw
      ids; a smaller raw id gets a smaller number. */
  lemma {:induction false} MweSetsNumbering(ms: seq<UnitMark>, i: nat, j: nat)
    requires i < |ms| && j < |ms|
    ensures var r := MweSets(ms);
      && (ms[i].None? <==> r[i] == {})
      && (ms[i].Some? ==> exists k | 1 <= k <= |MarkedIds(ms)| :: r[i] == {k})
      && (ms[i].Some? && ms[j].Some? ==> (r[i] == r[j] <==> ms[i].value.0 == ms[j].value.0))
      && (ms[i].Some? && ms[j].Some? && ms[i].value.0 < ms[j].value.0 ==>
            forall a, b | a in r[i] && b in r[j] :: a < b)
  {
    var ids := MarkedIds(ms);
    var r := MweSets(ms);
    if ms[i].Some? {
      MarkedIdsMembers(ms, ms[i].value.0);
      assert HasId(ms[i], ms[i].value.0);
      RankBounds(ids, ms[i].value.0);
      assert r[i] == {Rank(ids, ms[i].value.0) as int};
    }
    if ms[i].Some? && ms[j].Some? {
      var a := ms[i].value.0;
      var b := ms[j].value.0;
      MarkedIdsMembers(ms, a);
      MarkedIdsMembers(ms, b);
      assert HasId(ms[i], a) && HasId(ms[j], b);
      assert r[i] == {Rank(ids, a) as int} && r[j] == {Rank(ids, b) as int};
      if a < b {
        RankMonotone(ids, a, b);
      } else if b < a {
        RankMonotone(ids, b, a);
      }
    }
  }

  /** A successful call gives the sets of the units' marks. */
  lemma {:induction false} MweIndexesValue(text: string)
    requires MweIndexes(text).Ok?
    ensures MapResult(Words(text), UnitMarker).Ok?
    ensures MweIndexes(text).value == MweSets(MapResult(Words(text), UnitMarker).value)
  {
  }

  /** What a successful call means unit by unit, in terms of the marks the
      units carry (see `MweSetsNumbering`). */
  lemma {:induction false} MweIndexesNumbering(text: string, i: nat, j: nat)
    requires MweIndexes(text).Ok?
    requires i < |Words(text)| && j < |Words(text)|
    ensures MapResult(Words(text), UnitMarker).Ok?
    ensures var r := MweIndexes(text).value;
      var ms := MapResult(Words(text), UnitMarker).value;
      && (ms[i].None? <==> r[i] == {})
      && (ms[i].Some? ==> exists k | 1 <= k <= |MarkedIds(ms)| :: r[i] == {k})
      && (ms[i].Some? && ms[j].Some? ==> (r[i] == r[j] <==> ms[i].value.0 == ms[j].value.0))
      && (ms[i].Some? && ms[j].Some? && ms[i].value.0 < ms[j].value.0 ==>
            forall a, b | a in r[i] && b in r[j] :: a < b)
  {
    MweIndexesValue(text);
    MweSetsNumbering(MapResult(Words(text), UnitMarker).value, i, j);
  }

  /** One malformed unit fails the whole call. */
  lemma {:induction false} MweIndexesUnitErr(text: string, i: nat)
    requires i < |Words(text)| && UnitMarker(Words(text)[i]).Err?
    ensures MweIndexes(text) == Err
  {
  }

  /** When every unit is well formed, the call succeeds exactly when the
      marks are consistent, and then gives their sets. */
  lemma {:induction false} MweIndexesOfMarks(text: string, ms: seq<UnitMark>)
    requires MapResult(Words(text), UnitMarker) == Ok(ms)
    ensures MweIndexes(text) == if Consistent(ms) then Ok(MweSets(ms)) else Err
  {
    if IsBlank(text) {
      assert ms == [];
    }
  }

  /** The dictionary `mwe_data`: raw id to (declared total, positions). */
  type MweData = map<nat, (nat, seq<nat>)>

  /** Storing the mark of unit `i`: a new id is entered with its declared
      total and no positions, then the position is appended to its bucket. */
  function AddMark(data: MweData, m: UnitMark, i: nat): MweData {
    if m.None? then data
    else
      var id := m.value.0;
      if id in data then data[id := (data[id].0, data[id].1 + [i])]
      else data[id := (m.value.1, [i])]
  }

  /** `data` is the dictionary of the marks `ms`. */
  predicate IsMweData(data: MweData, ms: seq<UnitMark>) {
    && data.Keys == MarkedIds(ms)
    && forall id | id in data :: data[id] == (DeclaredTotal(ms, id), Positions(ms, id))
  }

  /** Storing one more mark keeps the dictionary in step with the marks. */
  lemma {:induction false} AddMarkKeepsData(data: MweData, ms: seq<UnitMark>, m: UnitMark)
    requires IsMweData(data, ms)
    ensures IsMweData(AddMark(data, m, |ms|), ms + [m])
  {
    ExtendBuckets(ms, m);
    var d := AddMark(data, m, |ms|);
    var ms' := ms + [m];
    forall id | id in d ensures d[id] == (DeclaredTotal(ms', id), Positions(ms', id)) {
      assert DeclaredTotal(ms', id) == DeclaredTotalStep(ms, m, id);
      assert Positions(ms', id) == Positions(ms, id) + (if HasId(m, id) then [|ms|] else []);
      if !HasId(m, id) {
        assert id in data;
        assert d[id] == data[id];
        assert DeclaredTotal(ms', id) == DeclaredTotal(ms, id);
        assert Positions(ms', id) == Positions(ms, id);
      } else if id in data {
        assert d[id] == (data[id].0, data[id].1 + [|ms|]);
        assert DeclaredTotal(ms', id) == DeclaredTotal(ms, id);
        assert Positions(ms', id) == Positions(ms, id) + [|ms|];
      } else {
        PositionsOfUnmarked(ms, id);
        assert d[id] == (m.value.1, [|ms|]);
        assert DeclaredTotal(ms', id) == m.value.1;
        assert Positions(ms', id) == [|ms|];
      }
    }
  }

  /** The first pass of `get_mwe_indexes`: the mark of every unit in order,
      and the dictionary filled from them; fails at the first malformed
      unit. */
  method CollectMarks(units: seq<string>) returns (r: Result<(seq<UnitMark>, MweData)>)
    ensures r.Ok? <==> MapResult(units, UnitMarker).Ok?
    ensures r.Ok? ==> MapResult(units, UnitMarker) == Ok(r.value.0) && IsMweData(r.value.1, r.value.0)
  {
    var ms: seq<UnitMark> := [];
    var data: MweData := map[];
    var i := 0;
    while i < |units|
      invariant 0 <= i <= |units|
      invariant |ms| == i
      invariant forall k | 0 <= k < i :: UnitMarker(units[k]) == Ok(ms[k])
      invariant IsMweData(data, ms)
    {
      var m := UnitMarker(units[i]);
      if m.Err? {
        return Err;
      }
      AddMarkKeepsData(data, ms, m.value);
      data := AddMark(data, m.value, i);
      ms := ms + [m.value];
      i := i + 1;
    }
    MapResultAllOk(units, UnitMarker, ms);
    r := Ok((ms, data));
  }

  /** The second pass: every bucket holds as many positions as its declared
      total. */
  method CheckCounts(data: MweData) returns (ok: bool)
    ensures ok <==> forall id | id in data :: |data[id].1| == data[id].0
  {
    var keys := data.Keys;
    while keys != {}
      invariant keys <= data.Keys
      invariant forall id | id in data.Keys - keys :: |data[id].1| == data[id].0
      decreases keys
    {
      var id :| id in keys;
      if |data[id].1| != data[id].0 {
        return false;
      }
      keys := keys - {id};
    }
    return true;
  }

  /** Strictly increasing: each id at most once, in numeric order. */
  predicate Increasing(s: seq<nat>) {
    forall i, j | 0 <= i < j < |s| :: s[i] < s[j]
  }

  /** A non-empty set of ids has a smallest one. */
  lemma {:induction false} SmallestId(ids: set<nat>) returns (m: nat)
    requires ids != {}
    ensures m in ids && forall x | x in ids :: m <= x
    decreases ids
  {
    var x :| x in ids;
    if ids == {x} {
      m := x;
    } else {
      var n := SmallestId(ids - {x});
      m := if x < n then x else n;
      forall y | y in ids ensures m <= y {
        if y != x {
          assert y in ids - {x};
        }
      }
    }
  }

  /** `sorted(mwe_data.keys())`: the ids in increasing order, each once,
      taken smallest first. */
  method SortIds(ids: set<nat>) returns (sorted: seq<nat>)
    ensures Increasing(sorted)
    ensures forall x :: x in sorted <==> x in ids
  {
    sorted := [];
    var rest := ids;
    while rest != {}
      invariant rest <= ids
      invariant Increasing(sorted)
      invariant forall x :: x in sorted <==> x in ids - rest
      invariant forall i, y | 0 <= i < |sorted| && y in rest :: sorted[i] < y
      decreases rest
    {
      ghost var least := SmallestId(rest);
      var m :| m in rest && forall x | x in rest :: m <= x;
      sorted := sorted + [m];
      rest := rest - {m};
    }
  }

  /** The ids a sequence holds. */
  function Elems(s: seq<nat>): set<nat> {
    set x | x in s
  }

  /** A strictly increasing sequence has as many distinct elements as
      positions. */
  lemma {:induction false} IncreasingCard(s: seq<nat>)
    requires Increasing(s)
    ensures |Elems(s)| == |s|
    decreases |s|
  {
    if |s| > 0 {
      var last := s[|s| - 1];
      var init := s[..|s| - 1];
      IncreasingCard(init);
      assert s == init + [last];
      assert Elems(s) == Elems(init) + {last};
      forall j | 0 <= j < |init| ensures init[j] != last {
        assert init[j] == s[j];
      }
      assert last !in Elems(init);
    }
  }

  /** In the increasing enumeration of `ids`, the id at index `k` has
      exactly `k` smaller ids, so `enumerate` numbering it `k + 1` gives its
      rank. */
  lemma {:induction false} RankInSorted(ids: set<nat>, sorted: seq<nat>, k: nat)
    requires Increasing(sorted)
    requires forall x :: x in sorted <==> x in ids
    requires k < |sorted|
    ensures Rank(ids, sorted[k]) == k + 1
  {
    var before := sorted[..k];
    forall x | x in Below(ids, sorted[k]) ensures x in before {
      var j :| 0 <= j < |sorted| && sorted[j] == x;
      assert j < k;
      assert before[j] == x;
    }
    forall x | x in before ensures x in Below(ids, sorted[k]) {
      var j :| 0 <= j < k && before[j] == x;
      assert sorted[j] == x;
    }
    assert Below(ids, sorted[k]) == Elems(before);
    IncreasingCard(before);
  }

  /** `mwe_id_to_int`: the id at index `idx` of the sorted keys numbered
      `idx + 1`, as `enumerate` does. */
  method NumberSorted(sorted: seq<nat>) returns (toInt: map<nat, int>)
    requires Increasing(sorted)
    ensures forall k | 0 <= k < |sorted| :: sorted[k] in toInt && toInt[sorted[k]] == k + 1
  {
    toInt := map[];
    var idx := 0;
    while idx < |sorted|
      invariant 0 <= idx <= |sorted|
      invariant forall k | 0 <= k < idx :: sorted[k] in toInt && toInt[sorted[k]] == k + 1
    {
      toInt := toInt[sorted[idx] := idx + 1];
      idx := idx + 1;
    }
  }

  /** The last pass: sort the keys, number them from 1 in that order
      (`enumerate`, `idx + 1`), and give every unit the set of its number,
      or `{}`.  The result is the rank numbering `MweSets`, which counts the
      smaller ids instead of sorting. */
  method Renumber(ms: seq<UnitMark>, ids: set<nat>) returns (result: seq<set<int>>)
    requires ids == MarkedIds(ms)
    ensures result == MweSets(ms)
  {
    var sorted := SortIds(ids);
    var toInt := NumberSorted(sorted);
    forall id | id in ids ensures id in toInt && toInt[id] == Rank(ids, id) {
      var k :| 0 <= k < |sorted| && sorted[k] == id;
      RankInSorted(ids, sorted, k);
    }
    result := [];
    var i := 0;
    while i < |ms|
      invariant 0 <= i <= |ms|
      invariant |result| == i
      invariant forall k | 0 <= k < i :: result[k] == MweSet(ids, ms[k])
    {
      var next: set<int> := {};
      if ms[i].Some? {
        MarkedIdsMembers(ms, ms[i].value.0);
        assert HasId(ms[i], ms[i].value.0);
        next := {toInt[ms[i].value.0]};
      }
      result := result + [next];
      i := i + 1;
    }
  }

  /** `get_mwe_indexes` as the repository computes it: one pass over the
      units filling the dictionary from raw id to (declared total, unit
      positions), a pass over the dictionary checking every count, and a
      pass building the sets from the renumbering of the sorted keys.  It
      agrees with `MweIndexes` on every input. */
  method GetMweIndexes(text: string) returns (r: Result<seq<set<int>>>)
    ensures r == MweIndexes(text)
  {
    if IsBlank(text) {
      return Ok([]);
    }
    var collected := CollectMarks(Words(text));
    if collected.Err? {
      return Err;
    }
    var (ms, data) := collected.value;
    MweIndexesOfMarks(text, ms);
    var ok := CheckCounts(data);
    if !ok {
      return Err;
    }
    var sets := Renumber(ms, data.Keys);
    r := Ok(sets);
  }
}
