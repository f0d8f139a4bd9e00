/** The Python string primitives the parsers are built from, over `string`
    (= `seq<char>`): `str.split()` (split on whitespace runs),
    `str.split(c)`, `str.strip()`, `sep.join(...)`, `str.find(...)`,
    `str.startswith(...)` and `str.lower()`.  Each comes with the contract
    that pins down its meaning, so that the parsers' contracts can be stated
    in terms of them. */
module Text {
  import opened Outcome

  /** Python's notion of whitespace (`str.isspace()`, also used by `\s`,
      `str.split()` and `str.strip()`): the characters U+0009..U+000D,
      U+001C..U+0020, U+0085, U+00A0, U+1680, U+2000..U+200A, U+2028, U+2029,
      U+202F, U+205F and U+3000. */
  predicate IsSpace(c: char) {
    var n := c as int;
    || (9 <= n <= 13)
    || (28 <= n <= 32)
    || n == 0x85
    || n == 0xA0
    || n == 0x1680
    || (0x2000 <= n <= 0x200A)
    || n == 0x2028
    || n == 0x2029
    || n == 0x202F
    || n == 0x205F
    || n == 0x3000
  }

  predicate IsDigit(c: char) {
    '0' <= c <= '9'
  }

  predicate IsUpper(c: char) {
    'A' <= c <= 'Z'
  }

  /** No whitespace anywhere in `s`. */
  predicate NoSpace(s: string) {
    forall i | 0 <= i < |s| :: !IsSpace(s[i])
  }

  /** `s` is empty or whitespace only: Python's `not s.strip()`. */
  predicate IsBlank(s: string) {
    forall i | 0 <= i < |s| :: IsSpace(s[i])
  }

  predicate StartsWith(s: string, prefix: string) {
    |prefix| <= |s| && s[..|prefix|] == prefix
  }

  predicate EndsWithChar(s: string, c: char) {
    |s| > 0 && s[|s| - 1] == c
  }

  /** Number of leading non-whitespace characters of `s`. */
  function WordLen(s: string): (n: nat)
    ensures n <= |s|
    ensures NoSpace(s[..n])
    ensures n == |s| || IsSpace(s[n])
  {
    if |s| == 0 || IsSpace(s[0]) then 0
    else
      var m := WordLen(s[1..]);
      assert s[..1 + m] == [s[0]] + s[1..][..m];
      1 + m
  }

  /** Python's `s.split()` (equivalently `re.findall(r"\S+", s)`): the maximal
      runs of non-whitespace characters, in order. */
  function Words(s: string): (ws: seq<string>)
    ensures forall i | 0 <= i < |ws| :: |ws[i]| > 0 && NoSpace(ws[i])
    ensures |ws| == 0 <==> IsBlank(s)
    decreases |s|
  {
    if |s| == 0 then []
    else if IsSpace(s[0]) then
      assert IsBlank(s) <==> IsBlank(s[1..]) by {
        if IsBlank(s[1..]) {
          forall i | 0 <= i < |s| ensures IsSpace(s[i]) {
            if i > 0 { assert s[i] == s[1..][i - 1]; }
          }
        }
      }
      Words(s[1..])
    else
      var n := WordLen(s);
      [s[..n]] + Words(s[n..])
  }

  /** Every character of `s` that is not whitespace, in order. */
  function NonSpaceChars(s: string): string
  {
    if |s| == 0 then []
    else (if IsSpace(s[0]) then [] else [s[0]]) + NonSpaceChars(s[1..])
  }

  /** The concatenation of a sequence of strings. */
  function Concat(ws: seq<string>): string
  {
    if |ws| == 0 then [] else ws[0] + Concat(ws[1..])
  }

  lemma {:induction false} NonSpaceCharsAppend(a: string, b: string)
    ensures NonSpaceChars(a + b) == NonSpaceChars(a) + NonSpaceChars(b)
    decreases |a|
  {
    if |a| == 0 {
      assert a + b == b;
    } else {
      assert (a + b)[1..] == a[1..] + b;
      NonSpaceCharsAppend(a[1..], b);
    }
  }

  lemma {:induction false} NonSpaceCharsOfWord(w: string)
    requires NoSpace(w)
    ensures NonSpaceChars(w) == w
    decreases |w|
  {
    if |w| > 0 {
      NonSpaceCharsOfWord(w[1..]);
    }
  }

  /** Splitting on whitespace loses no character other than whitespace and
      invents none: the words, glued back together, are exactly the
      non-whitespace characters of the input. */
  lemma {:induction false} WordsKeepContent(s: string)
    ensures Concat(Words(s)) == NonSpaceChars(s)
    decreases |s|
  {
    if |s| == 0 {
    } else if IsSpace(s[0]) {
      WordsKeepContent(s[1..]);
    } else {
      var n := WordLen(s);
      assert s == s[..n] + s[n..];
      NonSpaceCharsAppend(s[..n], s[n..]);
      NonSpaceCharsOfWord(s[..n]);
      WordsKeepContent(s[n..]);
    }
  }

  /** A single non-empty whitespace-free string splits into itself. */
  lemma {:induction false} WordsOfWord(w: string)
    requires |w| > 0 && NoSpace(w)
    ensures Words(w) == [w]
  {
    var n := WordLen(w);
    assert n == |w|;
    assert w[..n] == w;
    assert w[n..] == [];
  }

  /** Python's `sep.join(ws)`. */
  function Join(ws: seq<string>, sep: string): string
  {
    if |ws| == 0 then []
    else if |ws| == 1 then ws[0]
    else ws[0] + sep + Join(ws[1..], sep)
  }

  /** A join starts with the first character of its first piece and ends
      with the last character of its last piece. */
  lemma {:induction false} JoinEnds(ws: seq<string>, sep: string)
    requires |ws| > 0 && forall i | 0 <= i < |ws| :: |ws[i]| > 0
    ensures var j := Join(ws, sep);
      |j| > 0 && j[0] == ws[0][0] && j[|j| - 1] == ws[|ws| - 1][|ws[|ws| - 1]| - 1]
    decreases |ws|
  {
    if |ws| > 1 {
      assert ws[1..][|ws[1..]| - 1] == ws[|ws| - 1];
      JoinEnds(ws[1..], sep);
      var rest := Join(ws[1..], sep);
      assert Join(ws, sep) == ws[0] + sep + rest;
    }
  }

  /** Joining whitespace-free pieces with a whitespace-free separator gives
      a whitespace-free string. */
  lemma {:induction false} JoinNoSpace(ws: seq<string>, sep: string)
    requires NoSpace(sep)
    requires forall i | 0 <= i < |ws| :: NoSpace(ws[i])
    ensures NoSpace(Join(ws, sep))
    decreases |ws|
  {
    if |ws| > 1 {
      JoinNoSpace(ws[1..], sep);
      var a := ws[0] + sep;
      var b := Join(ws[1..], sep);
      assert forall k | 0 <= k < |a| :: a[k] == if k < |ws[0]| then ws[0][k] else sep[k - |ws[0]|];
      assert forall k | 0 <= k < |a + b| :: (a + b)[k] == if k < |a| then a[k] else b[k - |a|];
    }
  }

  /** A character found neither in the pieces nor in the separator is not
      in their join. */
  lemma {:induction false} JoinAvoids(ws: seq<string>, sep: string, c: char)
    requires c !in sep
    requires forall i | 0 <= i < |ws| :: c !in ws[i]
    ensures c !in Join(ws, sep)
    decreases |ws|
  {
    if |ws| > 1 {
      JoinAvoids(ws[1..], sep, c);
    }
  }

  lemma {:induction false} WordLenOfWordThenSpace(w: string, rest: string)
    requires NoSpace(w)
    requires |rest| == 0 || IsSpace(rest[0])
    ensures WordLen(w + rest) == |w|
    decreases |w|
  {
    if |w| > 0 {
      assert (w + rest)[1..] == w[1..] + rest;
      WordLenOfWordThenSpace(w[1..], rest);
    } else {
      assert w + rest == rest;
    }
  }

  /** Joining whitespace-free, non-empty words with single spaces and
      splitting the result again gives the words back (the text that the
      CorCenCC and ToRCH parsers build from their tokens re-splits into those
      tokens). */
  lemma {:induction false} WordsOfJoin(ws: seq<string>)
    requires forall i | 0 <= i < |ws| :: |ws[i]| > 0 && NoSpace(ws[i])
    ensures Words(Join(ws, " ")) == ws
    decreases |ws|
  {
    if |ws| == 0 {
    } else if |ws| == 1 {
      WordsOfWord(ws[0]);
    } else {
      var rest := Join(ws[1..], " ");
      var s := ws[0] + " " + rest;
      assert s == ws[0] + (" " + rest);
      WordLenOfWordThenSpace(ws[0], " " + rest);
      assert s[..|ws[0]|] == ws[0];
      assert s[|ws[0]|..] == " " + rest;
      assert (" " + rest)[1..] == rest;
      WordsOfJoin(ws[1..]);
    }
  }

  /** The number of occurrences of `c` in `s` (`s.count(c)`). */
  function Occurrences(s: string, c: char): nat
  {
    if |s| == 0 then 0 else (if s[0] == c then 1 else 0) + Occurrences(s[1..], c)
  }

  /** Python's `s.split(c)` for a one-character separator: always at least one
      piece, possibly empty ones, none containing `c`, one more piece than
      there are occurrences of `c`, and joining the pieces with `c` gives `s`
      back. */
  function Split(s: string, c: char): (ps: seq<string>)
    ensures |ps| == Occurrences(s, c) + 1
    ensures forall i | 0 <= i < |ps| :: c !in ps[i]
    ensures Join(ps, [c]) == s
    decreases |s|
  {
    if |s| == 0 then [""]
    else
      var rest := Split(s[1..], c);
      assert s == [s[0]] + s[1..];
      if s[0] == c then
        [""] + rest
      else
        var ps := [[s[0]] + rest[0]] + rest[1..];
        JoinOtherFirst(s[0], rest[0], ps, c);
        assert [rest[0]] + ps[1..] == rest;
        ps
  }

  /** The pieces of a whitespace-free string are whitespace-free. */
  lemma {:induction false} SplitNoSpace(s: string, c: char)
    requires NoSpace(s)
    ensures forall k | 0 <= k < |Split(s, c)| :: NoSpace(Split(s, c)[k])
    decreases |s|
  {
    if |s| > 0 {
      var rest := Split(s[1..], c);
      SplitNoSpace(s[1..], c);
      if s[0] != c {
        var ps := Split(s, c);
        assert ps == [[s[0]] + rest[0]] + rest[1..];
        forall k | 0 <= k < |ps| ensures NoSpace(ps[k]) {
          if k > 0 {
            assert ps[k] == rest[k];
          }
        }
      }
    }
  }

  lemma {:induction false} SplitSeparatorFirst(t: string, c: char)
    ensures Split([c] + t, c) == [""] + Split(t, c)
  {
    assert ([c] + t)[1..] == t;
  }

  lemma {:induction false} SplitOtherFirst(x: char, t: string, c: char)
    requires x != c
    ensures Split([x] + t, c) == [[x] + Split(t, c)[0]] + Split(t, c)[1..]
  {
    assert ([x] + t)[1..] == t;
  }

  lemma {:induction false} JoinOtherFirst(x: char, w: string, ps: seq<string>, c: char)
    requires |ps| >= 1 && ps[0] == [x] + w
    ensures Join(ps, [c]) == [x] + Join([w] + ps[1..], [c])
  {
    var ps' := [w] + ps[1..];
    assert ps'[1..] == ps[1..];
    if |ps| > 1 {
      assert Join(ps, [c]) == ([x] + w) + [c] + Join(ps[1..], [c]);
      assert Join(ps', [c]) == w + [c] + Join(ps[1..], [c]);
    }
  }

  /** The converse of `Split`'s round trip: pieces free of `c`, joined with
      `c`, split back into exactly those pieces. */
  lemma {:induction false} SplitOfJoin(ps: seq<string>, c: char)
    requires |ps| >= 1
    requires forall i | 0 <= i < |ps| :: c !in ps[i]
    ensures Split(Join(ps, [c]), c) == ps
    decreases |ps|, |ps[0]|, 1
  {
    if |ps[0]| == 0 {
      SplitOfJoinEmptyHead(ps, c);
    } else {
      SplitOfJoinCharHead(ps, c);
    }
  }

  lemma {:induction false} SplitOfJoinEmptyHead(ps: seq<string>, c: char)
    requires |ps| >= 1 && ps[0] == ""
    requires forall i | 0 <= i < |ps| :: c !in ps[i]
    ensures Split(Join(ps, [c]), c) == ps
    decreases |ps|, |ps[0]|, 0
  {
    if |ps| > 1 {
      var rest := Join(ps[1..], [c]);
      assert Join(ps, [c]) == [c] + rest;
      SplitSeparatorFirst(rest, c);
      SplitOfJoin(ps[1..], c);
      assert ps == [""] + ps[1..];
    }
  }

  lemma {:induction false} SplitOfJoinCharHead(ps: seq<string>, c: char)
    requires |ps| >= 1 && |ps[0]| > 0
    requires forall i | 0 <= i < |ps| :: c !in ps[i]
    ensures Split(Join(ps, [c]), c) == ps
    decreases |ps|, |ps[0]|, 0
  {
    var x := ps[0][0];
    var w := ps[0][1..];
    assert ps[0] == [x] + w;
    var ps' := [w] + ps[1..];
    assert forall i | 0 <= i < |ps'| :: c !in ps'[i] by {
      assert ps'[1..] == ps[1..];
      assert c !in w by {
        forall k | 0 <= k < |w| ensures w[k] != c {
          assert w[k] == ps[0][k + 1];
        }
      }
    }
    JoinOtherFirst(x, w, ps, c);
    SplitOfJoin(ps', c);
    SplitOtherFirst(x, Join(ps', [c]), c);
    assert ps == [[x] + ps'[0]] + ps'[1..];
  }

  /** Number of whitespace characters at the start of `s`. */
  function LeadingSpace(s: string): (n: nat)
    ensures n <= |s|
    ensures forall k | 0 <= k < n :: IsSpace(s[k])
    ensures n == |s| || !IsSpace(s[n])
  {
    if |s| > 0 && IsSpace(s[0]) then 1 + LeadingSpace(s[1..]) else 0
  }

  /** Where the trailing whitespace of `s` begins. */
  function TrailingSpaceStart(s: string): (m: nat)
    ensures m <= |s|
    ensures forall k | m <= k < |s| :: IsSpace(s[k])
    ensures m == 0 || !IsSpace(s[m - 1])
  {
    if |s| > 0 && IsSpace(s[|s| - 1]) then TrailingSpaceStart(s[..|s| - 1]) else |s|
  }

  /** `s.lstrip()`: leading whitespace removed. */
  function StripStart(s: string): (r: string)
    ensures |r| <= |s|
  {
    if |s| > 0 && IsSpace(s[0]) then StripStart(s[1..]) else s
  }

  /** `s.rstrip()`: trailing whitespace removed. */
  function StripEnd(s: string): (r: string)
    ensures |r| <= |s|
  {
    if |s| > 0 && IsSpace(s[|s| - 1]) then StripEnd(s[..|s| - 1]) else s
  }

  /** Python's `s.strip()`: the leading and the trailing whitespace cut
      off; nothing is left of a blank string. */
  function Strip(s: string): (r: string)
    ensures |r| <= |s|
  {
    StripEnd(StripStart(s))
  }

  /** `lstrip` drops exactly the leading whitespace. */
  lemma {:induction false} StripStartIs(s: string)
    ensures StripStart(s) == s[LeadingSpace(s)..]
    decreases |s|
  {
    if |s| > 0 && IsSpace(s[0]) {
      StripStartIs(s[1..]);
      assert s[1..][LeadingSpace(s[1..])..] == s[1 + LeadingSpace(s[1..])..];
    }
  }

  /** `rstrip` drops exactly the trailing whitespace. */
  lemma {:induction false} StripEndIs(s: string)
    ensures StripEnd(s) == s[..TrailingSpaceStart(s)]
    decreases |s|
  {
    if |s| > 0 && IsSpace(s[|s| - 1]) {
      StripEndIs(s[..|s| - 1]);
    }
  }

  /** `Strip(s)` as the slice `s[i..j]` between the leading and the
      trailing whitespace. */
  lemma StripSlice(s: string) returns (i: nat, j: nat)
    ensures i <= j <= |s| && Strip(s) == s[i..j]
    ensures forall k | 0 <= k < i :: IsSpace(s[k])
    ensures forall k | j <= k < |s| :: IsSpace(s[k])
    ensures i < j ==> !IsSpace(s[i]) && !IsSpace(s[j - 1])
    ensures i < |s| <==> i < j
  {
    i := LeadingSpace(s);
    var t := s[i..];
    var m := TrailingSpaceStart(t);
    StripStartIs(s);
    StripEndIs(t);
    j := i + m;
    SpaceAfter(s, i, m);
    if i < |s| {
      assert t[0] == s[i];
    }
    if m > 0 {
      assert t[m - 1] == s[j - 1];
    }
  }

  /** Whitespace at the end of the suffix `s[i..]` is whitespace at the end
      of `s`. */
  lemma SpaceAfter(s: string, i: nat, m: nat)
    requires i + m <= |s|
    requires forall k | m <= k < |s[i..]| :: IsSpace(s[i..][k])
    ensures forall k | i + m <= k < |s| :: IsSpace(s[k])
  {
    forall k | i + m <= k < |s|
      ensures IsSpace(s[k])
    {
      assert s[k] == s[i..][k - i];
    }
  }

  /** What `Strip` gives: a slice of `s` that neither starts nor ends with
      whitespace and drops only whitespace around it; empty exactly when `s`
      is blank, and `s` itself when `s` has no whitespace at all. */
  lemma {:induction false} StripSpec(s: string)
    ensures exists i, j | 0 <= i <= j <= |s| :: Strip(s) == s[i..j] && IsBlank(s[..i]) && IsBlank(s[j..])
    ensures var r := Strip(s); |r| > 0 ==> !IsSpace(r[0]) && !IsSpace(r[|r| - 1])
    ensures |Strip(s)| == 0 <==> IsBlank(s)
    ensures NoSpace(s) ==> Strip(s) == s
  {
    var i, j := StripSlice(s);
    StripSides(s, i, j);
    StripEmpty(s);
    if NoSpace(s) {
      StripEmpty(s);
      assert s[0..|s|] == s;
    }
  }

  /** What `Strip` cuts off on either side is whitespace. */
  lemma {:induction false} StripSides(s: string, i: nat, j: nat)
    requires i <= j <= |s|
    requires forall k | 0 <= k < i :: IsSpace(s[k])
    requires forall k | j <= k < |s| :: IsSpace(s[k])
    ensures IsBlank(s[..i]) && IsBlank(s[j..])
  {
    assert forall k | 0 <= k < i :: s[..i][k] == s[k];
    assert forall k | 0 <= k < |s| - j :: s[j..][k] == s[j + k];
  }

  /** All of `s` is leading whitespace exactly when `s` is blank. */
  lemma {:induction false} StripEmpty(s: string)
    ensures LeadingSpace(s) == |s| <==> IsBlank(s)
    ensures NoSpace(s) ==> LeadingSpace(s) == 0 && TrailingSpaceStart(s) == |s|
  {
    if NoSpace(s) && |s| > 0 {
      assert !IsSpace(s[0]) && !IsSpace(s[|s| - 1]);
    }
  }

  /** A string with no whitespace at either end is its own strip. */
  lemma {:induction false} StripUnpadded(s: string)
    requires |s| > 0 && !IsSpace(s[0]) && !IsSpace(s[|s| - 1])
    ensures Strip(s) == s
  {
    assert StripStart(s) == s;
  }

  /** `pat` occurs in `s` starting at position `q`. */
  predicate MatchAt(s: string, pat: string, q: nat) {
    q + |pat| <= |s| && s[q..q + |pat|] == pat
  }

  /** Python's `s.find(pat)` returning `-1` as `None`: the first position
      at which `pat` occurs. */
  function Find(s: string, pat: string): (r: Option<nat>)
    ensures r.Some? ==> MatchAt(s, pat, r.value)
    ensures r.Some? ==> forall q: nat | q < r.value :: !MatchAt(s, pat, q)
    ensures r.None? ==> forall q: nat :: !MatchAt(s, pat, q)
  {
    FindFrom(s, pat, 0)
  }

  function FindFrom(s: string, pat: string, from: nat): (r: Option<nat>)
    requires forall q: nat | q < from :: !MatchAt(s, pat, q)
    ensures r.Some? ==> MatchAt(s, pat, r.value)
    ensures r.Some? ==> forall q: nat | q < r.value :: !MatchAt(s, pat, q)
    ensures r.None? ==> forall q: nat :: !MatchAt(s, pat, q)
    decreases |s| - from
  {
    if from + |pat| > |s| then None
    else if MatchAt(s, pat, from) then Some(from)
    else FindFrom(s, pat, from + 1)
  }

  /** Python's `pat in s`. */
  predicate Contains(s: string, pat: string) {
    Find(s, pat).Some?
  }

  /** ASCII lower-casing of one character. */
  function LowerChar(c: char): char {
    if 'A' <= c <= 'Z' then (c as int + 32) as char else c
  }

  /** Python's `s.lower()`, restricted to ASCII letters.  No non-ASCII
      character lower-cases to an ASCII letter of `true` or `false`, so
      comparing the result with those two words decides exactly as Python
      does. */
  function Lower(s: string): (r: string)
    ensures |r| == |s|
    ensures forall i | 0 <= i < |s| :: r[i] == LowerChar(s[i])
  {
    seq(|s|, i requires 0 <= i < |s| => LowerChar(s[i]))
  }

  /** Every string stripped, the empty ones dropped, order kept.  This is
      how every parser loops over the lines of a file, and how ToRCH cleans
      the pieces of a label string. */
  function Cleaned(lines: seq<string>): (r: seq<string>)
    ensures |r| <= |lines|
  {
    if |lines| == 0 then []
    else
      var s := Strip(lines[0]);
      (if |s| == 0 then [] else [s]) + Cleaned(lines[1..])
  }

  /** Every line kept is non-empty and has no whitespace at either end. */
  lemma {:induction false} CleanedShape(lines: seq<string>)
    ensures forall i | 0 <= i < |Cleaned(lines)| ::
      var line := Cleaned(lines)[i];
      line != [] && !IsSpace(line[0]) && !IsSpace(line[|line| - 1])
    decreases |lines|
  {
    if |lines| > 0 {
      var s := Strip(lines[0]);
      var head: seq<string> := if |s| == 0 then [] else [s];
      var rest := Cleaned(lines[1..]);
      assert Cleaned(lines) == head + rest;
      StripSpec(lines[0]);
      CleanedShape(lines[1..]);
      var r := Cleaned(lines);
      forall i | 0 <= i < |r| ensures r[i] != [] && !IsSpace(r[i][0]) && !IsSpace(r[i][|r[i]| - 1]) {
        if i < |head| {
          assert r[i] == s;
        } else {
          assert r[i] == rest[i - |head|];
        }
      }
    }
  }

  /** Every line kept is the (non-empty) strip of some line of the file. */
  lemma {:induction false} CleanedFrom(lines: seq<string>)
    ensures forall i | 0 <= i < |Cleaned(lines)| :: exists j | 0 <= j < |lines| ::
      Cleaned(lines)[i] == Strip(lines[j])
    decreases |lines|
  {
    if |lines| > 0 {
      var r := Cleaned(lines);
      var s := Strip(lines[0]);
      var head: seq<string> := if |s| == 0 then [] else [s];
      var rest := Cleaned(lines[1..]);
      assert r == head + rest;
      CleanedFrom(lines[1..]);
      forall i | 0 <= i < |r| ensures exists j | 0 <= j < |lines| :: r[i] == Strip(lines[j]) {
        if i < |head| {
          assert r[i] == Strip(lines[0]);
        } else {
          var k := i - |head|;
          assert 0 <= k < |rest| && r[i] == rest[k];
          var j :| 0 <= j < |lines[1..]| && rest[k] == Strip(lines[1..][j]);
          assert lines[j + 1] == lines[1..][j];
        }
      }
    } else {
      assert Cleaned(lines) == [];
    }
  }

  /** The strip of every non-blank line of the file is kept. */
  lemma {:induction false} CleanedKeep(lines: seq<string>)
    ensures forall j | 0 <= j < |lines| :: !IsBlank(lines[j]) ==> Strip(lines[j]) in Cleaned(lines)
    decreases |lines|
  {
    if |lines| > 0 {
      var s := Strip(lines[0]);
      var head: seq<string> := if |s| == 0 then [] else [s];
      assert Cleaned(lines) == head + Cleaned(lines[1..]);
      StripSpec(lines[0]);
      CleanedKeep(lines[1..]);
      forall j | 0 <= j < |lines| && !IsBlank(lines[j]) ensures Strip(lines[j]) in Cleaned(lines) {
        if j > 0 {
          assert lines[1..][j - 1] == lines[j];
        }
      }
    }
  }

  /** Strings that are already non-empty and stripped are all kept, as
      they are. */
  lemma {:induction false} CleanedKeepsClean(lines: seq<string>)
    requires forall i | 0 <= i < |lines| :: |lines[i]| > 0 && Strip(lines[i]) == lines[i]
    ensures Cleaned(lines) == lines
    decreases |lines|
  {
    if |lines| > 0 {
      CleanedKeepsClean(lines[1..]);
      assert lines == [lines[0]] + lines[1..];
    }
  }

  /** The lines of a file from line `from` on, stripped, blank lines
      skipped, each paired with its index in the file (`enumerate` counts
      every physical line, blank ones included). */
  function NumberedLines(lines: seq<string>, from: nat): (r: seq<(nat, string)>)
    decreases |lines| - from
  {
    if from >= |lines| then []
    else
      var s := Strip(lines[from]);
      (if |s| == 0 then [] else [(from, s)]) + NumberedLines(lines, from + 1)
  }

  /** Every numbered line is the non-empty strip of the file line its number
      names, a line at or after `from`. */
  lemma {:induction false} NumberedLinesSound(lines: seq<string>, from: nat)
    ensures forall k | 0 <= k < |NumberedLines(lines, from)| ::
      from <= NumberedLines(lines, from)[k].0 < |lines|
      && NumberedLines(lines, from)[k].1 == Strip(lines[NumberedLines(lines, from)[k].0])
      && |NumberedLines(lines, from)[k].1| > 0
    decreases |lines| - from
  {
    if from < |lines| {
      var r := NumberedLines(lines, from);
      var s := Strip(lines[from]);
      var head: seq<(nat, string)> := if |s| == 0 then [] else [(from, s)];
      var rest := NumberedLines(lines, from + 1);
      assert r == head + rest;
      NumberedLinesSound(lines, from + 1);
      forall k | 0 <= k < |r| ensures from <= r[k].0 < |lines| && r[k].1 == Strip(lines[r[k].0]) && |r[k].1| > 0 {
        if k >= |head| {
          assert r[k] == rest[k - |head|];
        }
      }
    } else {
      assert NumberedLines(lines, from) == [];
    }
  }

  /** Every number handed out is at or after `from`. */
  lemma {:induction false} NumberedLinesAfter(lines: seq<string>, from: nat)
    ensures forall p | p in NumberedLines(lines, from) :: from <= p.0
    decreases |lines| - from
  {
    if from < |lines| {
      var s := Strip(lines[from]);
      var head: seq<(nat, string)> := if |s| == 0 then [] else [(from, s)];
      assert NumberedLines(lines, from) == head + NumberedLines(lines, from + 1);
      NumberedLinesAfter(lines, from + 1);
    }
  }

  /** The numbers of the numbered lines strictly increase: file order is
      kept. */
  lemma {:induction false} NumberedLinesOrdered(lines: seq<string>, from: nat)
    ensures forall k, m | 0 <= k < m < |NumberedLines(lines, from)| ::
      NumberedLines(lines, from)[k].0 < NumberedLines(lines, from)[m].0
    decreases |lines| - from
  {
    if from < |lines| {
      var r := NumberedLines(lines, from);
      var s := Strip(lines[from]);
      var head: seq<(nat, string)> := if |s| == 0 then [] else [(from, s)];
      var rest := NumberedLines(lines, from + 1);
      assert r == head + rest;
      NumberedLinesAfter(lines, from + 1);
      NumberedLinesOrdered(lines, from + 1);
      forall k, m | 0 <= k < m < |r| ensures r[k].0 < r[m].0 {
        if k >= |head| {
          assert r[k] == rest[k - |head|];
        }
        assert r[m] == rest[m - |head|];
        assert rest[m - |head|] in rest;
      }
    } else {
      assert NumberedLines(lines, from) == [];
    }
  }

  /** Every non-blank line from `from` on is numbered. */
  lemma {:induction false} NumberedLinesKeep(lines: seq<string>, from: nat)
    ensures forall j | from <= j < |lines| :: |Strip(lines[j])| > 0 ==> (j, Strip(lines[j])) in NumberedLines(lines, from)
    decreases |lines| - from
  {
    if from < |lines| {
      var s := Strip(lines[from]);
      var head: seq<(nat, string)> := if |s| == 0 then [] else [(from, s)];
      assert NumberedLines(lines, from) == head + NumberedLines(lines, from + 1);
      NumberedLinesKeep(lines, from + 1);
    }
  }
}
