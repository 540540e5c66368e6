/** The text form of a shared puzzle: the starting positions and the starting
    values, each joined with commas, the two lists separated by a bar
    ("6,12,18|3,5,2"). Decoding accepts only well-formed numbers and
    rejects lists of different lengths, positions off the board and values
    outside 1..6. The base64 layer wrapped around this text is not part of
    this model. */
module PuzzleText {
  import opened Wrappers
  import opened Rules

  datatype PuzzleData = PuzzleData(positions: seq<int>, values: seq<int>)

  predicate IsDigit(c: char) {
    '0' <= c <= '9'
  }

  function DigitChar(n: nat): (c: char)
    requires n < 10
    ensures IsDigit(c) && c as int - '0' as int == n
  {
    ('0' as int + n) as char
  }

  /** Decimal digits of `n`, most significant first, as `String(n)` writes them. */
  function NatToString(n: nat): (s: string)
    ensures |s| >= 1
    ensures forall k :: 0 <= k < |s| ==> IsDigit(s[k])
  {
    if n < 10 then [DigitChar(n)] else NatToString(n / 10) + [DigitChar(n % 10)]
  }

  /** `String(n)` for any integer: a minus sign before the digits of a negative number. */
  function NumberToString(n: int): (s: string)
    ensures n >= 0 ==> forall k :: 0 <= k < |s| ==> IsDigit(s[k])
    ensures forall k :: 0 <= k < |s| ==> s[k] != ',' && s[k] != '|'
  {
    if n < 0 then "-" + NatToString(-n) else NatToString(n)
  }

  /** The number a sequence of decimal digits denotes. */
  function DigitsValue(s: string): nat
    requires forall k :: 0 <= k < |s| ==> IsDigit(s[k])
  {
    if s == [] then 0
    else
      assert IsDigit(s[|s| - 1]);
      DigitsValue(s[..|s| - 1]) * 10 + (s[|s| - 1] as int - '0' as int)
  }

  /** Reading one number: one or more decimal digits and nothing else. */
  function ParseNumber(s: string): (r: Option<int>)
    ensures r.Some? <==> |s| >= 1 && forall k :: 0 <= k < |s| ==> IsDigit(s[k])
    ensures r.Some? ==> r.value >= 0
  {
    if |s| >= 1 && forall k :: 0 <= k < |s| ==> IsDigit(s[k]) then Some(DigitsValue(s)) else None
  }

  /** Reading back what `NatToString` writes gives the number again. */
  lemma {:induction false} DigitsRoundTrip(n: nat)
    ensures DigitsValue(NatToString(n)) == n
  {
    if n >= 10 {
      var s := NatToString(n);
      assert s[..|s| - 1] == NatToString(n / 10);
      DigitsRoundTrip(n / 10);
    }
  }

  lemma ParseNumberString(n: int)
    ensures n >= 0 ==> ParseNumber(NumberToString(n)) == Some(n)
    ensures n < 0 ==> ParseNumber(NumberToString(n)) == None
  {
    if n >= 0 {
      DigitsRoundTrip(n);
    } else {
      assert !IsDigit(NumberToString(n)[0]);
    }
  }

  /** `parts.join(sep)`. */
  function Join(parts: seq<string>, sep: char): string {
    if parts == [] then ""
    else if |parts| == 1 then parts[0]
    else parts[0] + [sep] + Join(parts[1..], sep)
  }

  /** `s.split(sep)`: the pieces between separators; never empty, and the
      empty text gives one empty piece. */
  function Split(s: string, sep: char): (parts: seq<string>)
    ensures |parts| >= 1
    ensures forall k :: 0 <= k < |parts| ==> sep !in parts[k]
  {
    if s == [] then [""]
    else
      var rest := Split(s[1..], sep);
      if s[0] == sep then [""] + rest
      else [[s[0]] + rest[0]] + rest[1..]
  }

  lemma {:induction false} SplitNoSeparator(s: string, sep: char)
    requires sep !in s
    ensures Split(s, sep) == [s]
  {
    if s != [] {
      SplitNoSeparator(s[1..], sep);
      assert [s[0]] + s[1..] == s;
    }
  }

  lemma {:induction false} SplitAfter(a: string, sep: char, b: string)
    requires sep !in a
    ensures Split(a + [sep] + b, sep) == [a] + Split(b, sep)
  {
    if a == [] {
      assert a + [sep] + b == [sep] + b;
      assert ([sep] + b)[1..] == b;
    } else {
      assert (a + [sep] + b)[1..] == a[1..] + [sep] + b;
      SplitAfter(a[1..], sep, b);
      assert [a[0]] + a[1..] == a;
    }
  }

  /** Splitting a join gives back the pieces, as long as none contains the separator. */
  lemma {:induction false} SplitJoin(parts: seq<string>, sep: char)
    requires |parts| >= 1
    requires forall k :: 0 <= k < |parts| ==> sep !in parts[k]
    ensures Split(Join(parts, sep), sep) == parts
  {
    if |parts| == 1 {
      SplitNoSeparator(parts[0], sep);
    } else {
      SplitAfter(parts[0], sep, Join(parts[1..], sep));
      SplitJoin(parts[1..], sep);
      assert [parts[0]] + parts[1..] == parts;
    }
  }

  lemma {:induction false} JoinAvoids(parts: seq<string>, sep: char, c: char)
    requires c != sep
    requires forall k :: 0 <= k < |parts| ==> c !in parts[k]
    ensures c !in Join(parts, sep)
  {
    if |parts| > 1 {
      JoinAvoids(parts[1..], sep, c);
    }
  }

  /** Reads every piece as a number, or None if any piece is not one. */
  function ParseAll(parts: seq<string>): (r: Option<seq<int>>)
    ensures r.Some? ==> |r.value| == |parts|
    ensures r.Some? ==> forall k :: 0 <= k < |parts| ==> ParseNumber(parts[k]) == Some(r.value[k])
    ensures r.None? <==> exists k :: 0 <= k < |parts| && ParseNumber(parts[k]).None?
  {
    if parts == [] then Some([])
    else
      var head := ParseNumber(parts[0]);
      var tail := ParseAll(parts[1..]);
      if head.None? || tail.None? then None
      else Some([head.value] + tail.value)
  }

  function ShowAll(xs: seq<int>): (parts: seq<string>)
    ensures |parts| == |xs|
    ensures forall k :: 0 <= k < |xs| ==> parts[k] == NumberToString(xs[k])
  {
    seq(|xs|, k requires 0 <= k < |xs| => NumberToString(xs[k]))
  }

  lemma ParseShowAll(xs: seq<int>)
    requires forall k :: 0 <= k < |xs| ==> xs[k] >= 0
    ensures ParseAll(ShowAll(xs)) == Some(xs)
  {
    var parts := ShowAll(xs);
    forall k | 0 <= k < |xs| ensures ParseNumber(parts[k]) == Some(xs[k]) {
      ParseNumberString(xs[k]);
    }
    var r := ParseAll(parts).value;
    assert forall k :: 0 <= k < |xs| ==> r[k] == xs[k];
    assert r == xs;
  }

  /** The combined text `encodePuzzleState` hands to base64. */
  function EncodePuzzleText(positions: seq<int>, values: seq<int>): string {
    Join(ShowAll(positions), ',') + "|" + Join(ShowAll(values), ',')
  }

  /** What a stored puzzle may hold: as many positions as values, every
      position a cell of the board and every value a die face. */
  predicate ValidPuzzle(positions: seq<int>, values: seq<int>) {
    && |positions| == |values|
    && (forall k :: 0 <= k < |positions| ==> 0 <= positions[k] < 25)
    && (forall k :: 0 <= k < |values| ==> 1 <= values[k] <= MaxDieValue)
  }

  /** `decodePuzzleState` after base64: only the first two bar-separated
      sections are read; a missing section, a piece that is not a number, or
      a configuration `ValidPuzzle` rejects gives None. */
  function DecodePuzzleState(text: string): (r: Option<PuzzleData>)
    ensures r.Some? ==> ValidPuzzle(r.value.positions, r.value.values)
    ensures r.Some? ==> |r.value.positions| >= 1
  {
    var sections := Split(text, '|');
    if |sections| < 2 then None
    else
      var positions := ParseAll(Split(sections[0], ','));
      var values := ParseAll(Split(sections[1], ','));
      if positions.None? || values.None? then None
      else if !ValidPuzzle(positions.value, values.value) then None
      else Some(PuzzleData(positions.value, values.value))
  }

  /** Text with no bar has no values section and never decodes. */
  lemma DecodeNeedsBar(text: string)
    requires '|' !in text
    ensures DecodePuzzleState(text) == None
  {
    SplitNoSeparator(text, '|');
  }

  /** Splitting the encoded text gives the two lists back as sections. */
  lemma EncodeSections(positions: seq<int>, values: seq<int>, rest: string)
    ensures Split(EncodePuzzleText(positions, values) + rest, '|')
         == [Join(ShowAll(positions), ','), Join(ShowAll(values), ',') + Split(rest, '|')[0]] + Split(rest, '|')[1..]
  {
    var p := Join(ShowAll(positions), ',');
    var v := Join(ShowAll(values), ',');
    assert '|' !in p by {
      JoinAvoids(ShowAll(positions), ',', '|');
    }
    assert '|' !in v by {
      JoinAvoids(ShowAll(values), ',', '|');
    }
    assert EncodePuzzleText(positions, values) + rest == p + ['|'] + (v + rest);
    SplitAfter(p, '|', v + rest);
    SplitPrefix(v, rest, '|');
  }

  lemma {:induction false} SplitPrefix(v: string, rest: string, sep: char)
    requires sep !in v
    ensures Split(v + rest, sep) == [v + Split(rest, sep)[0]] + Split(rest, sep)[1..]
  {
    if v != [] {
      assert (v + rest)[1..] == v[1..] + rest;
      SplitPrefix(v[1..], rest, sep);
      assert [v[0]] + (v[1..] + Split(rest, sep)[0]) == v + Split(rest, sep)[0];
    } else {
      assert v + rest == rest;
      assert v + Split(rest, sep)[0] == Split(rest, sep)[0];
      assert Split(rest, sep) == [Split(rest, sep)[0]] + Split(rest, sep)[1..];
    }
  }

  /** Round trip: a valid, non-empty configuration decodes to itself. */
  lemma DecodeEncode(positions: seq<int>, values: seq<int>)
    requires ValidPuzzle(positions, values) && |positions| >= 1
    ensures DecodePuzzleState(EncodePuzzleText(positions, values)) == Some(PuzzleData(positions, values))
  {
    var text := EncodePuzzleText(positions, values);
    EncodeSections(positions, values, "");
    assert text + "" == text;
    assert Join(ShowAll(values), ',') + "" == Join(ShowAll(values), ',');
    SplitJoin(ShowAll(positions), ',');
    SplitJoin(ShowAll(values), ',');
    ParseShowAll(positions);
    ParseShowAll(values);
  }

  /** Reading back written numbers succeeds exactly when none is negative. */
  lemma ParseShowAllExact(xs: seq<int>)
    ensures ParseAll(ShowAll(xs)) == if forall k :: 0 <= k < |xs| ==> xs[k] >= 0 then Some(xs) else None
  {
    if forall k :: 0 <= k < |xs| ==> xs[k] >= 0 {
      ParseShowAll(xs);
    } else {
      var k :| 0 <= k < |xs| && xs[k] < 0;
      ParseNumberString(xs[k]);
      assert ParseNumber(ShowAll(xs)[k]).None?;
    }
  }

  /** One comma-separated section of the encoded text reads back as its list
      exactly when the list is non-empty and has no negative number. */
  lemma ParseSection(xs: seq<int>)
    ensures ParseAll(Split(Join(ShowAll(xs), ','), ',')) ==
      if |xs| >= 1 && forall k :: 0 <= k < |xs| ==> xs[k] >= 0 then Some(xs) else None
  {
    if xs == [] {
      assert ShowAll(xs) == [];
      assert Split("", ',') == [""];
      assert ParseNumber("").None?;
    } else {
      SplitJoin(ShowAll(xs), ',');
      ParseShowAllExact(xs);
    }
  }

  /** The round trip in both directions: encoded text decodes to its lists
      exactly when they form a valid, non-empty configuration, and to None
      otherwise (unequal lengths, an off-board position, a value outside
      1..6, or no dice). */
  lemma DecodeEncodeExact(positions: seq<int>, values: seq<int>)
    ensures DecodePuzzleState(EncodePuzzleText(positions, values)) ==
      if ValidPuzzle(positions, values) && |positions| >= 1 then Some(PuzzleData(positions, values)) else None
  {
    var text := EncodePuzzleText(positions, values);
    EncodeSections(positions, values, "");
    assert text + "" == text;
    assert Join(ShowAll(values), ',') + "" == Join(ShowAll(values), ',');
    ParseSection(positions);
    ParseSection(values);
  }

  /** Anything after a second bar is ignored. */
  lemma ExtraSectionsIgnored(positions: seq<int>, values: seq<int>, rest: string)
    ensures DecodePuzzleState(EncodePuzzleText(positions, values) + "|" + rest)
         == DecodePuzzleState(EncodePuzzleText(positions, values))
  {
    var v := Join(ShowAll(values), ',');
    EncodeSections(positions, values, "|" + rest);
    EncodeSections(positions, values, "");
    assert EncodePuzzleText(positions, values) + "|" + rest == EncodePuzzleText(positions, values) + ("|" + rest);
    assert EncodePuzzleText(positions, values) + "" == EncodePuzzleText(positions, values);
    assert "|" + rest == [] + ['|'] + rest;
    SplitAfter([], '|', rest);
    assert Split("", '|') == [""];
    assert v + "" == v;
  }

  /** An empty configuration encodes to a lone bar, which does not decode. */
  lemma EmptyPuzzleDoesNotDecode()
    ensures EncodePuzzleText([], []) == "|"
    ensures DecodePuzzleState(EncodePuzzleText([], [])) == None
  {
    assert ShowAll([]) == [];
    assert "" + "|" + "" == "|";
    assert "|" == [] + ['|'] + [];
    SplitAfter([], '|', []);
  }

  /** The positions of a dice list, in order (`initialDice.map(d => d.position)`). */
  function Positions(dice: seq<Die>): (ps: seq<int>)
    ensures |ps| == |dice| && forall k :: 0 <= k < |dice| ==> ps[k] == dice[k].position
  {
    seq(|dice|, k requires 0 <= k < |dice| => dice[k].position)
  }

  /** The values of a dice list, in order (`initialDice.map(d => d.value)`). */
  function Values(dice: seq<Die>): (vs: seq<int>)
    ensures |vs| == |dice| && forall k :: 0 <= k < |dice| ==> vs[k] == dice[k].value
  {
    seq(|dice|, k requires 0 <= k < |dice| => dice[k].value)
  }

  /** The dice `loadFromUrl` builds: the k-th position and value with identifier k. */
  function DiceFromPuzzle(data: PuzzleData): (dice: seq<Die>)
    requires ValidPuzzle(data.positions, data.values)
    ensures |dice| == |data.positions|
    ensures forall k :: 0 <= k < |dice| ==> dice[k] == Die(k, data.values[k], data.positions[k])
  {
    seq(|data.positions|, k requires 0 <= k < |data.positions| => Die(k, data.values[k], data.positions[k]))
  }

  /** A loaded puzzle is a valid board. */
  lemma LoadedPuzzleIsValid(data: PuzzleData)
    requires ValidPuzzle(data.positions, data.values)
    ensures ValidBoard(DiceFromPuzzle(data))
  {
  }

  /** Every decoded text loads as a valid board. */
  lemma DecodedPuzzleLoads(text: string)
    requires DecodePuzzleState(text).Some?
    ensures ValidBoard(DiceFromPuzzle(DecodePuzzleState(text).value))
  {
    LoadedPuzzleIsValid(DecodePuzzleState(text).value);
  }

  /** Sharing a puzzle and loading the link rebuilds the same dice, when the
      identifiers are the list indices as `loadFromUrl` and `placeDice` assign them. */
  lemma ShareThenLoad(dice: seq<Die>)
    requires ValidBoard(dice) && |dice| >= 1
    requires forall k :: 0 <= k < |dice| ==> dice[k].id == k
    ensures var decoded := DecodePuzzleState(EncodePuzzleText(Positions(dice), Values(dice)));
      decoded.Some? && DiceFromPuzzle(decoded.value) == dice
  {
    var positions := Positions(dice);
    var values := Values(dice);
    assert ValidPuzzle(positions, values);
    DecodeEncode(positions, values);
    var loaded := DiceFromPuzzle(PuzzleData(positions, values));
    assert forall k :: 0 <= k < |dice| ==> loaded[k] == dice[k];
  }
}
