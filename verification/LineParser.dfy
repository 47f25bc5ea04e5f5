/** The log line: `time level id message`, read with std::from_chars.

    The scalar parser is proved against a grammar, in both directions, and
    against a printer.  The separator search of the AVX2 parser is modelled on
    the 32-bit mask it extracts.
  */
module LineParser {
  import opened Words

  const SPACE: Byte := 32
  const ZERO: Byte := 48

  datatype Line = Line(time: nat, level: nat, id: nat, message: seq<Byte>)

  datatype Reject = MalformedTime | InvalidTime | MalformedLevel | InvalidLevel | MalformedId | InvalidId

  datatype Parsed = Accepted(line: Line) | Rejected(why: Reject)

  predicate IsDigit(b: Byte) {
    ZERO <= b <= ZERO + 9
  }

  ghost predicate IsDecimal(ds: seq<Byte>) {
    ds != [] && forall d <- ds :: IsDigit(d)
  }

  function Value(ds: seq<Byte>): nat
    requires forall d <- ds :: IsDigit(d)
  {
    if ds == [] then 0
    else
      assert IsDigit(ds[|ds| - 1]);
      10 * Value(ds[..|ds| - 1]) + (ds[|ds| - 1] - ZERO)
  }

  // The length of the digits that s begins with
  function DigitRun(s: seq<Byte>): (n: nat)
    ensures n <= |s|
    ensures forall i :: 0 <= i < n ==> IsDigit(s[i])
    ensures n < |s| ==> !IsDigit(s[n])
  {
    if s == [] || !IsDigit(s[0]) then 0 else 1 + DigitRun(s[1..])
  }

  // std::from_chars into an unsigned type of `bound` values: the value and the
  // characters used, or an error for no digits or a value out of range
  datatype Number = NoNumber | Number(value: nat, length: nat)

  function FromChars(s: seq<Byte>, bound: nat): Number {
    var n := DigitRun(s);
    if n == 0 || Value(s[..n]) >= bound then NoNumber else Number(Value(s[..n]), n)
  }

  // A number that a space ends
  function Field(s: seq<Byte>, bound: nat): Number {
    var f := FromChars(s, bound);
    if f.NoNumber? || f.length == |s| || s[f.length] != SPACE then NoNumber else f
  }

  // validateTimestamp, in unsigned 64-bit arithmetic
  predicate ValidTimestamp(time: nat, now: nat) {
    WrapSub(now, 5) <= time <= WrapAdd(now, 5)
  }

  predicate ValidLevel(level: nat) {
    level <= 4
  }

  predicate ValidId(id: nat) {
    1 <= id < UINT32
  }

  function ParseLine(raw: seq<Byte>, now: nat): Parsed {
    var t := Field(raw, WORD);
    if t.NoNumber? then Rejected(MalformedTime)
    else if !ValidTimestamp(t.value, now) then Rejected(InvalidTime)
    else
      var raw2 := raw[t.length + 1..];
      var l := Field(raw2, WORD);
      if l.NoNumber? then Rejected(MalformedLevel)
      else if !ValidLevel(l.value) then Rejected(InvalidLevel)
      else
        var raw3 := raw2[l.length + 1..];
        var i := Field(raw3, UINT32);
        if i.NoNumber? then Rejected(MalformedId)
        else if !ValidId(i.value) then Rejected(InvalidId)
        else Accepted(Line(t.value, l.value, i.value, raw3[i.length + 1..]))
  }

  /** The accepted window is five seconds either way, and it is empty when the
      clock is within five of either end of its range. */
  lemma TimestampWindow(time: nat, now: nat)
    requires time < WORD && now < WORD
    ensures ValidTimestamp(time, now) <==> 5 <= now < WORD - 5 && now - 5 <= time <= now + 5
  {
    WrapSubIs(now, 5);
    WrapAddIs(now, 5);
  }

  // ---- The grammar ----

  ghost predicate ValidLine(ln: Line, now: nat) {
    && ln.time < WORD && ValidTimestamp(ln.time, now)
    && ValidLevel(ln.level)
    && ValidId(ln.id)
  }

  // raw is a valid line whose three fields are spelled d1, d2 and d3
  ghost predicate Spells(raw: seq<Byte>, now: nat, ln: Line, d1: seq<Byte>, d2: seq<Byte>, d3: seq<Byte>) {
    && IsDecimal(d1) && IsDecimal(d2) && IsDecimal(d3)
    && raw == d1 + [SPACE] + (d2 + [SPACE] + (d3 + [SPACE] + ln.message))
    && Value(d1) == ln.time && Value(d2) == ln.level && Value(d3) == ln.id
    && ValidLine(ln, now)
  }

  lemma {:induction false} RunOfDigits(ds: seq<Byte>, more: seq<Byte>)
    requires (forall d <- ds :: IsDigit(d)) && (more == [] || !IsDigit(more[0]))
    ensures DigitRun(ds + more) == |ds|
  {
    if ds != [] {
      RunOfDigits(ds[1..], more);
      assert (ds + more)[1..] == ds[1..] + more;
    } else {
      assert ds + more == more;
    }
  }

  lemma {:induction false} FieldOfDigits(ds: seq<Byte>, more: seq<Byte>, bound: nat)
    requires IsDecimal(ds) && Value(ds) < bound
    ensures Field(ds + [SPACE] + more, bound) == Number(Value(ds), |ds|)
    ensures (ds + [SPACE] + more)[|ds| + 1..] == more
  {
    hide DigitRun, Value;
    var s := ds + [SPACE] + more;
    assert s == ds + ([SPACE] + more);
    RunOfDigits(ds, [SPACE] + more);
    assert s[..|ds|] == ds && s[|ds|] == SPACE;
  }

  lemma DigitsOfField(s: seq<Byte>, bound: nat)
    requires Field(s, bound).Number?
    ensures var f := Field(s, bound);
            && f.length < |s| && IsDecimal(s[..f.length]) && Value(s[..f.length]) == f.value < bound
            && s == s[..f.length] + [SPACE] + s[f.length + 1..]
  {
  }

  lemma SpelledIsAccepted(raw: seq<Byte>, now: nat, ln: Line, d1: seq<Byte>, d2: seq<Byte>, d3: seq<Byte>)
    requires Spells(raw, now, ln, d1, d2, d3)
    ensures ParseLine(raw, now) == Accepted(ln)
  {
    hide Field, Value;
    FieldOfDigits(d1, d2 + [SPACE] + (d3 + [SPACE] + ln.message), WORD);
    FieldOfDigits(d2, d3 + [SPACE] + ln.message, WORD);
    FieldOfDigits(d3, ln.message, UINT32);
  }

  lemma AcceptedIsSpelled(raw: seq<Byte>, now: nat) returns (d1: seq<Byte>, d2: seq<Byte>, d3: seq<Byte>)
    requires ParseLine(raw, now).Accepted?
    ensures Spells(raw, now, ParseLine(raw, now).line, d1, d2, d3)
  {
    hide Field, Value, IsDecimal, ValidTimestamp;
    var t := Field(raw, WORD);
    DigitsOfField(raw, WORD);
    var raw2 := raw[t.length + 1..];
    var l := Field(raw2, WORD);
    DigitsOfField(raw2, WORD);
    var raw3 := raw2[l.length + 1..];
    var i := Field(raw3, UINT32);
    DigitsOfField(raw3, UINT32);
    d1, d2, d3 := raw[..t.length], raw2[..l.length], raw3[..i.length];
  }

  /** The scalar parser accepts exactly the lines `digits SP digits SP digits SP
      message` whose numbers are in range, and gives back those numbers. */
  lemma GrammarIsExact(raw: seq<Byte>, now: nat, ln: Line)
    ensures ParseLine(raw, now) == Accepted(ln) <==> exists d1, d2, d3 :: Spells(raw, now, ln, d1, d2, d3)
  {
    hide Spells, ParseLine;
    if ParseLine(raw, now) == Accepted(ln) {
      var d1, d2, d3 := AcceptedIsSpelled(raw, now);
    }
    forall d1, d2, d3 | Spells(raw, now, ln, d1, d2, d3) ensures ParseLine(raw, now) == Accepted(ln) {
      SpelledIsAccepted(raw, now, ln, d1, d2, d3);
    }
  }

  // ---- The same in numbers ----

  ghost predicate Digits(d: seq<Byte>) {
    |d| >= 1 && forall i :: 0 <= i < |d| ==> 48 <= d[i] <= 57
  }

  ghost function Ten(n: nat): nat {
    if n == 0 then 1 else 10 * Ten(n - 1)
  }

  // The decimal number that d spells, digit by digit from the left
  ghost function Positional(d: seq<Byte>): int {
    if d == [] then 0 else (d[0] as int - 48) * Ten(|d| - 1) + Positional(d[1..])
  }

  lemma {:induction false} PositionalAppend(d: seq<Byte>, last: Byte)
    ensures Positional(d + [last]) == 10 * Positional(d) + (last as int - 48)
  {
    if d == [] {
      assert d + [last] == [last] && [last][1..] == [];
      assert Positional([last]) == (last as int - 48) * Ten(0) + Positional([]);
    } else {
      assert (d + [last])[1..] == d[1..] + [last];
      PositionalAppend(d[1..], last);
      var x: int := d[0] as int - 48;
      assert x * Ten(|d|) == 10 * (x * Ten(|d| - 1));
    }
  }

  lemma {:induction false} ValueIsPositional(d: seq<Byte>)
    requires forall b <- d :: IsDigit(b)
    ensures Value(d) == Positional(d)
  {
    if d != [] {
      var init, last := d[..|d| - 1], d[|d| - 1];
      assert d == init + [last] && last in d;
      ValueIsPositional(init);
      PositionalAppend(init, last);
    }
  }

  lemma {:induction false} DigitsAreDecimal(d: seq<Byte>)
    ensures Digits(d) <==> IsDecimal(d)
    ensures Digits(d) ==> Value(d) == Positional(d)
  {
    if IsDecimal(d) {
      assert forall i :: 0 <= i < |d| ==> d[i] in d;
      ValueIsPositional(d);
    }
    if Digits(d) {
      assert forall b <- d :: IsDigit(b);
    }
  }

  // raw spells the line with the fields d1, d2 and d3, all values in range
  ghost predicate SpellsInNumbers(raw: seq<Byte>, now: nat, ln: Line, d1: seq<Byte>, d2: seq<Byte>, d3: seq<Byte>) {
    && Digits(d1) && Digits(d2) && Digits(d3)
    && raw == d1 + [32] + (d2 + [32] + (d3 + [32] + ln.message))
    && Positional(d1) == ln.time && Positional(d2) == ln.level && Positional(d3) == ln.id
    && ln.time < 0x1_0000_0000_0000_0000
    && 5 <= now < 0xFFFF_FFFF_FFFF_FFFB && now - 5 <= ln.time <= now + 5
    && 0 <= ln.level <= 4
    && 1 <= ln.id <= 0xFFFF_FFFF
  }

  lemma SpellingInNumbers(raw: seq<Byte>, now: nat, ln: Line, d1: seq<Byte>, d2: seq<Byte>, d3: seq<Byte>)
    requires now < WORD
    ensures SpellsInNumbers(raw, now, ln, d1, d2, d3) <==> Spells(raw, now, ln, d1, d2, d3)
  {
    hide IsDecimal, Value, Digits, Positional, ValidTimestamp;
    DigitsAreDecimal(d1);
    DigitsAreDecimal(d2);
    DigitsAreDecimal(d3);
    if ln.time < WORD { TimestampWindow(ln.time, now); }
  }

  /** The scalar parser accepts exactly `digits SP digits SP digits SP message` with
      a time of 64 bits within 5 of the clock, a level from 0 to 4 and an id from 1
      to 2^32 - 1, and gives back those numbers and that message. */
  lemma GrammarInNumbers(raw: seq<Byte>, now: nat, ln: Line)
    requires now < WORD
    ensures ParseLine(raw, now) == Accepted(ln) <==> exists d1, d2, d3 :: SpellsInNumbers(raw, now, ln, d1, d2, d3)
  {
    hide ParseLine, Spells, SpellsInNumbers;
    GrammarIsExact(raw, now, ln);
    if ParseLine(raw, now) == Accepted(ln) {
      var d1, d2, d3 :| Spells(raw, now, ln, d1, d2, d3);
      SpellingInNumbers(raw, now, ln, d1, d2, d3);
    }
    forall d1, d2, d3 | SpellsInNumbers(raw, now, ln, d1, d2, d3) ensures Spells(raw, now, ln, d1, d2, d3) {
      SpellingInNumbers(raw, now, ln, d1, d2, d3);
    }
  }

  // ---- Why a line is rejected ----

  // s begins with a number below the bound that a space ends, and goes on with more
  ghost predicate Begins(s: seq<Byte>, d: seq<Byte>, more: seq<Byte>, bound: nat) {
    Digits(d) && s == d + [32] + more && Positional(d) < bound
  }

  lemma FieldIsExact(s: seq<Byte>, bound: nat)
    ensures Field(s, bound).NoNumber? <==> forall d, more :: !Begins(s, d, more, bound)
    ensures forall d, more :: Begins(s, d, more, bound) ==>
              var f := Field(s, bound);
              f.Number? && f.value == Positional(d) && f.length == |d| && s[|d| + 1..] == more
  {
    hide Field, Digits, Positional, IsDecimal, Value;
    forall d, more | Begins(s, d, more, bound)
      ensures var f := Field(s, bound);
              f.Number? && f.value == Positional(d) && f.length == |d| && s[|d| + 1..] == more
    {
      DigitsAreDecimal(d);
      FieldOfDigits(d, more, bound);
    }
    var f := Field(s, bound);
    if f.Number? {
      DigitsOfField(s, bound);
      var d, more := s[..f.length], s[f.length + 1..];
      DigitsAreDecimal(d);
      assert Begins(s, d, more, bound);
    }
  }

  ghost predicate InWindow(time: int, now: nat) {
    5 <= now < 0xFFFF_FFFF_FFFF_FFFB && now - 5 <= time <= now + 5
  }

  // The time field: missing, or outside the window
  lemma TimeRejects(raw: seq<Byte>, now: nat)
    requires now < WORD
    ensures ParseLine(raw, now) == Rejected(MalformedTime) <==> forall d, m :: !Begins(raw, d, m, WORD)
    ensures forall d, m :: Begins(raw, d, m, WORD) ==>
              (ParseLine(raw, now) == Rejected(InvalidTime) <==> !InWindow(Positional(d), now))
  {
    hide Field, Begins, ValidTimestamp;
    FieldIsExact(raw, WORD);
    forall d, m | Begins(raw, d, m, WORD) ensures ValidTimestamp(Field(raw, WORD).value, now) <==> InWindow(Positional(d), now) {
      assert Positional(d) < WORD by { BeginsBelow(raw, d, m, WORD); }
      TimestampWindow(Positional(d), now);
    }
  }

  lemma {:induction false} BeginsBelow(s: seq<Byte>, d: seq<Byte>, more: seq<Byte>, bound: nat)
    requires Begins(s, d, more, bound)
    ensures 0 <= Positional(d) < bound
  {
    DigitsAreDecimal(d);
  }

  // The rest of a line whose time is in order
  lemma {:induction false} AfterTime(raw: seq<Byte>, now: nat, d: seq<Byte>, m: seq<Byte>)
    requires now < WORD && Begins(raw, d, m, WORD) && InWindow(Positional(d), now)
    ensures Field(raw, WORD).Number? && ValidTimestamp(Field(raw, WORD).value, now)
    ensures raw[Field(raw, WORD).length + 1..] == m
  {
    hide Field, ValidTimestamp;
    BeginsBelow(raw, d, m, WORD);
    FieldIsExact(raw, WORD);
    TimestampWindow(Positional(d), now);
  }

  // The level field: missing, or above 4
  lemma {:induction false} LevelRejects(raw: seq<Byte>, now: nat, d1: seq<Byte>, m1: seq<Byte>)
    requires now < WORD && Begins(raw, d1, m1, WORD) && InWindow(Positional(d1), now)
    ensures ParseLine(raw, now) == Rejected(MalformedLevel) <==> forall d, m :: !Begins(m1, d, m, WORD)
    ensures forall d, m :: Begins(m1, d, m, WORD) ==>
              (ParseLine(raw, now) == Rejected(InvalidLevel) <==> Positional(d) > 4)
  {
    hide Field, Begins, ValidTimestamp, InWindow;
    AfterTime(raw, now, d1, m1);
    FieldIsExact(m1, WORD);
  }

  // The id field: missing, or 0
  lemma {:induction false} IdRejects(raw: seq<Byte>, now: nat, d1: seq<Byte>, m1: seq<Byte>, d2: seq<Byte>, m2: seq<Byte>)
    requires now < WORD && Begins(raw, d1, m1, WORD) && InWindow(Positional(d1), now)
    requires Begins(m1, d2, m2, WORD) && Positional(d2) <= 4
    ensures ParseLine(raw, now) == Rejected(MalformedId) <==> forall d, m :: !Begins(m2, d, m, UINT32)
    ensures forall d, m :: Begins(m2, d, m, UINT32) ==>
              (ParseLine(raw, now) == Rejected(InvalidId) <==> Positional(d) == 0)
  {
    hide Field, Begins, ValidTimestamp, InWindow;
    AfterTime(raw, now, d1, m1);
    FieldIsExact(m1, WORD);
    FieldIsExact(m2, UINT32);
    forall d, m | Begins(m2, d, m, UINT32) ensures 0 <= Positional(d) < UINT32 {
      BeginsBelow(m2, d, m, UINT32);
    }
  }

  // ---- Printing ----

  function Decimal(n: nat): seq<Byte> {
    (if n < 10 then [] else Decimal(n / 10)) + [ZERO + n % 10]
  }

  lemma {:induction false} OneMoreDigit(ds: seq<Byte>, d: Byte)
    requires ds == [] || IsDecimal(ds)
    requires IsDigit(d)
    ensures IsDecimal(ds + [d]) && Value(ds + [d]) == 10 * (if ds == [] then 0 else Value(ds)) + (d - ZERO)
  {
    assert (ds + [d])[..|ds + [d]| - 1] == ds;
  }

  lemma {:induction false} ValueOfDecimal(n: nat)
    ensures IsDecimal(Decimal(n)) && Value(Decimal(n)) == n
  {
    hide IsDecimal, Value;
    if n >= 10 {
      ValueOfDecimal(n / 10);
      OneMoreDigit(Decimal(n / 10), ZERO + n % 10);
    } else {
      OneMoreDigit([], ZERO + n % 10);
    }
  }

  function Print(ln: Line): seq<Byte> {
    Decimal(ln.time) + [SPACE] + (Decimal(ln.level) + [SPACE] + (Decimal(ln.id) + [SPACE] + ln.message))
  }

  /** Printing a valid line and parsing it gives the line back. */
  lemma PrintedIsParsed(ln: Line, now: nat)
    requires ValidLine(ln, now)
    ensures ParseLine(Print(ln), now) == Accepted(ln)
  {
    hide Decimal, ParseLine, Value, IsDecimal;
    ValueOfDecimal(ln.time);
    ValueOfDecimal(ln.level);
    ValueOfDecimal(ln.id);
    SpelledIsAccepted(Print(ln), now, ln, Decimal(ln.time), Decimal(ln.level), Decimal(ln.id));
  }
}

/** The separator masks of the AVX2 parser. */
module FastParser {
  import opened Words
  import opened LineParser

  const LANES: nat := 32

  // movemask of the comparison with a space: bit i is set when byte i is one
  function SpaceMask(s: seq<Byte>): nat {
    if s == [] then 0 else (if s[0] == SPACE then 1 else 0) + 2 * SpaceMask(s[1..])
  }

  function PopCount(m: nat): nat {
    if m == 0 then 0 else m % 2 + PopCount(m / 2)
  }

  // The position of the lowest set bit
  function TrailingZeros(m: nat): nat
    requires m > 0
  {
    if m % 2 == 1 then 0 else 1 + TrailingZeros(m / 2)
  }

  function ClearLowest(m: nat): nat
    requires m > 0
  {
    And(m, m - 1)
  }

  // The third separator as the parser computes it
  function ThirdMask(m: nat): nat
    requires m > 1
  {
    And(And(m, m - 1), m - 2)
  }

  lemma {:induction false} ClearLowestCount(m: nat)
    requires m > 0
    ensures PopCount(ClearLowest(m)) == PopCount(m) - 1
  {
    hide And;
    if m % 2 == 0 {
      EvenMasks(m);
      ClearLowestCount(m / 2);
    } else {
      OddMasks(m);
    }
  }

  lemma {:induction false} AndEven(x: nat, y: nat)
    requires x % 2 == 0 || y % 2 == 0
    ensures And(x, y) == 2 * And(x / 2, y / 2)
  {
  }

  lemma {:induction false} EvenMasks(m: nat)
    requires m > 0 && m % 2 == 0
    ensures ClearLowest(m) == 2 * ClearLowest(m / 2)
    ensures ThirdMask(m) == 2 * And(ClearLowest(m / 2), m / 2 - 1)
  {
    hide And;
    AndEven(m, m - 1);
    AndEven(And(m, m - 1), m - 2);
    assert (m - 1) / 2 == m / 2 - 1 && (m - 2) / 2 == m / 2 - 1;
  }

  lemma OddMasks(m: nat)
    requires m % 2 == 1
    ensures ClearLowest(m) == m - 1
    ensures m > 1 ==> ThirdMask(m) == ClearLowest(m - 1)
  {
    hide And;
    AndEven(m, m - 1);
    assert (m - 1) / 2 == m / 2;
    AndSame(m / 2);
  }

  /** The third separator as coded: for every mask with three bits set it is the
      third set bit when bit 0 is set, and the second one when it is not. */
  lemma {:induction false} ThirdSeparator(m: nat)
    requires PopCount(m) >= 3
    ensures m > 1 && PopCount(ClearLowest(m)) >= 2 && PopCount(ClearLowest(ClearLowest(m))) >= 1
    ensures m % 2 == 1 ==> TrailingZeros(m) == 0 && ThirdMask(m) == ClearLowest(ClearLowest(m))
    ensures m % 2 == 0 ==> ThirdMask(m) == ClearLowest(m)
    ensures ThirdMask(m) > 0
  {
    hide And;
    ClearLowestCount(m);
    ClearLowestCount(ClearLowest(m));
    ThirdMaskIs(m);
  }

  lemma ThirdMaskIs(m: nat)
    requires m > 1 && ClearLowest(m) > 0
    ensures m % 2 == 1 ==> ThirdMask(m) == ClearLowest(ClearLowest(m))
    ensures m % 2 == 0 ==> ThirdMask(m) == ClearLowest(m)
  {
    hide And;
    if m % 2 == 1 {
      OddMasks(m);
    } else {
      EvenMasks(m);
      AndAbsorb(m / 2, m / 2 - 1);
    }
  }

  // Clearing the lowest bit moves to a strictly later one.
  lemma {:induction false} NextBitIsLater(m: nat)
    requires m > 0 && ClearLowest(m) > 0
    ensures TrailingZeros(m) < TrailingZeros(ClearLowest(m))
  {
    if m % 2 == 0 {
      EvenMasks(m);
      NextBitIsLater(m / 2);
    } else {
      OddMasks(m);
    }
  }

  /** With three bits set the coded third position is the true one exactly when
      bit 0 is set. */
  lemma {:induction false} ThirdPositionIsExact(m: nat)
    requires PopCount(m) >= 3
    ensures m > 1 && ThirdMask(m) > 0 && ClearLowest(m) > 0 && ClearLowest(ClearLowest(m)) > 0
    ensures TrailingZeros(ThirdMask(m)) == TrailingZeros(ClearLowest(ClearLowest(m))) <==> m % 2 == 1
  {
    ThirdSeparator(m);
    NextBitIsLater(ClearLowest(m));
  }

  datatype FastReject = TimeFormat | TimeRange | LevelFormat | LevelRange | IdFormat | IdRange

  // Fallback: the scalar parser decides.  Reversed: the range given to
  // from_chars for the id begins after its end, which from_chars does not allow.
  datatype Outcome =
    | Fallback(parsed: Parsed)
    | Refused(why: FastReject)
    | Reversed(time: nat, level: nat, from: nat, to: nat)
    | Done(line: Line)

  predicate UsesFastPath(raw: seq<Byte>, pageOffset: nat) {
    |raw| >= 64 && pageOffset + 64 <= 4096 && PopCount(SpaceMask(raw[..LANES])) >= 3
  }

  function P1(raw: seq<Byte>): nat
    requires |raw| >= LANES && PopCount(SpaceMask(raw[..LANES])) >= 3
  {
    TrailingZeros(SpaceMask(raw[..LANES]))
  }

  function P2(raw: seq<Byte>): nat
    requires |raw| >= LANES && PopCount(SpaceMask(raw[..LANES])) >= 3
  {
    ThirdSeparator(SpaceMask(raw[..LANES]));
    TrailingZeros(ClearLowest(SpaceMask(raw[..LANES])))
  }

  function P3(raw: seq<Byte>): nat
    requires |raw| >= LANES && PopCount(SpaceMask(raw[..LANES])) >= 3
  {
    ThirdSeparator(SpaceMask(raw[..LANES]));
    TrailingZeros(ThirdMask(SpaceMask(raw[..LANES])))
  }

  lemma {:induction false} LowestIsFirstSpace(s: seq<Byte>)
    requires SpaceMask(s) > 0
    ensures var p := TrailingZeros(SpaceMask(s));
            p < |s| && s[p] == SPACE && forall i :: 0 <= i < p ==> s[i] != SPACE
  {
    if s[0] != SPACE { LowestIsFirstSpace(s[1..]); }
  }

  // Bit for bit, clearing the lowest bit blanks the first space.
  lemma {:induction false} ClearingBlanks(s: seq<Byte>)
    requires SpaceMask(s) > 0
    ensures TrailingZeros(SpaceMask(s)) < |s|
    ensures ClearLowest(SpaceMask(s)) == SpaceMask(s[TrailingZeros(SpaceMask(s)) := 0])
  {
    var m := SpaceMask(s);
    LowestIsFirstSpace(s);
    var p := TrailingZeros(m);
    if s[0] == SPACE {
      OddMasks(m);
      assert s[0 := 0][1..] == s[1..];
    } else {
      EvenMasks(m);
      ClearingBlanks(s[1..]);
      assert s[p := 0][1..] == s[1..][p - 1 := 0];
    }
  }

  /** The first two positions are those of the first two spaces. */
  lemma FirstTwoSpaces(raw: seq<Byte>)
    requires |raw| >= LANES && PopCount(SpaceMask(raw[..LANES])) >= 3
    ensures P1(raw) < P2(raw) < LANES
    ensures raw[P1(raw)] == SPACE && raw[P2(raw)] == SPACE
    ensures forall i :: 0 <= i < P2(raw) && i != P1(raw) ==> raw[i] != SPACE
  {
    var s := raw[..LANES];
    var m := SpaceMask(s);
    ThirdSeparator(m);
    LowestIsFirstSpace(s);
    ClearingBlanks(s);
    NextBitIsLater(m);
    var t := s[P1(raw) := 0];
    LowestIsFirstSpace(t);
    forall i | 0 <= i < P2(raw) && i != P1(raw) ensures raw[i] != SPACE {
      assert t[i] == raw[i];
    }
  }

  function ParseFast(raw: seq<Byte>, now: nat, pageOffset: nat): Outcome {
    if !UsesFastPath(raw, pageOffset) then Fallback(ParseLine(raw, now))
    else
      FirstTwoSpaces(raw);
      var p1, p2, p3 := P1(raw), P2(raw), P3(raw);
      var t := FromChars(raw[..p1], WORD);
      if t.NoNumber? then Refused(TimeFormat)
      else if !ValidTimestamp(t.value, now) then Refused(TimeRange)
      else
        var l := FromChars(raw[p1 + 1..p2], WORD);
        if l.NoNumber? then Refused(LevelFormat)
        else if !ValidLevel(l.value) then Refused(LevelRange)
        else if !(p2 + 1 <= p3 < |raw|) then Reversed(t.value, l.value, p2 + 1, p3)
        else
          var i := FromChars(raw[p2 + 1..p3], UINT32);
          if i.NoNumber? then Refused(IdFormat)
          else if !ValidId(i.value) then Refused(IdRange)
          else Done(Line(t.value, l.value, i.value, raw[p3 + 1..]))
  }

  lemma FastPositions(raw: seq<Byte>)
    requires |raw| >= LANES && PopCount(SpaceMask(raw[..LANES])) >= 3
    ensures P1(raw) == 0 || P3(raw) == P2(raw)
  {
    var m := SpaceMask(raw[..LANES]);
    ThirdSeparator(m);
    LowestIsFirstSpace(raw[..LANES]);
  }

  /** Within its defined part the fast path gets no further than the id: the third
      separator is the second one unless the line begins with a space, and then it
      has no time; so the range for the id is reversed. */
  lemma FastPathStopsAtId(raw: seq<Byte>, now: nat, pageOffset: nat)
    requires UsesFastPath(raw, pageOffset)
    ensures var r := ParseFast(raw, now, pageOffset);
            r.Refused? || (r.Reversed? && r.from == P2(raw) + 1 && r.to == P2(raw))
  {
    hide SpaceMask, PopCount, TrailingZeros, ThirdMask;
    FirstTwoSpaces(raw);
    FastPositions(raw);
  }

  // The fast path on a line whose first two fields are numbers in range
  lemma FastOnNumbers(raw: seq<Byte>, now: nat, pageOffset: nat, time: nat, level: nat)
    requires UsesFastPath(raw, pageOffset) && ValidTimestamp(time, now) && ValidLevel(level)
    requires P1(raw) < P2(raw) < |raw| && (P1(raw) == 0 || P3(raw) == P2(raw))
    requires FromChars(raw[..P1(raw)], WORD) == Number(time, P1(raw)) && P1(raw) > 0
    requires FromChars(raw[P1(raw) + 1..P2(raw)], WORD) == Number(level, P2(raw) - P1(raw) - 1)
    ensures ParseFast(raw, now, pageOffset) == Reversed(time, level, P2(raw) + 1, P2(raw))
  {
    hide FromChars, P1, P2, P3, ValidTimestamp;
  }

  /** On every line the scalar parser accepts, the fast path finds the same time
      and the same level, and then a reversed range for the id. */
  lemma FastAgreesOnTimeAndLevel(raw: seq<Byte>, now: nat, pageOffset: nat)
    requires UsesFastPath(raw, pageOffset) && ParseLine(raw, now).Accepted?
    ensures var ln := ParseLine(raw, now).line;
            ParseFast(raw, now, pageOffset) == Reversed(ln.time, ln.level, P2(raw) + 1, P2(raw))
  {
    hide ParseLine, ParseFast, FromChars, P1, P2, P3, Value, ValidTimestamp;
    var p1, p2, ln := P1(raw), P2(raw), ParseLine(raw, now).line;
    FirstTwoSpaces(raw);
    FastPositions(raw);
    var d1, d2, d3 := AcceptedIsSpelled(raw, now);
    SpacesOfSpelling(raw, d1, d2, d3 + [SPACE] + ln.message, p1, p2);
    WholeNumber(d1, WORD);
    WholeNumber(d2, WORD);
    FastOnNumbers(raw, now, pageOffset, ln.time, ln.level);
  }

  // The parser a session calls: chosen once, by whether the machine has AVX2
  function CurrentParser(raw: seq<Byte>, now: nat, avx2: bool, pageOffset: nat): Outcome {
    if avx2 then ParseFast(raw, now, pageOffset) else Fallback(ParseLine(raw, now))
  }

  predicate Takes(r: Outcome) {
    r.Done? || (r.Fallback? && r.parsed.Accepted?)
  }

  function LineTaken(r: Outcome): Line
    requires Takes(r)
  {
    if r.Done? then r.line else r.parsed.line
  }

  /** Off the fast path the parser in use is the scalar parser.  On it, no line is
      taken: what the scalar parser accepts comes to the reversed range, whose
      effect is undefined, and only what it rejects can be refused. */
  lemma CurrentParserIsExact(raw: seq<Byte>, now: nat, avx2: bool, pageOffset: nat)
    ensures var r, p := CurrentParser(raw, now, avx2, pageOffset), ParseLine(raw, now);
            if avx2 && UsesFastPath(raw, pageOffset)
            then (r.Reversed? || (r.Refused? && p.Rejected?)) && (p.Accepted? ==> r.Reversed?)
            else r == Fallback(p)
  {
    hide ParseLine, UsesFastPath;
    if avx2 && UsesFastPath(raw, pageOffset) {
      hide ParseFast;
      FastPathStopsAtId(raw, now, pageOffset);
      if ParseLine(raw, now).Accepted? { FastAgreesOnTimeAndLevel(raw, now, pageOffset); }
    }
  }

  // ---- The fast path in numbers ----

  ghost function Spaces(s: seq<Byte>): nat {
    if s == [] then 0 else (if s[0] == 32 then 1 else 0) + Spaces(s[1..])
  }

  lemma {:induction false} CountIsSpaces(s: seq<Byte>)
    ensures PopCount(SpaceMask(s)) == Spaces(s)
  {
    if s != [] {
      CountIsSpaces(s[1..]);
      assert SpaceMask(s) / 2 == SpaceMask(s[1..]);
    }
  }

  lemma {:induction false} NextSpace(s: seq<Byte>) returns (i: nat)
    requires Spaces(s) >= 1
    ensures i < |s| && s[i] == 32 && Spaces(s[i + 1..]) == Spaces(s) - 1
  {
    if s[0] == 32 {
      i := 0;
    } else {
      var j := NextSpace(s[1..]);
      i := j + 1;
      assert s[1..][j + 1..] == s[i + 1..];
    }
  }

  lemma {:induction false} SpaceCounts(s: seq<Byte>, i: nat)
    requires i < |s| && s[i] == 32
    ensures Spaces(s) >= 1 + Spaces(s[i + 1..])
  {
    if i > 0 {
      SpaceCounts(s[1..], i - 1);
      assert s[1..][i..] == s[i + 1..];
    }
  }

  lemma {:induction false} ThreeSpaces(s: seq<Byte>)
    ensures Spaces(s) >= 3 <==> exists i, j, k :: 0 <= i < j < k < |s| && s[i] == s[j] == s[k] == 32
  {
    hide Spaces;
    if Spaces(s) >= 3 {
      var i := NextSpace(s);
      var j := NextSpace(s[i + 1..]);
      var k := NextSpace(s[i + 1..][j + 1..]);
      assert s[i + 1 + j] == 32 && s[i + 1 + j + 1 + k] == 32;
    }
    forall i, j, k | 0 <= i < j < k < |s| && s[i] == s[j] == s[k] == 32 ensures Spaces(s) >= 3 {
      SpaceCounts(s, i);
      SpaceCounts(s[i + 1..], j - i - 1);
      SpaceCounts(s[i + 1..][j - i..], k - j - 1);
    }
  }

  /** The fast path is for payloads of at least 64 bytes that begin no later than at
      4032 in their page and have three spaces among the first 32 bytes. */
  lemma FastPathGuard(raw: seq<Byte>, pageOffset: nat)
    ensures UsesFastPath(raw, pageOffset) <==>
              && |raw| >= 64 && pageOffset <= 4032
              && exists i, j, k :: 0 <= i < j < k < 32 && raw[i] == raw[j] == raw[k] == 32
  {
    hide SpaceMask, PopCount, Spaces;
    if |raw| >= 64 {
      var s := raw[..32];
      CountIsSpaces(s);
      ThreeSpaces(s);
      if i, j, k :| 0 <= i < j < k < 32 && raw[i] == raw[j] == raw[k] == 32 {
        assert s[i] == s[j] == s[k] == 32;
      }
    }
  }

  // d is all the digits that s begins with, and a number below the bound
  ghost predicate Leads(s: seq<Byte>, d: seq<Byte>, bound: nat) {
    && Digits(d) && Positional(d) < bound
    && d <= s && (|d| < |s| ==> !(48 <= s[|d|] <= 57))
  }

  lemma FromCharsIsExact(s: seq<Byte>, bound: nat)
    ensures FromChars(s, bound).NoNumber? <==> forall d :: !Leads(s, d, bound)
    ensures forall d :: Leads(s, d, bound) ==>
              var f := FromChars(s, bound); f.Number? && f.value == Positional(d) && f.length == |d|
  {
    hide Positional, Value;
    forall d | Leads(s, d, bound) ensures DigitRun(s) == |d| && s[..|d|] == d && Value(d) == Positional(d) {
      assert s == d + s[|d|..];
      assert forall b <- d :: IsDigit(b);
      RunOfDigits(d, s[|d|..]);
      DigitsAreDecimal(d);
    }
    var n := DigitRun(s);
    if n > 0 {
      DigitsAreDecimal(s[..n]);
      assert Value(s[..n]) < bound ==> Leads(s, s[..n], bound);
    }
  }

  // The first two spaces of raw
  ghost predicate AreFirstTwo(raw: seq<Byte>, p1: nat, p2: nat) {
    p1 < p2 < |raw| && raw[p1] == raw[p2] == 32 && forall i :: 0 <= i < p2 && i != p1 ==> raw[i] != 32
  }

  lemma PositionsAreFirstTwo(raw: seq<Byte>, p1: nat, p2: nat)
    requires |raw| >= LANES && PopCount(SpaceMask(raw[..LANES])) >= 3 && AreFirstTwo(raw, p1, p2)
    ensures P1(raw) == p1 && P2(raw) == p2
  {
    hide SpaceMask, PopCount, P1, P2;
    FirstTwoSpaces(raw);
  }

  /** On the fast path a line is refused for its time exactly if what precedes the
      first space begins with no number, or with one outside the window. */
  lemma FastTimeRefusals(raw: seq<Byte>, now: nat, pageOffset: nat, p1: nat, p2: nat)
    requires now < WORD && UsesFastPath(raw, pageOffset) && AreFirstTwo(raw, p1, p2)
    ensures ParseFast(raw, now, pageOffset) == Refused(TimeFormat) <==> forall d :: !Leads(raw[..p1], d, WORD)
    ensures forall d :: Leads(raw[..p1], d, WORD) ==>
              (ParseFast(raw, now, pageOffset) == Refused(TimeRange) <==> !InWindow(Positional(d), now))
  {
    hide SpaceMask, PopCount, P1, P2, P3, FromChars, Leads, Positional, ValidTimestamp;
    PositionsAreFirstTwo(raw, p1, p2);
    FromCharsIsExact(raw[..p1], WORD);
    forall d | Leads(raw[..p1], d, WORD)
      ensures ValidTimestamp(FromChars(raw[..p1], WORD).value, now) <==> InWindow(Positional(d), now)
    {
      LeadsBelow(raw[..p1], d, WORD);
      TimestampWindow(Positional(d), now);
    }
  }

  lemma {:induction false} LeadsBelow(s: seq<Byte>, d: seq<Byte>, bound: nat)
    requires Leads(s, d, bound)
    ensures 0 <= Positional(d) < bound && 1 <= |d| <= |s|
  {
    DigitsAreDecimal(d);
  }

  /** With the time in order, it is refused for its level exactly if what lies
      between the first two spaces begins with no number, or with one above 4; every
      other line comes to the reversed range. */
  lemma {:induction false} FastLevelRefusals(raw: seq<Byte>, now: nat, pageOffset: nat, p1: nat, p2: nat, d1: seq<Byte>)
    requires now < WORD && UsesFastPath(raw, pageOffset) && AreFirstTwo(raw, p1, p2)
    requires Leads(raw[..p1], d1, WORD) && InWindow(Positional(d1), now)
    ensures var r, field := ParseFast(raw, now, pageOffset), raw[p1 + 1..p2];
            && (r == Refused(LevelFormat) <==> forall d :: !Leads(field, d, WORD))
            && (forall d :: Leads(field, d, WORD) ==>
                  && (r == Refused(LevelRange) <==> Positional(d) > 4)
                  && (r.Reversed? <==> Positional(d) <= 4)
                  && (r.Reversed? ==> r.time == Positional(d1) && r.level == Positional(d) && r.from == p2 + 1 && r.to == p2))
  {
    hide SpaceMask, PopCount, P1, P2, P3, FromChars, Leads, Positional, ValidTimestamp;
    PositionsAreFirstTwo(raw, p1, p2);
    FromCharsIsExact(raw[..p1], WORD);
    FromCharsIsExact(raw[p1 + 1..p2], WORD);
    LeadsBelow(raw[..p1], d1, WORD);
    TimestampWindow(Positional(d1), now);
    FastPositions(raw);
  }

  lemma SpacesOfSpelling(raw: seq<Byte>, d1: seq<Byte>, d2: seq<Byte>, more: seq<Byte>, p1: nat, p2: nat)
    requires IsDecimal(d1) && IsDecimal(d2) && raw == d1 + [SPACE] + (d2 + [SPACE] + more)
    requires p1 < p2 < |raw| && raw[p1] == SPACE && raw[p2] == SPACE
    requires forall i :: 0 <= i < p2 && i != p1 ==> raw[i] != SPACE
    ensures raw[..p1] == d1 && raw[p1 + 1..p2] == d2
  {
    assert raw[|d1|] == SPACE && raw[|d1| + 1 + |d2|] == SPACE;
    assert forall i :: 0 <= i < |d1| ==> raw[i] == d1[i] && IsDigit(d1[i]);
    assert forall i :: 0 <= i < |d2| ==> raw[|d1| + 1 + i] == d2[i] && IsDigit(d2[i]);
    assert p1 == |d1|;
    assert p2 == |d1| + 1 + |d2|;
  }

  lemma {:induction false} WholeNumber(ds: seq<Byte>, bound: nat)
    requires IsDecimal(ds) && Value(ds) < bound
    ensures FromChars(ds, bound) == Number(Value(ds), |ds|)
  {
    RunOfDigits(ds, []);
    assert ds + [] == ds && ds[..|ds|] == ds;
  }
}
