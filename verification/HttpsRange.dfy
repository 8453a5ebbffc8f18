/**
 Byte ranges: saturating decimal parsing and the selection of section 14.1.2 of RFC 9110.
 A char stands for a byte throughout.
 */
module HttpsRange {
  import opened Basics

  const UINTMAX: nat := 0xFFFF_FFFF_FFFF_FFFF
  const OFF_MAX: nat := 0x7FFF_FFFF_FFFF_FFFF

  predicate IsDigit(c: char) {
    '0' <= c <= '9'
  }

  function DigitValue(c: char): (d: nat)
    requires IsDigit(c)
    ensures d <= 9
  {
    c as int - '0' as int
  }

  /** The number written by decimal digits, however many. */
  function Decimal(ds: string): nat
    requires forall i | 0 <= i < |ds| :: IsDigit(ds[i])
  {
    if ds == "" then 0 else Decimal(ds[..|ds| - 1]) * 10 + DigitValue(ds[|ds| - 1])
  }

  /** The text of a number, as printed by PRIuMAX. */
  function Digits(n: nat): (s: string)
    ensures |s| >= 1 && forall i | 0 <= i < |s| :: IsDigit(s[i])
  {
    var last := [('0' as int + n % 10) as char];
    if n < 10 then last else Digits(n / 10) + last
  }

  lemma {:induction false} DigitsRoundTrip(n: nat)
    ensures Decimal(Digits(n)) == n
  {
    var s := Digits(n);
    assert DigitValue(s[|s| - 1]) == n % 10;
    if n < 10 {
      assert s[..|s| - 1] == "";
    } else {
      assert s[..|s| - 1] == Digits(n / 10);
      DigitsRoundTrip(n / 10);
    }
  }

  function Min(a: nat, b: nat): nat {
    if a <= b then a else b
  }

  /** The end of the run of digits starting at i. */
  function DigitsEnd(s: string, i: nat): (j: nat)
    requires i <= |s|
    ensures i <= j <= |s| && (forall k | i <= k < j :: IsDigit(s[k])) && (j < |s| ==> !IsDigit(s[j]))
    decreases |s| - i
  {
    if i < |s| && IsDigit(s[i]) then DigitsEnd(s, i + 1) else i
  }

  lemma {:induction false} DigitsEndUnique(s: string, i: nat, j: nat)
    requires i <= j <= |s| && (forall k | i <= k < j :: IsDigit(s[k])) && (j < |s| ==> !IsDigit(s[j]))
    ensures DigitsEnd(s, i) == j
    decreases j - i
  {
    if i < j { DigitsEndUnique(s, i + 1, j); }
  }

  /** Reads a decimal number at i; beyond the largest uintmax_t it stays at that value. */
  method ParseDecimal(s: string, i: nat) returns (ok: bool, j: nat, value: u64)
    requires i <= |s|
    ensures ok <==> DigitsEnd(s, i) > i
    ensures ok ==> j == DigitsEnd(s, i) && value == Min(Decimal(s[i..j]), UINTMAX)
    ensures !ok ==> j == i
  {
    value := 0;
    j := i;
    if i == |s| || !IsDigit(s[i]) {
      return false, i, 0;
    }
    while j < |s| && IsDigit(s[j])
      invariant i <= j <= |s| && forall k | i <= k < j :: IsDigit(s[k])
      invariant value == Min(Decimal(s[i..j]), UINTMAX)
    {
      var digit := DigitValue(s[j]);
      assert s[i..j + 1][..j - i] == s[i..j];
      if value > (UINTMAX - digit) / 10 {
        value := UINTMAX;
      } else {
        value := value * 10 + digit;
      }
      j := j + 1;
    }
    DigitsEndUnique(s, i, j);
    ok := true;
  }

  // ---------------------------------------------------------------------
  // What a range header says, over unbounded numbers
  // ---------------------------------------------------------------------

  datatype RangeSpec =
    | NoRange
    | Suffix(count: nat)
    | From(start: nat)
    | Between(start: nat, end: nat)

  /** The answer: the whole file, a part of it, or a refusal. */
  datatype Selection = Whole | Part(first: nat, length: nat) | Unsatisfiable

  function Lower(c: char): char {
    if 'A' <= c <= 'Z' then (c as int + 32) as char else c
  }

  predicate EqualsIgnoringCase(a: string, b: string) {
    |a| == |b| && forall i | 0 <= i < |a| :: Lower(a[i]) == Lower(b[i])
  }

  const UNIT := "bytes="

  /** The single range of a header value, or NoRange if it is to be ignored. */
  function RangeOf(value: Option<string>): RangeSpec {
    if value.None? then NoRange
    else
      var s := value.value;
      if |s| < 6 || !EqualsIgnoringCase(s[..6], UNIT) || ',' in s then NoRange
      else if |s| > 6 && s[6] == '-' then
        var j := DigitsEnd(s, 7);
        if j == 7 || j < |s| then NoRange else Suffix(Decimal(s[7..j]))
      else
        var j := DigitsEnd(s, 6);
        if j == 6 || j == |s| || s[j] != '-' then NoRange
        else if j + 1 == |s| then From(Decimal(s[6..j]))
        else
          var k := DigitsEnd(s, j + 1);
          if k == j + 1 || k < |s| then NoRange
          else Between(Decimal(s[6..j]), Decimal(s[j + 1..k]))
  }

  /** The bytes of a file of this size that a range asks for. */
  predicate Asks(r: RangeSpec, size: nat, p: nat) {
    p < size && match r
      case NoRange => true
      case Suffix(n) => p + n >= size
      case From(a) => a <= p
      case Between(a, b) => a <= p <= b
  }

  /** A range whose last position precedes its first is invalid and ignored. */
  predicate Invalid(r: RangeSpec) {
    r.NoRange? || (r.Between? && r.end < r.start)
  }

  function Choose(r: RangeSpec, size: nat): Selection {
    match r
    case NoRange => Whole
    case Suffix(n) => if n == 0 || size == 0 then Unsatisfiable else Part(size - Min(n, size), Min(n, size))
    case From(a) => if a >= size then Unsatisfiable else Part(a, size - a)
    case Between(a, b) =>
      if b < a then Whole
      else if a >= size then Unsatisfiable
      else Part(a, Min(b, size - 1) - a + 1)
  }

  function Saturated(r: RangeSpec): RangeSpec {
    match r
    case NoRange => r
    case Suffix(n) => Suffix(Min(n, UINTMAX))
    case From(a) => From(Min(a, UINTMAX))
    case Between(a, b) => Between(Min(a, UINTMAX), Min(b, UINTMAX))
  }

  /** The selection made with 64-bit saturating arithmetic. */
  method SelectRange(value: Option<string>, size: u64) returns (r: Selection)
    requires size <= OFF_MAX
    ensures r == Choose(Saturated(RangeOf(value)), size)
  {
    hide Decimal, DigitsEnd, EqualsIgnoringCase;
    if value.None? { return Whole; }
    var s := value.value;
    if |s| < 6 || !EqualsIgnoringCase(s[..6], UNIT) || ',' in s { return Whole; }
    var end: u64;
    if |s| > 6 && s[6] == '-' {
      var ok, j, n := ParseDecimal(s, 7);
      if !ok || j < |s| { return Whole; }
      if n == 0 || size == 0 { return Unsatisfiable; }
      var length := if n < size then n else size;
      return Part(size - length, length);
    }
    var ok, j, start := ParseDecimal(s, 6);
    if !ok || j == |s| || s[j] != '-' { return Whole; }
    end := UINTMAX;
    if j + 1 < |s| {
      var ok', k, e := ParseDecimal(s, j + 1);
      if !ok' || k < |s| { return Whole; }
      end := e;
    }
    if end < start { return Whole; }
    if start >= size { return Unsatisfiable; }
    if end >= size {
      end := size - 1;
    }
    return Part(start, end - start + 1);
  }

  // ---------------------------------------------------------------------
  // The selection is right
  // ---------------------------------------------------------------------

  /** A part is not empty, lies in the file and holds exactly the bytes asked for; a refusal means none are. */
  lemma ChooseIsRight(r: RangeSpec, size: nat)
    ensures Choose(r, size).Whole? <==> Invalid(r)
    ensures Choose(r, size).Part? ==>
      var s := Choose(r, size);
      && s.length >= 1 && s.first + s.length <= size
      && forall p: nat :: Asks(r, size, p) <==> s.first <= p < s.first + s.length
    ensures Choose(r, size).Unsatisfiable? <==> !Invalid(r) && forall p: nat :: !Asks(r, size, p)
  {
    var s := Choose(r, size);
    if s.Part? { assert Asks(r, size, s.first); }
    if r.NoRange? && size > 0 { assert Asks(r, size, 0); }
  }

  /**
   Saturation changes the answer exactly when the written bounds are in the wrong order and both too large to tell.
   */
  lemma SaturationHarmless(r: RangeSpec, size: nat)
    requires size <= OFF_MAX
    ensures Choose(Saturated(r), size) == Choose(r, size) <==>
      !(r.Between? && r.end < r.start && r.end >= UINTMAX)
  {}

  // ---------------------------------------------------------------------
  // The three written forms
  // ---------------------------------------------------------------------

  /** The same letter, perhaps in another case, or the same character. */
  predicate SameLetter(c: char, d: char) {
    || c == d
    || ('A' <= c <= 'Z' && d as int - c as int == 'a' as int - 'A' as int)
    || ('A' <= d <= 'Z' && c as int - d as int == 'a' as int - 'A' as int)
  }

  /** Two texts are taken for equal exactly if they have the same letters in the same places. */
  lemma CaseIsIgnored(a: string, b: string)
    ensures EqualsIgnoringCase(a, b) <==> |a| == |b| && forall i | 0 <= i < |a| :: SameLetter(a[i], b[i])
  {
    if |a| == |b| {
      forall i | 0 <= i < |a|
        ensures Lower(a[i]) == Lower(b[i]) <==> SameLetter(a[i], b[i])
      {}
    }
    hide Lower, SameLetter;
  }

  predicate IsNumber(ds: string) {
    ds != "" && forall i | 0 <= i < |ds| :: IsDigit(ds[i])
  }

  /** The unit, in any letter case. */
  predicate IsUnit(u: string) {
    EqualsIgnoringCase(u, UNIT)
  }

  /** A range header with two bounds, as a client writes it. */
  function Written(u: string, a: string, b: string): string {
    u + a + "-" + b
  }

  lemma UnitLength(u: string)
    requires IsUnit(u)
    ensures |u| == 6 && ',' !in u
  {
    assert forall i | 0 <= i < 6 :: Lower(u[i]) == Lower(UNIT[i]) != ',';
  }

  /** Where the parts of a written header lie. */
  lemma WrittenLayout(u: string, a: string, b: string)
    requires IsUnit(u) && (a == "" || IsNumber(a)) && (b == "" || IsNumber(b))
    ensures var s, j := Written(u, a, b), 6 + |a|;
      && |s| == j + 1 + |b| && s[..6] == u && s[6..j] == a && s[j] == '-' && s[j + 1..|s|] == b
      && (forall k | 6 <= k < j :: s[k] == a[k - 6])
      && (forall k | j < k < |s| :: s[k] == b[k - j - 1])
      && ',' !in s
  {
    UnitLength(u);
    assert ',' !in a && ',' !in b;
    hide IsUnit;
  }

  /** Two written bounds are read as the numbers they stand for. */
  lemma WrittenIsBetween(u: string, a: string, b: string)
    requires IsUnit(u) && IsNumber(a) && IsNumber(b)
    ensures RangeOf(Some(u + a + "-" + b)) == Between(Decimal(a), Decimal(b))
  {
    hide Decimal, DigitsEnd, EqualsIgnoringCase;
    var s, j := Written(u, a, b), 6 + |a|;
    WrittenLayout(u, a, b);
    DigitsEndUnique(s, 6, j);
    DigitsEndUnique(s, j + 1, |s|);
    assert s[6] != '-';
  }

  /** A written first position is read as a range from there to the end. */
  lemma WrittenIsFrom(u: string, a: string)
    requires IsUnit(u) && IsNumber(a)
    ensures RangeOf(Some(u + a + "-")) == From(Decimal(a))
  {
    hide Decimal, DigitsEnd, EqualsIgnoringCase;
    var s, j := Written(u, a, ""), 6 + |a|;
    assert s == u + a + "-";
    WrittenLayout(u, a, "");
    DigitsEndUnique(s, 6, j);
    assert s[6] != '-';
  }

  /** A written length is read as a range of the last so many bytes. */
  lemma WrittenIsSuffix(u: string, a: string)
    requires IsUnit(u) && IsNumber(a)
    ensures RangeOf(Some(u + "-" + a)) == Suffix(Decimal(a))
  {
    hide Decimal, DigitsEnd, EqualsIgnoringCase;
    var s := Written(u, "", a);
    assert s == u + "-" + a;
    WrittenLayout(u, "", a);
    DigitsEndUnique(s, 7, |s|);
  }

  /** A range written in one of the three forms, with these numbers. */
  predicate IsForm(s: string, u: string, a: string, b: string) {
    && IsUnit(u) && IsNumber(a)
    && (s == u + "-" + a || s == u + a + "-" || (IsNumber(b) && s == u + a + "-" + b))
  }

  /** Whatever else is written is no range. */
  lemma OnlyWrittenForms(s: string) returns (u: string, a: string, b: string)
    ensures RangeOf(Some(s)) != NoRange ==> IsForm(s, u, a, b)
  {
    hide Decimal, DigitsEnd, EqualsIgnoringCase;
    if RangeOf(Some(s)) == NoRange { return "", "", ""; }
    u := s[..6];
    if s[6] == '-' {
      a, b := s[7..], "";
      assert s == s[..6] + [s[6]] + s[7..];
    } else {
      var j := DigitsEnd(s, 6);
      a, b := s[6..j], s[j + 1..];
      assert s == s[..6] + s[6..j] + [s[j]] + s[j + 1..];
    }
  }

  /** Such a header text, bounds written in decimal: it should be ignored, and is refused instead. */
  lemma SaturationCanMatter()
    ensures var header := Some("bytes=" + Digits(UINTMAX + 1) + "-" + Digits(UINTMAX));
      && Invalid(RangeOf(header))
      && Choose(RangeOf(header), 1) == Whole
      && Choose(Saturated(RangeOf(header)), 1) == Unsatisfiable
  {
    var a, b := Digits(UINTMAX + 1), Digits(UINTMAX);
    WrittenIsBetween(UNIT, a, b);
    DigitsRoundTrip(UINTMAX + 1);
    DigitsRoundTrip(UINTMAX);
    hide Digits, Decimal, RangeOf;
  }
}
