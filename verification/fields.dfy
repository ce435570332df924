/** The per-column parsers of the loader: `isInt` / `parseInt` (the `id`
    column), `parseDouble` (the `salary` column) and `parseBirthDate` (the
    `birthDate` column). Every one of them trims its argument first and turns
    a library failure into a `LoadError` carrying the line number and the raw
    text. `Double.parseDouble` and `LocalDate.parse` are library code and enter
    as the two functions of `Parsers`. */
module Fields {
  import opened Wrappers
  import opened Text
  import opened Errors

  /** The range of a Java `int`. */
  const MinInt32: int := -0x8000_0000
  const MaxInt32: int := 0x7FFF_FFFF

  /** A calendar date as `LocalDate` holds it. */
  datatype Date = Date(year: int, month: int, day: int)

  /** The two library parsers: `Double.parseDouble` (modelled as yielding a
      `real`, which has no `NaN`, infinities or `-0.0`) and
      `LocalDate.parse(_, "dd.MM.yyyy")`; `None` stands for the exception
      either throws. */
  datatype Parsers = Parsers(number: string -> Option<real>, date: string -> Option<Date>)

  predicate IsDigit(c: char) {
    '0' <= c <= '9'
  }

  predicate AllDigits(s: string) {
    forall i :: 0 <= i < |s| ==> IsDigit(s[i])
  }

  /** The value of a decimal numeral, most significant digit first. */
  function NumeralValue(ds: string): nat
    requires AllDigits(ds)
  {
    if ds == [] then 0
    else NumeralValue(ds[..|ds| - 1]) * 10 + (ds[|ds| - 1] as int - '0' as int)
  }

  /** The digits after an optional leading sign. */
  function Unsigned(t: string): string {
    if t != [] && (t[0] == '-' || t[0] == '+') then t[1..] else t
  }

  /** The value a sign and a numeral stand for: minus the numeral after a
      leading `-`, the numeral itself otherwise. */
  function Signed(t: string): int
    requires AllDigits(Unsigned(t))
  {
    var n: int := NumeralValue(Unsigned(t));
    if t != [] && t[0] == '-' then -n else n
  }

  /** `Integer.parseInt` over ASCII: an optional `+` or `-`, then one or more
      digits, and a value that fits in an `int`. */
  function ParseInt32(t: string): (r: Option<int>)
    ensures r.Some? <==> Unsigned(t) != [] && AllDigits(Unsigned(t)) && MinInt32 <= Signed(t) <= MaxInt32
    ensures r.Some? ==> r.value == Signed(t)
    ensures r.Some? ==> MinInt32 <= r.value <= MaxInt32
    ensures r.Some? ==> (r.value < 0 ==> t[0] == '-')
  {
    var digits := Unsigned(t);
    if digits == [] || !AllDigits(digits) then None
    else
      var n: int := NumeralValue(digits);
      var v := if t[0] == '-' then -n else n;
      if MinInt32 <= v <= MaxInt32 then Some(v) else None
  }

  /** `Integer.toString`, the partner `ParseInt32` must invert. */
  function ShowNat(n: nat): (r: string)
    ensures r != [] && AllDigits(r)
    ensures r[0] != '-' && r[0] != '+'
  {
    if n < 10 then [('0' as int + n) as char]
    else ShowNat(n / 10) + [('0' as int + n % 10) as char]
  }

  function ShowInt(n: int): string {
    if n < 0 then ['-'] + ShowNat(-n) else ShowNat(n)
  }

  /** A `+` sign and leading zeros are accepted: `+007` is 7. */
  lemma ParseLeadingZerosExample()
    ensures ParseInt32("+007") == Some(7)
  {
    assert Unsigned("+007") == "007";
    assert "007"[..2] == "00" && "00"[..1] == "0" && "0"[..0] == "";
    assert NumeralValue("0") == 0;
    assert NumeralValue("00") == 0;
    assert NumeralValue("007") == 7;
  }

  lemma {:induction false} NumeralValueOfShowNat(n: nat)
    ensures NumeralValue(ShowNat(n)) == n
  {
    if n >= 10 {
      var s := ShowNat(n);
      assert s[..|s| - 1] == ShowNat(n / 10);
      NumeralValueOfShowNat(n / 10);
    }
  }

  /** Every `int` written in decimal parses back to itself. */
  lemma ParseShowRoundTrip(n: int)
    requires MinInt32 <= n <= MaxInt32
    ensures ParseInt32(ShowInt(n)) == Some(n)
  {
    var t := ShowInt(n);
    var m: nat := if n < 0 then -n else n;
    assert Unsigned(t) == ShowNat(m);
    NumeralValueOfShowNat(m);
    assert Signed(t) == n;
  }

  /** `isInt`: the trimmed text is an `int`. */
  predicate IsInt(s: string)
    ensures IsInt(s) <==>
      var t := Trim(s);
      Unsigned(t) != [] && AllDigits(Unsigned(t)) && MinInt32 <= Signed(t) <= MaxInt32
  {
    ParseInt32(Trim(s)).Some?
  }

  /** `parseInt(s, field, lineNo)`. */
  function ParseIntField(s: string, field: string, lineNo: int): (r: Result<int, LoadError>)
    ensures r.Success? <==> IsInt(s)
    ensures r.Success? ==> MinInt32 <= r.value <= MaxInt32 && Some(r.value) == ParseInt32(Trim(s))
    ensures r.Failure? ==> r.error == BadValue(lineNo, field, s)
  {
    match ParseInt32(Trim(s))
    case Some(v) => Success(v)
    case None => Failure(BadValue(lineNo, field, s))
  }

  function CommaToPoint(c: char): char {
    if c == ',' then '.' else c
  }

  /** `replace(',', '.')`. */
  function ReplaceComma(s: string): (r: string)
    ensures |r| == |s|
    ensures forall i :: 0 <= i < |s| ==> r[i] == (if s[i] == ',' then '.' else s[i])
    ensures forall i :: 0 <= i < |r| ==> r[i] != ','
  {
    MapChars(CommaToPoint, s)
  }

  /** `parseDouble(s, field, lineNo)`: a comma is read as the decimal point. */
  function ParseDouble(p: Parsers, s: string, field: string, lineNo: int): (r: Result<real, LoadError>)
    ensures r.Success? ==> p.number(ReplaceComma(Trim(s))) == Some(r.value)
    ensures r.Failure? ==> p.number(ReplaceComma(Trim(s))).None? && r.error == BadValue(lineNo, field, s)
  {
    match p.number(ReplaceComma(Trim(s)))
    case Some(v) => Success(v)
    case None => Failure(BadValue(lineNo, field, s))
  }

  /** Whether the decimal separator is written `,` or `.` never changes the
      salary read. */
  lemma DecimalCommaIsPoint(p: Parsers, s: string, field: string, lineNo: int)
    ensures ParseDouble(p, ReplaceComma(s), field, lineNo).Success? == ParseDouble(p, s, field, lineNo).Success?
    ensures ParseDouble(p, s, field, lineNo).Success? ==>
      ParseDouble(p, ReplaceComma(s), field, lineNo).value == ParseDouble(p, s, field, lineNo).value
  {
    ReplaceCommaAfterTrim(s);
  }

  /** Replacing commas before or after trimming gives the same text, and
      replacing twice is replacing once. */
  lemma ReplaceCommaAfterTrim(s: string)
    ensures ReplaceComma(Trim(ReplaceComma(s))) == ReplaceComma(Trim(s))
  {
    ReplaceCommaTrim(s);
    ReplaceCommaTrim(ReplaceComma(s));
    ReplaceCommaIdempotent(s);
  }

  lemma ReplaceCommaTrim(s: string)
    ensures ReplaceComma(Trim(s)) == Trim(ReplaceComma(s))
  {
    CommaToPointKeepsBlanks();
    MapTrim(CommaToPoint, s);
  }

  lemma ReplaceCommaIdempotent(s: string)
    ensures ReplaceComma(ReplaceComma(s)) == ReplaceComma(s)
  {
    var t := ReplaceComma(s);
    assert forall i :: 0 <= i < |t| ==> ReplaceComma(t)[i] == t[i];
  }

  lemma CommaToPointKeepsBlanks()
    ensures KeepsBlanks(CommaToPoint)
  {
    forall c: char ensures IsBlankChar(CommaToPoint(c)) <==> IsBlankChar(c) { }
  }

  /** `parseBirthDate(s, lineNo)`. */
  function ParseBirthDate(p: Parsers, s: string, lineNo: int): (r: Result<Date, LoadError>)
    ensures r.Success? ==> p.date(Trim(s)) == Some(r.value)
    ensures r.Failure? ==> p.date(Trim(s)).None? && r.error == BadBirthDate(lineNo, s)
  {
    match p.date(Trim(s))
    case Some(d) => Success(d)
    case None => Failure(BadBirthDate(lineNo, s))
  }

  /** All three column parsers trim first, so blanks around a value never
      change what it parses to. */
  lemma FieldParsersIgnorePadding(p: Parsers, left: string, s: string, right: string, lineNo: int)
    requires IsBlank(left) && IsBlank(right)
    ensures ParseInt32(Trim(left + s + right)) == ParseInt32(Trim(s))
    ensures ParseDouble(p, left + s + right, "salary", lineNo).Success? == ParseDouble(p, s, "salary", lineNo).Success?
    ensures ParseDouble(p, s, "salary", lineNo).Success? ==>
      ParseDouble(p, left + s + right, "salary", lineNo).value == ParseDouble(p, s, "salary", lineNo).value
    ensures ParseBirthDate(p, left + s + right, lineNo).Success? == ParseBirthDate(p, s, lineNo).Success?
    ensures ParseBirthDate(p, s, lineNo).Success? ==>
      ParseBirthDate(p, left + s + right, lineNo).value == ParseBirthDate(p, s, lineNo).value
  {
    TrimIgnoresPadding(left, s, right);
  }
}
