/**
 * Unit identity: range checks on operator input, the per-unit identifier
 * ("FP" + batch + "-" + year + month + serial) and the lookup that derives a
 * unit's identifier and password from a password table.
 */
module Credentials {
  import opened Wrappers
  import opened Text

  const DefaultPassword: string := "12345678"
  const SerialMin: int := 1
  const SerialMax: int := 100
  const YearMin: int := 0
  const YearMax: int := 99
  const MonthMin: int := 1
  const MonthMax: int := 12
  const IdentifierPrefix: string := "FP"

  /** The ValueError raised for a field outside its range. */
  datatype ValidationError = BatchNotPositive | SerialOutOfRange | YearOutOfRange | MonthOutOfRange
  {
    /** The exception's text, with the range constants formatted as the source formats them. */
    function Message(): string
    {
      match this
      case BatchNotPositive => "Batch number must be positive."
      case SerialOutOfRange => "Serial must be between 1 and 100."
      case YearOutOfRange => "Year must be between 00 and 99."
      case MonthOutOfRange => "Month must be between 01 and 12."
    }
  }

  function ValidateYear(year: int): (r: Outcome<ValidationError>)
    ensures r.Pass? <==> YearMin <= year <= YearMax
    ensures r.Fail? ==> r.error == YearOutOfRange
  {
    if YearMin <= year <= YearMax then Pass else Fail(YearOutOfRange)
  }

  function ValidateMonth(month: int): (r: Outcome<ValidationError>)
    ensures r.Pass? <==> MonthMin <= month <= MonthMax
    ensures r.Fail? ==> r.error == MonthOutOfRange
  {
    if MonthMin <= month <= MonthMax then Pass else Fail(MonthOutOfRange)
  }

  /** The fields of a unit that lookup accepts. */
  predicate ValidFields(batch: int, serial: int, year: int, month: int)
  {
    batch > 0 && SerialMin <= serial <= SerialMax && YearMin <= year <= YearMax && MonthMin <= month <= MonthMax
  }

  /** "FP{batch:02d}-{year:02d}{month:02d}{serial:04d}". */
  function FormatIdentifier(batch: int, year: int, month: int, serial: int): string
  {
    IdentifierPrefix + FormatInt(batch, 2) + "-" + FormatInt(year, 2) + FormatInt(month, 2) + FormatInt(serial, 4)
  }

  /**
   * Reads the fields back out of an identifier: the prefix, a batch of any
   * length, a dash, then exactly eight digits for year, month and serial.
   */
  function ParseIdentifier(id: string): Option<(int, int, int, int)>
  {
    if |id| < 13 || id[..2] != IdentifierPrefix || id[|id| - 9] != '-' then None
    else
      var b, y, m, s := id[2..|id| - 9], id[|id| - 8..|id| - 6], id[|id| - 6..|id| - 4], id[|id| - 4..];
      if AllDigits(b) && AllDigits(y) && AllDigits(m) && AllDigits(s)
      then Some((DigitsValue(b), DigitsValue(y), DigitsValue(m), DigitsValue(s)))
      else None
  }

  /** Where the pieces of an identifier laid out from strings of the formatted widths sit. */
  lemma LaidOutSlices(b: string, y: string, m: string, s: string)
    requires |b| >= 2 && |y| == 2 && |m| == 2 && |s| == 4
    ensures var id := IdentifierPrefix + b + "-" + y + m + s;
            && |id| >= 13 && id[..2] == IdentifierPrefix && id[|id| - 9] == '-'
            && id[2..|id| - 9] == b && id[|id| - 8..|id| - 6] == y
            && id[|id| - 6..|id| - 4] == m && id[|id| - 4..] == s
  {
    var id := IdentifierPrefix + b + "-" + y + m + s;
    var tail := y + m + s;
    var p := IdentifierPrefix + b;
    assert id == p + ("-" + tail);
    var h := |id| - 8;
    assert h == |b| + 3;
    assert id[..|p|] == p;
    assert p[2..] == b;
    assert id[2..h - 1] == id[..|p|][2..];
    assert id[h..] == tail;
    assert tail[..2] == y && tail[2..4] == m && tail[4..] == s;
  }

  /** An identifier laid out from digit strings of the formatted widths reads back as those numbers. */
  lemma ParseLaidOut(b: string, y: string, m: string, s: string)
    requires |b| >= 2 && |y| == 2 && |m| == 2 && |s| == 4
    requires AllDigits(b) && AllDigits(y) && AllDigits(m) && AllDigits(s)
    ensures ParseIdentifier(IdentifierPrefix + b + "-" + y + m + s)
            == Some((DigitsValue(b), DigitsValue(y), DigitsValue(m), DigitsValue(s)))
  {
    LaidOutSlices(b, y, m, s);
  }

  /** Every valid unit's identifier parses back to its batch, year, month and serial. */
  lemma IdentifierRoundTrip(batch: int, year: int, month: int, serial: int)
    requires ValidFields(batch, serial, year, month)
    ensures ParseIdentifier(FormatIdentifier(batch, year, month, serial)) == Some((batch, year, month, serial))
  {
    assert Pow10(2) == 100 && Pow10(4) == 10000;
    FormatIntValue(batch, 2);
    FormatIntFixedWidth(year, 2);
    FormatIntFixedWidth(month, 2);
    FormatIntFixedWidth(serial, 4);
    ParseLaidOut(FormatInt(batch, 2), FormatInt(year, 2), FormatInt(month, 2), FormatInt(serial, 4));
  }

  /** Distinct valid units never share an identifier (and so never share a network name). */
  lemma IdentifierInjective(b1: int, y1: int, m1: int, s1: int, b2: int, y2: int, m2: int, s2: int)
    requires ValidFields(b1, s1, y1, m1) && ValidFields(b2, s2, y2, m2)
    requires FormatIdentifier(b1, y1, m1, s1) == FormatIdentifier(b2, y2, m2, s2)
    ensures b1 == b2 && y1 == y2 && m1 == m2 && s1 == s2
  {
    IdentifierRoundTrip(b1, y1, m1, s1);
    IdentifierRoundTrip(b2, y2, m2, s2);
  }

  /** The record lookup returns: the echoed fields, the identifier (as serial and ssid) and the password. */
  datatype Unit = Unit(batch: int, year: int, month: int, serialNumber: int,
                       serial: string, ssid: string, password: string)

  /**
   * PasswordDatabase.lookup over the database's table and default password:
   * the checks run in the order batch, serial, year, month; the identifier
   * serves as both serial label and SSID; the password is the table's entry
   * for (batch, serial) when there is one, else the default.
   */
  function Lookup(entries: map<(int, int), string>, defaultPassword: string,
                  batch: int, serial: int, year: int, month: int): (r: Result<Unit, ValidationError>)
    ensures r.Success? <==> ValidFields(batch, serial, year, month)
    ensures r == Failure(BatchNotPositive) <==> batch <= 0
    ensures r == Failure(SerialOutOfRange) <==> batch > 0 && !(SerialMin <= serial <= SerialMax)
    ensures r == Failure(YearOutOfRange)
            <==> batch > 0 && SerialMin <= serial <= SerialMax && !(YearMin <= year <= YearMax)
    ensures r == Failure(MonthOutOfRange)
            <==> batch > 0 && SerialMin <= serial <= SerialMax && YearMin <= year <= YearMax
                 && !(MonthMin <= month <= MonthMax)
    ensures r.Success? ==>
              && r.value.batch == batch && r.value.year == year && r.value.month == month
              && r.value.serialNumber == serial
              && r.value.serial == FormatIdentifier(batch, year, month, serial)
              && r.value.ssid == r.value.serial
              && r.value.password == (if (batch, serial) in entries then entries[(batch, serial)] else defaultPassword)
  {
    if batch <= 0 then Failure(BatchNotPositive)
    else if !(SerialMin <= serial <= SerialMax) then Failure(SerialOutOfRange)
    else if ValidateYear(year).Fail? then Failure(ValidateYear(year).error)
    else if ValidateMonth(month).Fail? then Failure(ValidateMonth(month).error)
    else
      var password := if (batch, serial) in entries then entries[(batch, serial)] else defaultPassword;
      var ident := FormatIdentifier(batch, year, month, serial);
      Success(Unit(batch, year, month, serial, ident, ident, password))
  }

  /** Two successful lookups that derive the same identifier were asked about the same unit. */
  lemma LookupIdentifiesUnit(entries: map<(int, int), string>, defaultPassword: string,
                             b1: int, s1: int, y1: int, m1: int, b2: int, s2: int, y2: int, m2: int)
    requires Lookup(entries, defaultPassword, b1, s1, y1, m1).Success?
    requires Lookup(entries, defaultPassword, b2, s2, y2, m2).Success?
    requires Lookup(entries, defaultPassword, b1, s1, y1, m1).value.ssid
             == Lookup(entries, defaultPassword, b2, s2, y2, m2).value.ssid
    ensures b1 == b2 && s1 == s2 && y1 == y2 && m1 == m2
    ensures Lookup(entries, defaultPassword, b1, s1, y1, m1) == Lookup(entries, defaultPassword, b2, s2, y2, m2)
  {
    IdentifierInjective(b1, y1, m1, s1, b2, y2, m2, s2);
  }

  lemma ExampleFields()
    ensures FormatInt(1, 2) == "01" && FormatInt(24, 2) == "24" && FormatInt(6, 2) == "06"
    ensures FormatInt(1, 4) == "0001"
  {
    assert DigitChar(1) == '1' && DigitChar(2) == '2' && DigitChar(4) == '4' && DigitChar(6) == '6';
    assert Decimal(1) == "1" && Decimal(6) == "6";
    assert Decimal(24) == Decimal(2) + "4" == "24";
    assert Zeros(1) == "0" && Zeros(3) == "000";
  }

  /** Batch 1, June 2024, serial 1 is FP01-24060001: the serial takes four digits. */
  lemma ExampleIdentifier()
    ensures FormatIdentifier(1, 24, 6, 1) == "FP01-24060001"
  {
    var b, y, m, n := FormatInt(1, 2), FormatInt(24, 2), FormatInt(6, 2), FormatInt(1, 4);
    assert FormatIdentifier(1, 24, 6, 1) == "FP" + b + "-" + y + m + n;
    ExampleFields();
    assert "FP" + "01" + "-" + "24" + "06" + "0001" == "FP01-24060001";
  }

  /** Batch 1, serial 1, June 2024, with a table entry for (1, 1); serial 2 has no entry. */
  lemma LookupExample()
    ensures Lookup(map[(1, 1) := "secretpw1"], DefaultPassword, 1, 1, 24, 6)
            == Success(Unit(1, 24, 6, 1, "FP01-24060001", "FP01-24060001", "secretpw1"))
    ensures Lookup(map[(1, 1) := "secretpw1"], DefaultPassword, 1, 2, 24, 6).value.password == DefaultPassword
  {
    ExampleIdentifier();
  }
}
