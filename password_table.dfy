/**
 * The password override table: the rows of passwords.csv turned into a map
 * keyed by (batch, serial), with every check that aborts start-up, and the
 * PasswordDatabase object whose load fills that map in place.
 */
module PasswordTable {
  import opened Wrappers
  import opened Text
  import opened Credentials

  type Key = (int, int)

  const RequiredColumns: set<string> := {"batch", "serial", "password"}
  const PasswordMinLength: int := 8
  const PasswordMaxLength: int := 63

  /**
   * One record as the CSV reader hands it over. batch and serial are the
   * fields after int(): None where int() raises (a missing, empty or
   * non-numeric field). password is None when a short record lacks it.
   */
  datatype Row = Row(batch: Option<int>, serial: Option<int>, password: Option<string>)

  /** An existing passwords.csv: its column names (empty for an empty file) and its records. */
  datatype CsvFile = CsvFile(header: set<string>, rows: seq<Row>)

  /** Why loading aborts start-up (SystemExit, or the AttributeError a short record raises). */
  datatype LoadError =
    | MissingColumns
    | InvalidNumber(row: Row)
    | MissingPassword(row: Row)
    | SerialNotSupported(serial: int)
    | BadPasswordLength(batch: int, serial: int)
    | DuplicateEntry(batch: int, serial: int)

  /** A record that passes every per-record check. */
  predicate RowValid(row: Row)
  {
    && row.batch.Some? && row.serial.Some? && row.password.Some?
    && SerialMin <= row.serial.value <= SerialMax
    && PasswordMinLength <= |Strip(row.password.value)| <= PasswordMaxLength
  }

  function KeyOf(row: Row): Key
    requires row.batch.Some? && row.serial.Some?
  {
    (row.batch.value, row.serial.value)
  }

  /**
   * The checks the load loop makes on one record, in the source's order,
   * given the entries collected from the records before it.
   */
  function CheckRow(row: Row, seen: map<Key, string>): (r: Result<(Key, string), LoadError>)
    ensures r.Success? <==> RowValid(row) && KeyOf(row) !in seen
    ensures r.Success? ==> r.value == (KeyOf(row), Strip(row.password.value))
    ensures row.batch.None? || row.serial.None? ==> r == Failure(InvalidNumber(row))
    ensures row.batch.Some? && row.serial.Some? && row.password.None? ==> r == Failure(MissingPassword(row))
    ensures row.batch.Some? && row.serial.Some? && row.password.Some? ==>
              var batch, serial, password := row.batch.value, row.serial.value, Strip(row.password.value);
              && (!(SerialMin <= serial <= SerialMax) ==> r == Failure(SerialNotSupported(serial)))
              && (SerialMin <= serial <= SerialMax && !(PasswordMinLength <= |password| <= PasswordMaxLength)
                  ==> r == Failure(BadPasswordLength(batch, serial)))
              && (RowValid(row) && (batch, serial) in seen ==> r == Failure(DuplicateEntry(batch, serial)))
  {
    if row.batch.None? || row.serial.None? then Failure(InvalidNumber(row))
    else if row.password.None? then Failure(MissingPassword(row))
    else
      var batch, serial, password := row.batch.value, row.serial.value, Strip(row.password.value);
      if !(SerialMin <= serial <= SerialMax) then Failure(SerialNotSupported(serial))
      else if |password| < PasswordMinLength || |password| > PasswordMaxLength then Failure(BadPasswordLength(batch, serial))
      else if (batch, serial) in seen then Failure(DuplicateEntry(batch, serial))
      else Success(((batch, serial), password))
  }

  /** The table the load loop builds from the records, or the error of the first record it rejects. */
  function BuildTable(rows: seq<Row>): Result<map<Key, string>, LoadError>
  {
    if rows == [] then Success(map[])
    else
      match BuildTable(rows[..|rows| - 1])
      case Failure(e) => Failure(e)
      case Success(m) =>
        match CheckRow(rows[|rows| - 1], m)
        case Failure(e) => Failure(e)
        case Success(entry) => Success(m[entry.0 := entry.1])
  }

  /** What load leaves in entries: empty without a file, else the table of its records. */
  function LoadTable(file: Option<CsvFile>): Result<map<Key, string>, LoadError>
  {
    match file
    case None => Success(map[])
    case Some(csv) => if !(RequiredColumns <= csv.header) then Failure(MissingColumns) else BuildTable(csv.rows)
  }

  ghost predicate AllRowsValid(rows: seq<Row>)
  {
    forall i :: 0 <= i < |rows| ==> RowValid(rows[i])
  }

  ghost predicate DistinctKeys(rows: seq<Row>)
    requires AllRowsValid(rows)
  {
    forall i, j :: 0 <= i < j < |rows| ==> KeyOf(rows[i]) != KeyOf(rows[j])
  }

  /** m holds every record's key mapped to its stripped password, and no other key. */
  ghost predicate HoldsExactly(m: map<Key, string>, rows: seq<Row>)
    requires AllRowsValid(rows)
  {
    && (forall i :: 0 <= i < |rows| ==> KeyOf(rows[i]) in m && m[KeyOf(rows[i])] == Strip(rows[i].password.value))
    && (forall k :: k in m ==> exists i :: 0 <= i < |rows| && KeyOf(rows[i]) == k)
  }

  /** Appending an accepted record keeps the characterization. */
  lemma ExtendAccepted(init: seq<Row>, last: Row, m: map<Key, string>)
    requires AllRowsValid(init) && DistinctKeys(init) && HoldsExactly(m, init)
    requires RowValid(last) && KeyOf(last) !in m
    ensures AllRowsValid(init + [last]) && DistinctKeys(init + [last])
    ensures HoldsExactly(m[KeyOf(last) := Strip(last.password.value)], init + [last])
  {
    ExtendDistinct(init, last, m);
    ExtendHolds(init, last, m);
  }

  lemma ExtendDistinct(init: seq<Row>, last: Row, m: map<Key, string>)
    requires AllRowsValid(init) && DistinctKeys(init) && HoldsExactly(m, init)
    requires RowValid(last) && KeyOf(last) !in m
    ensures AllRowsValid(init + [last]) && DistinctKeys(init + [last])
  {
    var rows, n := init + [last], |init| + 1;
    AppendValid(init, last);
    forall i, j | 0 <= i < j < n
      ensures KeyOf(rows[i]) != KeyOf(rows[j])
    {
      assert rows[i] == init[i];
      if j < n - 1 {
        assert rows[j] == init[j];
      } else {
        assert KeyOf(init[i]) in m;
      }
    }
  }

  lemma ExtendHolds(init: seq<Row>, last: Row, m: map<Key, string>)
    requires AllRowsValid(init) && HoldsExactly(m, init)
    requires RowValid(last) && KeyOf(last) !in m
    ensures AllRowsValid(init + [last])
    ensures HoldsExactly(m[KeyOf(last) := Strip(last.password.value)], init + [last])
  {
    var rows, n := init + [last], |init| + 1;
    var m' := m[KeyOf(last) := Strip(last.password.value)];
    AppendValid(init, last);
    forall i | 0 <= i < n
      ensures KeyOf(rows[i]) in m' && m'[KeyOf(rows[i])] == Strip(rows[i].password.value)
    {
      if i < n - 1 {
        assert rows[i] == init[i];
        assert KeyOf(init[i]) in m;
      }
    }
    forall k | k in m'
      ensures exists i :: 0 <= i < n && KeyOf(rows[i]) == k
    {
      if k == KeyOf(last) {
        assert KeyOf(rows[n - 1]) == k;
      } else {
        var i :| 0 <= i < n - 1 && KeyOf(init[i]) == k;
        assert rows[i] == init[i];
      }
    }
  }

  /** A record whose key is already in the table makes the keys repeat. */
  lemma ExtendDuplicate(init: seq<Row>, last: Row, m: map<Key, string>)
    requires AllRowsValid(init) && HoldsExactly(m, init)
    requires RowValid(last) && KeyOf(last) in m
    ensures AllRowsValid(init + [last]) && !DistinctKeys(init + [last])
  {
    var rows, n := init + [last], |init| + 1;
    AppendValid(init, last);
    var i :| 0 <= i < n - 1 && KeyOf(init[i]) == KeyOf(last);
    assert rows[i] == init[i] && rows[n - 1] == last;
  }

  lemma AppendValid(init: seq<Row>, last: Row)
    requires AllRowsValid(init) && RowValid(last)
    ensures AllRowsValid(init + [last])
  {
    var rows := init + [last];
    forall i | 0 <= i < |rows|
      ensures RowValid(rows[i])
    {
      if i < |init| {
        assert rows[i] == init[i];
      }
    }
  }

  /** Records that fail the checks keep failing them with more records after them. */
  lemma ExtendRejected(init: seq<Row>, last: Row)
    requires !(AllRowsValid(init) && DistinctKeys(init))
    ensures !(AllRowsValid(init + [last]) && DistinctKeys(init + [last]))
  {
    var rows := init + [last];
    assert forall i :: 0 <= i < |init| ==> rows[i] == init[i];
    if AllRowsValid(rows) {
      assert AllRowsValid(init);
    }
  }

  /**
   * Loading succeeds exactly when every record passes its checks and no
   * (batch, serial) key repeats; the table then holds each record's key,
   * mapped to its stripped password, and nothing else.
   */
  lemma {:induction false} BuildTableCharacterized(rows: seq<Row>)
    ensures BuildTable(rows).Success? <==> AllRowsValid(rows) && DistinctKeys(rows)
    ensures BuildTable(rows).Success? ==> HoldsExactly(BuildTable(rows).value, rows)
  {
    if rows != [] {
      var n := |rows|;
      var init, last := rows[..n - 1], rows[n - 1];
      assert rows == init + [last];
      BuildTableCharacterized(init);
      match BuildTable(init)
      case Failure(_) =>
        ExtendRejected(init, last);
      case Success(m) =>
        if CheckRow(last, m).Success? {
          ExtendAccepted(init, last, m);
        } else if RowValid(last) {
          ExtendDuplicate(init, last, m);
        } else {
          assert !RowValid(rows[n - 1]);
        }
    }
  }

  /** Once a prefix of the records is rejected, the whole file is rejected with the same error. */
  lemma {:induction false} RejectionIsFinal(rows: seq<Row>, k: nat)
    requires k <= |rows| && BuildTable(rows[..k]).Failure?
    ensures BuildTable(rows) == BuildTable(rows[..k])
  {
    if k < |rows| {
      var n := |rows|;
      assert rows[..n - 1][..k] == rows[..k];
      RejectionIsFinal(rows[..n - 1], k);
      assert BuildTable(rows[..n - 1]).Failure?;
    } else {
      assert rows[..k] == rows;
    }
  }

  /** Every entry of a loaded table has a serial in 1..100 and a password of 8 to 63 characters. */
  lemma LoadedEntriesWellFormed(rows: seq<Row>)
    requires BuildTable(rows).Success?
    ensures forall k :: k in BuildTable(rows).value ==>
              && SerialMin <= k.1 <= SerialMax
              && PasswordMinLength <= |BuildTable(rows).value[k]| <= PasswordMaxLength
  {
    BuildTableCharacterized(rows);
    var m := BuildTable(rows).value;
    forall k | k in m
      ensures SerialMin <= k.1 <= SerialMax && PasswordMinLength <= |m[k]| <= PasswordMaxLength
    {
      var i :| 0 <= i < |rows| && KeyOf(rows[i]) == k;
      assert m[KeyOf(rows[i])] == Strip(rows[i].password.value);
    }
  }

  /** A unit listed in the loaded table looks up to that record's stripped password. */
  lemma LookupUsesLoadedPassword(rows: seq<Row>, i: int, defaultPassword: string, year: int, month: int)
    requires BuildTable(rows).Success? && 0 <= i < |rows|
    requires rows[i].batch.Some? && rows[i].serial.Some? && rows[i].password.Some?
    requires ValidFields(rows[i].batch.value, rows[i].serial.value, year, month)
    ensures Lookup(BuildTable(rows).value, defaultPassword, rows[i].batch.value, rows[i].serial.value, year, month)
            .value.password == Strip(rows[i].password.value)
  {
    var m := BuildTable(rows).value;
    assert KeyOf(rows[i]) in m && m[KeyOf(rows[i])] == Strip(rows[i].password.value) by {
      BuildTableCharacterized(rows);
    }
    var r := Lookup(m, defaultPassword, rows[i].batch.value, rows[i].serial.value, year, month);
    assert r.Success?;
    assert (rows[i].batch.value, rows[i].serial.value) == KeyOf(rows[i]);
  }

  /** A unit that no record names looks up to the default password. */
  lemma LookupFallsBackToDefault(rows: seq<Row>, defaultPassword: string, batch: int, serial: int, year: int, month: int)
    requires BuildTable(rows).Success? && ValidFields(batch, serial, year, month)
    requires forall i :: 0 <= i < |rows| && rows[i].batch.Some? && rows[i].serial.Some? ==> KeyOf(rows[i]) != (batch, serial)
    ensures Lookup(BuildTable(rows).value, defaultPassword, batch, serial, year, month).value.password == defaultPassword
  {
    BuildTableCharacterized(rows);
  }

  /** With a loaded table and a default of 8 to 63 characters, every looked-up password has 8 to 63 characters. */
  lemma LookupPasswordLength(rows: seq<Row>, defaultPassword: string, batch: int, serial: int, year: int, month: int)
    requires BuildTable(rows).Success? && ValidFields(batch, serial, year, month)
    requires PasswordMinLength <= |defaultPassword| <= PasswordMaxLength
    ensures PasswordMinLength
            <= |Lookup(BuildTable(rows).value, defaultPassword, batch, serial, year, month).value.password|
            <= PasswordMaxLength
  {
    LoadedEntriesWellFormed(rows);
  }

  /** PasswordDatabase: the override table and whether it came from a file. */
  class PasswordDatabase {
    var entries: map<Key, string>
    var loadedFromDisk: bool
    const defaultPassword: string

    constructor (defaultPassword: string)
      ensures this.defaultPassword == defaultPassword
      ensures entries == map[] && !loadedFromDisk
    {
      this.defaultPassword := defaultPassword;
      entries := map[];
      loadedFromDisk := false;
    }

    /**
     * load(): file is None when passwords.csv does not exist. A Fail
     * outcome is the SystemExit (or uncaught error) that aborts start-up.
     */
    method Load(file: Option<CsvFile>) returns (outcome: Outcome<LoadError>)
      modifies this
      ensures loadedFromDisk == file.Some?
      ensures outcome.Pass? <==> LoadTable(file).Success?
      ensures outcome.Pass? ==> entries == LoadTable(file).value
      ensures outcome.Fail? ==> outcome.error == LoadTable(file).error
      ensures file.Some? && !(RequiredColumns <= file.value.header) ==> entries == old(entries)
      ensures file.Some? && RequiredColumns <= file.value.header && outcome.Fail? ==>
                exists k :: 0 <= k < |file.value.rows| && BuildTable(file.value.rows[..k]) == Success(entries)
                            && CheckRow(file.value.rows[k], entries).Failure?
    {
      if file.None? {
        entries := map[];
        loadedFromDisk := false;
        return Pass;
      }
      loadedFromDisk := true;
      var csv := file.value;
      if !(RequiredColumns <= csv.header) {
        return Fail(MissingColumns);
      }
      entries := map[];
      var i := 0;
      while i < |csv.rows|
        invariant 0 <= i <= |csv.rows|
        invariant BuildTable(csv.rows[..i]) == Success(entries)
        invariant loadedFromDisk
      {
        var row := csv.rows[i];
        assert csv.rows[..i + 1][..i] == csv.rows[..i];
        var checked := CheckRow(row, entries);
        if checked.Failure? {
          RejectionIsFinal(csv.rows, i + 1);
          return Fail(checked.error);
        }
        entries := entries[checked.value.0 := checked.value.1];
        i := i + 1;
      }
      assert csv.rows[..i] == csv.rows;
      return Pass;
    }
  }
}
