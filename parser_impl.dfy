/** test/unit/test_parser.py: the minimal concrete parser `ParserImpl`, its
    two converters, and the contract its tests fix for `remap_cols` and
    `parse`, whose implementations are not part of this model. */
module ParserImplTest {

  import opened Wrappers
  import opened Text
  import opened Decimals
  import opened Dates
  import opened DateFormats
  import opened BankingUtils
  import opened Frames
  import Parser
  import Bbt
  import ParserFactory

  // ---------------------------------------------------------------------------
  // Converters
  // ---------------------------------------------------------------------------

  // `_convert_amount` follows the very rules of BBT's `convert_price`, so the
  // model uses Bbt.ConvertPrice for it; `_convert_date` is strptime with
  // "%m/%d/%Y", DateFormats.ParseMonthDayYear.

  /** "$+X" with X a plain digit string of value below 10^28 is the credit X. */
  lemma AmountWhole(digits: string)
    requires AllDigits(digits) && |digits| >= 1 && DigitsValue(digits) < Pow10(Precision)
    ensures Bbt.ConvertPrice("$+" + digits) == Ok(Some(Decimal(DigitsValue(digits), 0)))
  {
    Bbt.CreditOf(digits);
    ParseUndotted(digits);
    FixExact(Decimal(DigitsValue(digits), 0));
  }

  /** "($X)" with X a plain digit string of value below 10^28 is the debit -X. */
  lemma AmountWholeDebit(digits: string)
    requires AllDigits(digits) && |digits| >= 1 && DigitsValue(digits) < Pow10(Precision)
    ensures Bbt.ConvertPrice("($" + digits + ")") == Ok(Some(Neg(Decimal(DigitsValue(digits), 0))))
  {
    Bbt.DebitOf(digits, ')');
    assert "($" + digits + ")" == "($" + digits + [')'];
    ParseUndotted(digits);
    FixExact(Neg(Decimal(DigitsValue(digits), 0)));
  }

  /** The first sample amount, "$+1000". */
  lemma AmountSampleOne()
    ensures Bbt.ConvertPrice("$+1000") == Ok(Some(Decimal(1000, 0)))
  {
    assert "$+1000" == "$+" + "1000";
    assert AllDigits("1000") && DigitsValue("1000") == 1000 < Pow10(Precision) by {
      DigitsValueFour("1000");
      PrecisionLimit();
    }
    AmountWhole("1000");
  }

  /** The second sample amount, "($42)". */
  lemma AmountSampleTwo()
    ensures Bbt.ConvertPrice("($42)") == Ok(Some(Decimal(-42, 0)))
  {
    assert "($42)" == "($" + "42" + ")";
    assert AllDigits("42") && DigitsValue("42") == 42 < Pow10(Precision) by {
      DigitsValueTwo("42");
      PrecisionLimit();
    }
    AmountWholeDebit("42");
  }

  /** The third sample amount, "$+3.50". */
  lemma AmountSampleThree()
    ensures Bbt.ConvertPrice("$+3.50") == Ok(Some(Decimal(350, 2)))
  {
    var s := "$+3.50";
    assert !StartsWith(s, "($") by { assert s[0] == '$'; }
    assert StartsWith(s, "$+");
    assert s[2..] == "3" + "." + "50";
    Bbt.ParseSample("3", "50", 350);
    FixSmall(Decimal(350, 2));
  }

  /** The fourth sample amount, "($3.50)". */
  lemma AmountSampleFour()
    ensures Bbt.ConvertPrice("($3.50)") == Ok(Some(Decimal(-350, 2)))
  {
    var s := "($3.50)";
    assert StartsWith(s, "($");
    assert Bbt.DropLast(s, 2) == "3" + "." + "50";
    Bbt.ParseSample("3", "50", 350);
    FixSmall(Decimal(350, 2));
  }

  /** The total of an amount column. */
  function Total(amounts: seq<Decimal>): real
  {
    if amounts == [] then 0.0 else Total(amounts[..|amounts| - 1]) + Value(amounts[|amounts| - 1])
  }

  /** The four sample amounts, as AmountSampleOne to AmountSampleFour convert
      them, total 1000 - 42: the two 3.50 cancel. */
  lemma AmountSamplesSum()
    ensures Total([Decimal(1000, 0), Decimal(-42, 0), Decimal(350, 2), Decimal(-350, 2)]) == 958.0
  {
    var a := [Decimal(1000, 0), Decimal(-42, 0), Decimal(350, 2), Decimal(-350, 2)];
    assert Pow10(0) == 1 && Pow10(2) == 100;
    assert a[..1][..0] == [];
    assert Total(a[..1]) == 1000.0;
    assert a[..2][..1] == a[..1];
    assert Total(a[..2]) == 958.0;
    assert a[..3][..2] == a[..2];
    assert Total(a[..3]) == 961.5;
    assert a[..3] == a[..|a| - 1];
  }

  /** A date written MM/DD/YYYY with its fields' values. */
  lemma DateSample(m: string, d: string, y: string, date: Date)
    requires |m| == 2 && |d| == 2 && |y| == 4 && AllDigits(m) && AllDigits(d) && AllDigits(y)
    requires date == Date(1000 * DigitValue(y[0]) + 100 * DigitValue(y[1]) + 10 * DigitValue(y[2]) + DigitValue(y[3]),
                          10 * DigitValue(m[0]) + DigitValue(m[1]),
                          10 * DigitValue(d[0]) + DigitValue(d[1]))
    requires IsValid(date)
    ensures ParseMonthDayYear(m + "/" + d + "/" + y) == Ok(date)
  {
    assert '/' !in m && '/' !in d && '/' !in y;
    SplitThree(m, d, y, '/');
    DigitsValueTwo(m);
    DigitsValueTwo(d);
    DigitsValueFour(y);
  }

  /** The first sample date. */
  lemma DateSampleOne()
    ensures ParseMonthDayYear("01/01/2020") == Ok(Date(2020, 1, 1))
  {
    assert "01/01/2020" == "01" + "/" + "01" + "/" + "2020";
    DateSample("01", "01", "2020", Date(2020, 1, 1));
  }

  /** The second sample date. */
  lemma DateSampleTwo()
    ensures ParseMonthDayYear("01/02/2020") == Ok(Date(2020, 1, 2))
  {
    assert "01/02/2020" == "01" + "/" + "02" + "/" + "2020";
    DateSample("01", "02", "2020", Date(2020, 1, 2));
  }

  /** The third sample date. */
  lemma DateSampleThree()
    ensures ParseMonthDayYear("02/01/2020") == Ok(Date(2020, 2, 1))
  {
    assert "02/01/2020" == "02" + "/" + "01" + "/" + "2020";
    DateSample("02", "01", "2020", Date(2020, 2, 1));
  }

  /** The fourth sample date. */
  lemma DateSampleFour()
    ensures ParseMonthDayYear("02/03/2020") == Ok(Date(2020, 2, 3))
  {
    assert "02/03/2020" == "02" + "/" + "03" + "/" + "2020";
    DateSample("02", "03", "2020", Date(2020, 2, 3));
  }

  // ---------------------------------------------------------------------------
  // ParserImpl's constants
  // ---------------------------------------------------------------------------

  const Institution: string := "Totally Legit Bank"
  const Account: nat := 8888
  const FilePrefixPart: string := "Acct_"
  const FilePrefix: string := FilePrefixPart + NatDigits(Account)
  const MinStart: Date := Date(1970, 1, 1)

  /** `_FIELD_2_TRANSACTION`, whose values are the `.name` of DATE,
      DESCRIPTION and AMOUNT (FieldMappingCanonical). */
  const Field2Transaction: Renaming := [("date", "DATE"), ("note", "DESCRIPTION"), ("amount", "AMOUNT")]

  /** The registry's view of ParserImpl: its `__init__` is the base class's,
      which refuses a missing file. */
  const Class := Parser.ParserClass("ParserImpl", Parser.Named(Institution), MinStart, true)

  /** `FILE_PREFIX`: `str(8888)` is "8888". */
  lemma FilePrefixValue()
    ensures FilePrefix == "Acct_8888"
  {
    assert NatDigits(8) == "8";
    assert NatDigits(88) == NatDigits(8) + "8";
    assert NatDigits(888) == NatDigits(88) + "8";
    assert NatDigits(8888) == NatDigits(888) + "8";
  }

  /** `field_names()`: the keys of `_FIELD_2_TRANSACTION`, in order. */
  function FieldNames(): (r: seq<string>)
    ensures |r| == |Field2Transaction|
    ensures forall n :: n in r <==> IsKey(Field2Transaction, n)
  {
    var r := seq(|Field2Transaction|, i requires 0 <= i < |Field2Transaction| => Field2Transaction[i].0);
    assert forall i :: 0 <= i < |r| ==> r[i] == Field2Transaction[i].0;
    r
  }

  /** The header names are those of the dictionary, not the unused
      `_FIELD_NAMES` list, whose order differs. */
  lemma FieldNamesValue()
    ensures FieldNames() == ["date", "note", "amount"]
    ensures FieldNames() != ["date", "amount", "note"]
    ensures Join(FieldNames(), ',') == "date,note,amount"
  {
    var f := FieldNames();
    assert f[0] == "date" && f[1] == "note" && f[2] == "amount";
    assert f == ["date", "note", "amount"];
    JoinThree("date", "note", "amount", ',');
  }

  lemma FieldMappingCanonical()
    ensures Field2Transaction == [("date", ColumnName(DATE)), ("note", ColumnName(DESCRIPTION)),
                                  ("amount", ColumnName(AMOUNT))]
  {
  }

  /** Each header name's canonical column. */
  lemma RenamedFields()
    ensures Renamed(Field2Transaction, "date") == "DATE"
    ensures Renamed(Field2Transaction, "note") == "DESCRIPTION"
    ensures Renamed(Field2Transaction, "amount") == "AMOUNT"
  {
    assert DistinctKeys(Field2Transaction);
    RenamedItem(Field2Transaction, 0);
    RenamedItem(Field2Transaction, 1);
    RenamedItem(Field2Transaction, 2);
  }

  /** `is_date_valid`: any start from 1970 on; the stop date is ignored. */
  lemma DateGate(start: Date, stop: Date)
    requires IsValid(start)
    ensures Parser.IsDateValid(Class, start, stop) <==> start.year >= 1970
  {
  }

  // ---------------------------------------------------------------------------
  // _check_filename, check_header, is_file_parsable
  // ---------------------------------------------------------------------------

  /** `_check_filename`: FILE_PREFIX occurs in the base name. */
  predicate CheckFilename(filepath: string)
  {
    Contains(Basename(filepath), FilePrefix)
  }

  /** A base name holding "Acct_8888" anywhere is accepted, whatever the directory. */
  lemma CheckFilenameAccepts(dir: string, before: string, after: string)
    requires '/' !in before && '/' !in after
    ensures CheckFilename(dir + "/" + (before + "Acct_8888" + after))
  {
    FilePrefixValue();
    var name := before + FilePrefix + after;
    assert '/' !in name;
    BasenameOfJoin(dir, name);
    ContainsInfix(before, FilePrefix, after);
  }

  /** A base name without the letter 'A' cannot hold the prefix; a temporary
      file named "invalid_prefix" plus lower-case random characters is one. */
  lemma CheckFilenameRejects(filepath: string)
    requires 'A' !in Basename(filepath)
    ensures !CheckFilename(filepath)
  {
    FilePrefixValue();
    if CheckFilename(filepath) {
      ContainsHasChars(Basename(filepath), FilePrefix, 0);
    }
  }

  lemma CheckFilenameInvalidPrefix(dir: string, random: string)
    requires '/' !in random && 'A' !in random
    ensures !CheckFilename(dir + "/" + ("invalid_prefix" + random))
  {
    var name := "invalid_prefix" + random;
    assert '/' !in name;
    BasenameOfJoin(dir, name);
    assert 'A' !in name;
    CheckFilenameRejects(dir + "/" + name);
  }

  /** ParserImpl's `check_header`: a negative row is a ValueError before any
      header is looked at; otherwise the base class's check. */
  function CheckHeader(file: Parser.FileContents, header: Option<string>, row: int, delim: char): Result<bool>
  {
    if row < 0 then Err(ValueError)
    else Parser.CheckHeader(FieldNames(), file, header, row, delim)
  }

  /** The row is checked first: even a missing file gives ValueError for
      a negative row, and an explicit header never reads the file. */
  lemma CheckHeaderRowFirst(file: Parser.FileContents, other: Parser.FileContents,
                            header: Option<string>, row: int, delim: char)
    ensures row < 0 ==> CheckHeader(file, header, row, delim) == Err(ValueError)
    ensures row >= 0 && header.Some? ==>
              CheckHeader(file, header, row, delim) == CheckHeader(other, header, row, delim)
  {
  }

  /** The comma-join of the field names is an accepted header. */
  lemma CheckHeaderOwnFields(file: Parser.FileContents, row: int)
    requires row >= 0
    ensures CheckHeader(file, Some("date,note,amount"), row, ',') == Ok(true)
  {
    FieldNamesValue();
    var f := FieldNames();
    assert forall i :: 0 <= i < |f| ==> ',' !in f[i];
    Parser.CheckHeaderExplicit(f, f, file, row, ',');
  }

  /** A first line without the letter 'm' cannot hold "amount" and is refused. */
  lemma CheckHeaderWithoutAmount(line: string, rest: seq<string>)
    requires 'm' !in line
    ensures CheckHeader(Some([line] + rest), None, 0, ',') == Ok(false)
  {
    Parser.CheckHeaderFromFile(FieldNames(), line, rest, ',');
    FieldNamesValue();
    if Contains(line, "amount") {
      ContainsHasChars(line, "amount", 1);
    }
    assert !Contains(line, FieldNames()[2]);
  }

  /** The line "this,is,the,wrong,header" read from a file is refused. */
  lemma CheckHeaderWrongHeader(rest: seq<string>)
    ensures CheckHeader(Some(["this,is,the,wrong,header"] + rest), None, 0, ',') == Ok(false)
  {
    CheckHeaderWithoutAmount("this,is,the,wrong,header", rest);
  }

  /** The first '\n'-separated line of `beginning`, when one is given. */
  function FirstLine(beginning: Option<string>): Option<string>
  {
    match beginning
    case None => None
    case Some(b) => Some(Split(b, '\n')[0])
  }

  /** ParserImpl's `is_file_parsable`: a missing file raises, a refused
      filename is False, and the header is the first line of `beginning`. */
  function IsFileParsable(file: Parser.FileContents, filepath: string, beginning: Option<string>): Result<bool>
  {
    if file.None? then Err(FileNotFoundError)
    else if !CheckFilename(filepath) then Ok(false)
    else CheckHeader(file, FirstLine(beginning), 0, ',')
  }

  /** Only the first line of `beginning` matters. */
  lemma IsFileParsableFirstLine(file: Parser.FileContents, filepath: string, first: string, rest: string)
    requires '\n' !in first
    ensures IsFileParsable(file, filepath, Some(first + "\n" + rest))
            == IsFileParsable(file, filepath, Some(first))
  {
    SplitCons(first, '\n', rest);
    SplitNone(first, '\n');
  }

  /** ParserImpl agrees with the base class's `is_file_parsable` when no
      beginning is given. */
  lemma IsFileParsableAsBase(file: Parser.FileContents, filepath: string)
    ensures IsFileParsable(file, filepath, None)
            == Parser.IsFileParsable(FieldNames(), file, CheckFilename(filepath), None)
  {
  }

  /** A file whose name holds the prefix and whose first line is the
      comma-join of the field names is parsable. */
  lemma IsFileParsableGoodFile(dir: string, before: string, after: string, rest: seq<string>)
    requires '/' !in before && '/' !in after
    ensures IsFileParsable(Some([Join(FieldNames(), ',')] + rest), dir + "/" + (before + "Acct_8888" + after), None)
            == Ok(true)
  {
    CheckFilenameAccepts(dir, before, after);
    var line := Join(FieldNames(), ',');
    Parser.CheckHeaderFromFile(FieldNames(), line, rest, ',');
    forall k | 0 <= k < |FieldNames()| ensures Contains(line, FieldNames()[k]) {
      JoinContainsParts(FieldNames(), ',', k);
    }
  }

  /** A file whose base name has no 'A' is refused before its header is read. */
  lemma IsFileParsableBadFilename(file: Parser.FileContents, filepath: string, beginning: Option<string>)
    requires file.Some? && 'A' !in Basename(filepath)
    ensures IsFileParsable(file, filepath, beginning) == Ok(false)
  {
    CheckFilenameRejects(filepath);
  }

  // ---------------------------------------------------------------------------
  // remap_cols and parse, as their tests fix them
  // ---------------------------------------------------------------------------

  /** `remap_cols(frame)` for the dictionary `m`: the columns are renamed in
      place, and each canonical column still missing is appended, all None. */
  function RemapCols(m: Renaming, cols: seq<Column>, nrows: nat): seq<Column>
  {
    var renamed := RenameColumns(cols, m);
    renamed + MissingColumns(renamed, ColumnNames(), nrows)
  }

  /** Each input column keeps its place and values under its canonical name,
      every canonical column is present afterwards, and the frame stays
      rectangular. */
  lemma RemapColsCorrect(m: Renaming, cols: seq<Column>, nrows: nat)
    requires Rectangular(cols, nrows)
    ensures |RemapCols(m, cols, nrows)| >= |cols|
    ensures Rectangular(RemapCols(m, cols, nrows), nrows)
    ensures forall i :: 0 <= i < |cols| ==>
              RemapCols(m, cols, nrows)[i] == Column(Renamed(m, cols[i].name), cols[i].values)
    ensures forall k :: 0 <= k < |ColumnNames()| ==> HasColumn(RemapCols(m, cols, nrows), ColumnNames()[k])
    ensures forall i :: |cols| <= i < |RemapCols(m, cols, nrows)| ==>
              RemapCols(m, cols, nrows)[i].values == Repeat(Null, nrows)
              && RemapCols(m, cols, nrows)[i].name in ColumnNames()
  {
    var renamed := RenameColumns(cols, m);
    var missing := MissingColumns(renamed, ColumnNames(), nrows);
    var r := renamed + missing;
    assert RemapCols(m, cols, nrows) == r;
    MissingColumnsComplete(renamed, ColumnNames(), nrows);
    forall i | |cols| <= i < |r| ensures r[i] == missing[i - |cols|] { }
  }

  /** The frame of test_remap_cols, one column per dictionary key in key
      order: zipping the keys with the mapped columns pairs each input column
      with an equal column under the key's new name. */
  lemma RemapColsZip(m: Renaming, cols: seq<Column>, nrows: nat)
    requires DistinctKeys(m) && Rectangular(cols, nrows)
    requires |cols| == |m|
    requires forall i :: 0 <= i < |cols| ==> cols[i].name == m[i].0
    ensures |RemapCols(m, cols, nrows)| >= |cols|
    ensures forall i :: 0 <= i < |cols| ==> RemapCols(m, cols, nrows)[i] == Column(m[i].1, cols[i].values)
  {
    RemapColsCorrect(m, cols, nrows);
    forall i | 0 <= i < |cols| ensures Renamed(m, cols[i].name) == m[i].1 {
      RenamedItem(m, i);
    }
  }

  /** ParserImpl's dictionary has distinct keys, so RemapColsZip applies to it. */
  lemma Field2TransactionKeys()
    ensures DistinctKeys(Field2Transaction)
  {
  }

  /** Every header name has a column. */
  predicate HasFields(cols: seq<Column>)
  {
    forall k :: 0 <= k < |FieldNames()| ==> HasColumn(cols, FieldNames()[k])
  }

  /** `parse()` on the columns read from the file: ValueError when a header
      name has no column; otherwise the remapped columns with BANK set to
      INSTITUTION and ACCOUNT to 8888 on every row. */
  function Parse(cols: seq<Column>, nrows: nat): Result<seq<Column>>
  {
    if HasFields(cols) then
      var remapped := RemapCols(Field2Transaction, cols, nrows);
      var banked := AssignConstant(remapped, ColumnName(BANK), Str(Institution), nrows);
      Ok(AssignConstant(banked, ColumnName(ACCOUNT), Count(Account), nrows))
    else Err(ValueError)
  }

  /** The columns of the file "this,is,the,wrong,header" make `parse` fail. */
  lemma ParseRejectsWrongHeader(nrows: nat)
    ensures Parse([Column("this", Repeat(Null, nrows)), Column("is", Repeat(Null, nrows)),
                   Column("the", Repeat(Null, nrows)), Column("wrong", Repeat(Null, nrows)),
                   Column("header", Repeat(Null, nrows))], nrows) == Err(ValueError)
  {
    var cols := [Column("this", Repeat(Null, nrows)), Column("is", Repeat(Null, nrows)),
                 Column("the", Repeat(Null, nrows)), Column("wrong", Repeat(Null, nrows)),
                 Column("header", Repeat(Null, nrows))];
    FieldNamesValue();
    assert !HasColumn(cols, FieldNames()[0]);
  }

  /** The BANK and ACCOUNT assignments of `parse`: both columns hold their
      constant on every row, every other column is kept, and so is every
      column name. */
  lemma FillConstants(c0: seq<Column>, nrows: nat)
    requires Rectangular(c0, nrows)
    requires forall k :: 0 <= k < |ColumnNames()| ==> HasColumn(c0, ColumnNames()[k])
    ensures var r := AssignConstant(AssignConstant(c0, ColumnName(BANK), Str(Institution), nrows), ColumnName(ACCOUNT), Count(Account), nrows);
            Rectangular(r, nrows)
            && (forall k :: 0 <= k < |ColumnNames()| ==> HasColumn(r, ColumnNames()[k]))
            && (forall i :: 0 <= i < |r| && r[i].name == "BANK" ==> r[i].values == Repeat(Str(Institution), nrows))
            && (forall i :: 0 <= i < |r| && r[i].name == "ACCOUNT" ==> r[i].values == Repeat(Count(8888), nrows))
            && (forall i :: 0 <= i < |c0| && c0[i].name != "BANK" && c0[i].name != "ACCOUNT" ==> r[i] == c0[i])
  {
    assert ColumnName(BANK) == "BANK" && ColumnName(ACCOUNT) == "ACCOUNT";
    var banked := AssignConstant(c0, ColumnName(BANK), Str(Institution), nrows);
    var r := AssignConstant(banked, ColumnName(ACCOUNT), Count(Account), nrows);
    AssignPreservesShape(c0, ColumnName(BANK), Str(Institution), nrows);
    AssignPreservesShape(banked, ColumnName(ACCOUNT), Count(Account), nrows);
    forall k | 0 <= k < |ColumnNames()| ensures HasColumn(r, ColumnNames()[k]) {
      AssignKeepsColumn(c0, ColumnName(BANK), Str(Institution), nrows, ColumnNames()[k]);
      AssignKeepsColumn(banked, ColumnName(ACCOUNT), Count(Account), nrows, ColumnNames()[k]);
    }
    forall i | 0 <= i < |r| && r[i].name == "BANK" ensures r[i].values == Repeat(Str(Institution), nrows) {
      assert i < |banked| && banked[i].name == "BANK";
    }
  }

  /** A parsed frame holds every canonical column, BANK is INSTITUTION and
      ACCOUNT is 8888 in every row, and AMOUNT carries the file's amounts. */
  lemma ParseFills(cols: seq<Column>, nrows: nat)
    requires Rectangular(cols, nrows)
    requires Parse(cols, nrows).Ok?
    ensures var r := Parse(cols, nrows).value;
            Rectangular(r, nrows)
            && (forall k :: 0 <= k < |ColumnNames()| ==> HasColumn(r, ColumnNames()[k]))
            && (forall i :: 0 <= i < |r| && r[i].name == "BANK" ==> r[i].values == Repeat(Str(Institution), nrows))
            && (forall i :: 0 <= i < |r| && r[i].name == "ACCOUNT" ==> r[i].values == Repeat(Count(8888), nrows))
            && (forall i :: 0 <= i < |cols| && cols[i].name == "amount" ==> r[i] == Column("AMOUNT", cols[i].values))
  {
    var remapped := RemapCols(Field2Transaction, cols, nrows);
    RemapColsCorrect(Field2Transaction, cols, nrows);
    FillConstants(remapped, nrows);
    RenamedFields();
  }

  /** The columns of an empty `TransactionHistory()`, named after the
      enumeration of banking/transaction.py, which has no BANK or ACCOUNT. */
  const HistoryColumns: seq<string> := ["DATE", "AMOUNT", "DESCRIPTION", "CATEGORY", "CHECK_NO"]

  /** `parse()` as ParserImpl writes it: `super().parse()`, which is the base
      class's `return TransactionHistory()`, an empty frame whatever the
      file holds. */
  function ParseAsWritten(cols: seq<Column>, nrows: nat): Result<seq<Column>>
  {
    Ok(seq(|HistoryColumns|, i requires 0 <= i < |HistoryColumns| => Column(HistoryColumns[i], [])))
  }

  /** As written, `parse` never fails and never looks at the file: every
      frame gives the same history, with no rows and no BANK or ACCOUNT
      column to fill. */
  lemma ParseAsWrittenIgnoresFile(cols: seq<Column>, nrows: nat)
    ensures ParseAsWritten(cols, nrows).Ok?
    ensures ParseAsWritten(cols, nrows) == ParseAsWritten([], 0)
    ensures Rectangular(ParseAsWritten(cols, nrows).value, 0)
    ensures !HasColumn(ParseAsWritten(cols, nrows).value, "BANK")
            && !HasColumn(ParseAsWritten(cols, nrows).value, "ACCOUNT")
  {
    var r := ParseAsWritten(cols, nrows).value;
    forall i | 0 <= i < |r| ensures r[i].name != "BANK" && r[i].name != "ACCOUNT" {
      assert r[i].name == HistoryColumns[i];
    }
  }

  /** As written, the file "this,is,the,wrong,header" parses, where the test
      and the modelled Parse expect ValueError. */
  lemma ParseAsWrittenAcceptsWrongHeader(nrows: nat)
    ensures var cols := [Column("this", Repeat(Null, nrows)), Column("is", Repeat(Null, nrows)),
                         Column("the", Repeat(Null, nrows)), Column("wrong", Repeat(Null, nrows)),
                         Column("header", Repeat(Null, nrows))];
            ParseAsWritten(cols, nrows).Ok? && Parse(cols, nrows) == Err(ValueError)
  {
    ParseRejectsWrongHeader(nrows);
  }

  // ---------------------------------------------------------------------------
  // ParserImpl and the factory
  // ---------------------------------------------------------------------------

  /** The factory looks banks up by their lower-cased name, so it never
      selects ParserImpl, whose institution starts with a capital. */
  lemma FactoryNeverSelects(registry: seq<Parser.ParserClass>, m: map<Parser.InstitutionKey, seq<Parser.ParserClass>>,
                            filepath: string, file: Parser.FileContents, toDate: string -> Option<Date>)
    requires ParserFactory.Serves(m, registry)
    requires ParserFactory.Select(m, filepath, file, toDate).Ok?
    requires ParserFactory.Select(m, filepath, file, toDate).value.Some?
    ensures ParserFactory.Select(m, filepath, file, toDate).value.value.parser.institution != Class.institution
  {
    var inst := ParserFactory.Select(m, filepath, file, toDate).value.value.parser.institution;
    if inst.Named? && |inst.name| > 0 {
      ParserFactory.SelectNeverUpperCase(registry, m, filepath, file, toDate, 0);
    }
  }
}
