/** banking/bbt.py: the field converters of a BBT / Truist export and the
    BbtParser1 class facts (fields, column mapping, date gate, the column
    remap of `_transaction_history`). */
module Bbt {

  import opened Wrappers
  import opened Text
  import opened Decimals
  import opened Dates
  import opened DateFormats
  import opened BankingUtils
  import opened Frames
  import Parser

  // ---------------------------------------------------------------------------
  // _BbtConvert1
  // ---------------------------------------------------------------------------

  /** `convert_posted`. */
  predicate ConvertPosted(field: string) { field == "posted" }

  /** `convert_category`: no mapping yet, the text is kept. */
  function ConvertCategory(category: string): string { category }

  /** `convert_date` as written: `strptime(field, "%M/%d/%y")`, which reads
      the first field as minutes and wants a two-digit year. */
  function ConvertDate(field: string): Result<DateTime>
  {
    ParseMinuteDayShortYear(field)
  }

  /** Python's `s[start:-1]`: from `start` up to, not including, the last character. */
  function DropLast(s: string, start: nat): (r: string)
    ensures |s| > start ==> r == s[start..|s| - 1]
    ensures |s| <= start + 1 ==> r == ""
  {
    if |s| > start + 1 then s[start..|s| - 1] else ""
  }

  /** `convert_price`: "($X)" is the debit `-1 * Decimal(X)` and "$+X" the
      credit `+1 * Decimal(X)`; any other text gives None. The character
      after X is dropped unread, and the product is fitted to the default
      decimal context. Ok(None) is Python's None; Err(InvalidOperation) is
      what `Decimal` raises for a malformed X. */
  function ConvertPrice(price: string): Result<Option<Decimal>>
  {
    if StartsWith(price, "($") then
      match Parse(DropLast(price, 2))
      case None => Err(InvalidOperation)
      case Some(d) => SomeOf(TimesUnit(true, d))
    else if StartsWith(price, "$+") then
      match Parse(price[2..])
      case None => Err(InvalidOperation)
      case Some(d) => SomeOf(TimesUnit(false, d))
    else Ok(None)
  }

  function SomeOf(r: Result<Decimal>): Result<Option<Decimal>>
  {
    match r case Err(e) => Err(e) case Ok(d) => Ok(Some(d))
  }

  const UInt32Limit: nat := 0x1_0000_0000

  /** `convert_check`: an absent or empty field is None; a digit string is its
      value as `np.uint32`, OverflowError past 2^32 - 1; other text is a
      ValueError. */
  function ConvertCheck(check: Option<string>): (r: Result<Option<nat>>)
    ensures r.Ok? && r.value.Some? ==> r.value.value < UInt32Limit
  {
    match check
    case None => Ok(None)
    case Some(s) =>
      if s == "" then Ok(None)
      else if !AllDigits(s) then Err(ValueError)
      else if DigitsValue(s) < UInt32Limit then Ok(Some(DigitsValue(s)))
      else Err(OverflowError)
  }

  // ---------------------------------------------------------------------------
  // Converter properties
  // ---------------------------------------------------------------------------

  /** The category converter changes nothing. */
  lemma ConvertCategoryIdentity(c: string)
    ensures ConvertCategory(c) == c
  {
  }

  /** "$+X" is `+1 * Decimal(X)` fitted to the context, for a literal X. */
  lemma CreditOf(x: string)
    ensures ConvertPrice("$+" + x)
            == match Parse(x) case None => Err(InvalidOperation) case Some(d) => SomeOf(Fix(d))
  {
    var s := "$+" + x;
    assert s[0] == '$';
    assert s[2..] == x;
  }

  /** "($X" and one closing character is `-1 * Decimal(X)` fitted to the context. */
  lemma DebitOf(x: string, close: char)
    ensures ConvertPrice("($" + x + [close])
            == match Parse(x) case None => Err(InvalidOperation) case Some(d) => SomeOf(Fix(Neg(d)))
  {
    var s := "($" + x + [close];
    assert s[..2] == "($";
    assert DropLast(s, 2) == x;
  }

  /** "$+" followed by a plain literal of at most 28 digits gives that
      literal back. */
  lemma ConvertPriceCredit(d: Decimal)
    requires 0 <= d.units < Pow10(Precision) && d.scale <= -ETiny
    ensures ConvertPrice("$+" + Format(d)) == Ok(Some(d))
  {
    CreditOf(Format(d));
    ParseFormat(d);
    FixExact(d);
  }

  /** "($" followed by a plain literal of at most 28 digits and any one
      closing character gives the literal negated; the closing character is
      never looked at. */
  lemma ConvertPriceDebit(d: Decimal, close: char)
    requires 0 <= d.units < Pow10(Precision) && d.scale <= -ETiny
    ensures ConvertPrice("($" + Format(d) + [close]) == Ok(Some(Neg(d)))
  {
    DebitOf(Format(d), close);
    ParseFormat(d);
    FixExact(Neg(d));
  }

  /** A whole credit of 29 digits keeps 28 of them: the last is rounded
      half-even into the units, e.g. "$+" and 29 ones. */
  lemma ConvertPriceCreditWide(u: nat)
    requires Pow10(Precision) <= u < Pow10(Precision + 1)
    ensures ConvertPrice("$+" + Format(Decimal(u, 0))) == Ok(Some(Decimal(RoundHalfEven(u, 1) * 10, 0)))
    ensures ConvertPrice("$+" + Format(Decimal(11111111111111111111111111111, 0)))
            == Ok(Some(Decimal(11111111111111111111111111110, 0)))
  {
    CreditOf(Format(Decimal(u, 0)));
    ParseFormat(Decimal(u, 0));
    FixOneDigitOver(u);
    var w := Decimal(11111111111111111111111111111, 0);
    CreditOf(Format(w));
    ParseFormat(w);
    PrecisionLimit();
    assert Pow10(Precision + 1) == 10 * Pow10(Precision);
    FixOneDigitOver(w.units);
  }

  /** The credit and the debit of one amount fail together, and otherwise
      cancel out; a literal of at most EMax digits always converts. */
  lemma CreditDebitCancel(d: Decimal)
    requires d.units >= 0
    ensures ConvertPrice("$+" + Format(d)).Ok? <==> ConvertPrice("($" + Format(d) + ")").Ok?
    ensures |NatDigits(d.units)| <= EMax ==> ConvertPrice("$+" + Format(d)).Ok?
    ensures ConvertPrice("$+" + Format(d)).Ok? ==>
            ConvertPrice("$+" + Format(d)).value.Some? && ConvertPrice("($" + Format(d) + ")").value.Some?
            && Value(ConvertPrice("$+" + Format(d)).value.value)
               + Value(ConvertPrice("($" + Format(d) + ")").value.value) == 0.0
  {
    var c, b := ConvertPrice("$+" + Format(d)), ConvertPrice("($" + Format(d) + ")");
    CreditOf(Format(d));
    DebitOf(Format(d), ')');
    assert "($" + Format(d) + ")" == "($" + Format(d) + [')'];
    ParseFormat(d);
    assert c == SomeOf(Fix(d)) && b == SomeOf(Fix(Neg(d)));
    FixNegCancels(d);
  }

  /** Text with neither prefix, the empty field included, gives None rather
      than an error, e.g. "+100" and "$9000". */
  lemma ConvertPriceRejects(s: string)
    requires !StartsWith(s, "($") && !StartsWith(s, "$+")
    ensures ConvertPrice(s) == Ok(None)
    ensures ConvertPrice("") == Ok(None)
    ensures ConvertPrice("+100") == Ok(None) && ConvertPrice("$9000") == Ok(None)
  {
    assert "+100"[..2] == "+1";
    assert "$9000"[..2] == "$9";
  }

  /** The sample credit: "$+1.23" is 1.23. */
  lemma ConvertPriceCreditSample()
    ensures ConvertPrice("$+1.23") == Ok(Some(Decimal(123, 2)))
  {
    var s := "$+1.23";
    assert !StartsWith(s, "($") by { assert s[0] == '$'; }
    assert StartsWith(s, "$+");
    assert s[2..] == "1" + "." + "23";
    ParseSample("1", "23", 123);
    FixSmall(Decimal(123, 2));
  }

  /** The sample debit: "($2.34)" is -2.34. */
  lemma ConvertPriceDebitSample()
    ensures ConvertPrice("($2.34)") == Ok(Some(Decimal(-234, 2)))
    ensures Value(Decimal(-234, 2)) == -2.34
  {
    var s := "($2.34)";
    assert StartsWith(s, "($");
    assert DropLast(s, 2) == "2" + "." + "34";
    ParseSample("2", "34", 234);
    FixSmall(Decimal(234, 2));
    assert Pow10(2) == 100;
  }

  /** The literal d.dd of a three-digit number n. */
  lemma ParseSample(whole: string, frac: string, n: nat)
    requires |whole| == 1 && |frac| == 2 && AllDigits(whole) && AllDigits(frac)
    requires n == 100 * DigitValue(whole[0]) + 10 * DigitValue(frac[0]) + DigitValue(frac[1])
    ensures Parse(whole + "." + frac) == Some(Decimal(n, 2))
  {
    ParseDotted(whole, frac);
    DigitsValueThree(whole + frac);
  }

  /** A missing check number is None; a number below 2^32 is read back from its digits. */
  lemma ConvertCheckRoundTrip(n: nat)
    requires n < UInt32Limit
    ensures ConvertCheck(None) == Ok(None) && ConvertCheck(Some("")) == Ok(None)
    ensures ConvertCheck(Some(NatDigits(n))) == Ok(Some(n))
  {
    NatDigitsValue(n);
  }

  /** The sample check number "9000". */
  lemma ConvertCheckSample()
    ensures ConvertCheck(Some("9000")) == Ok(Some(9000))
  {
    assert DigitsValue("9000") == 9000 by {
      assert "9000"[..3] == "900" && "900"[..2] == "90" && "90"[..1] == "9";
    }
  }

  /** As written, no MM/DD/YYYY date is accepted. */
  lemma ConvertDateAsWritten(d: Date)
    requires IsValid(d)
    ensures ConvertDate(FormatMonthDayYear(d)) == Err(ValueError)
  {
    ShortYearRejectsFourDigitYears(d);
  }

  /** As written, a two-digit-year text is read as a minute in January:
      "03/02/20" is 2 January 2020, 00:03. */
  lemma ConvertDateMinuteSample()
    ensures ConvertDate("03/02/20") == Ok(DateTime(Date(2020, 1, 2), 0, 3))
  {
    assert "03/02/20" == "03" + "/" + "02" + "/" + "20";
    ConvertDateMinuteOf("03", "02", "20", DateTime(Date(2020, 1, 2), 0, 3));
  }

  /** mm/dd/yy read as minute mm of January dd in a year of the 2000s. */
  lemma ConvertDateMinuteOf(mm: string, dd: string, yy: string, t: DateTime)
    requires |mm| == 2 && |dd| == 2 && |yy| == 2 && AllDigits(mm) && AllDigits(dd) && AllDigits(yy)
    requires t == DateTime(Date(2000 + 10 * DigitValue(yy[0]) + DigitValue(yy[1]), 1, 10 * DigitValue(dd[0]) + DigitValue(dd[1])),
                           0, 10 * DigitValue(mm[0]) + DigitValue(mm[1]))
    requires t.minute <= 59 && 1 <= t.date.day <= 31 && t.date.year <= 2068
    ensures ConvertDate(mm + "/" + dd + "/" + yy) == Ok(t)
  {
    assert '/' !in mm && '/' !in dd && '/' !in yy;
    SplitThree(mm, dd, yy, '/');
    DigitsValueTwo(mm);
    DigitsValueTwo(dd);
    DigitsValueTwo(yy);
  }

  // ---------------------------------------------------------------------------
  // BbtParser1
  // ---------------------------------------------------------------------------

  const MinStart: Date := Date(2019, 1, 1)

  /** The registry's view of BbtParser1. */
  const Class := Parser.ParserClass("BbtParser1", Parser.Named("bbt"), MinStart, true)

  /** `FIELD_NAMES`. */
  const FieldNames: seq<string> := ["Date", "Transaction Type", "Check Number", "Description", "Amount"]

  /** `FIELD_2_TRANSACTION`. */
  const Field2Transaction: Renaming := [
    ("Date", ColumnName(DATE)),
    ("Check Number", ColumnName(CHECK_NO)),
    ("Description", ColumnName(DESCRIPTION)),
    ("Amount", ColumnName(AMOUNT))]

  /** Every mapped field is one of the file's fields and maps to a canonical column name. */
  lemma FieldMappingFeasible()
    ensures forall i :: 0 <= i < |Field2Transaction| ==>
              Field2Transaction[i].0 in FieldNames && Field2Transaction[i].1 in ColumnNames()
  {
    ColumnNamesComplete(DATE);
    ColumnNamesComplete(CHECK_NO);
    ColumnNamesComplete(DESCRIPTION);
    ColumnNamesComplete(AMOUNT);
  }

  /** `is_date_valid`: transactions from 2019 on; the stop date is ignored. */
  lemma DateGate(start: Date, stop: Date)
    requires IsValid(start)
    ensures Parser.IsDateValid(Class, start, stop) <==> start.year >= 2019
  {
  }

  /** Each field's name after the rename. */
  lemma RenamedField(name: string)
    requires name in FieldNames
    ensures Renamed(Field2Transaction, name) ==
              if name == "Date" then "DATE"
              else if name == "Check Number" then "CHECK_NO"
              else if name == "Description" then "DESCRIPTION"
              else if name == "Amount" then "AMOUNT"
              else name
  {
    if name == "Transaction Type" {
      assert !IsKey(Field2Transaction, name) by {
        forall i | 0 <= i < |Field2Transaction| ensures Field2Transaction[i].0 != name {
        }
      }
    }
  }

  /** The columns `_transaction_history` leaves in the frame. */
  function HistoryColumns(cols: seq<Column>, nrows: nat): seq<Column>
  {
    AssignConstant(RenameColumns(cols, Field2Transaction), ColumnName(CATEGORY), Null, nrows)
  }

  /** On the columns read from the file, the remap renames the mapped fields
      in place, keeps every other column (such as "Transaction Type") and
      every value, and appends a CATEGORY column of None. */
  lemma HistoryColumnsShape(cols: seq<Column>, nrows: nat)
    requires Rectangular(cols, nrows)
    requires forall i :: 0 <= i < |cols| ==> cols[i].name in FieldNames
    ensures var r := HistoryColumns(cols, nrows);
            |r| == |cols| + 1
            && Rectangular(r, nrows)
            && (forall i :: 0 <= i < |cols| ==> r[i] == Column(Renamed(Field2Transaction, cols[i].name), cols[i].values))
            && (forall i :: 0 <= i < |cols| && cols[i].name == "Transaction Type" ==> r[i].name == "Transaction Type")
            && r[|cols|] == Column("CATEGORY", Repeat(Null, nrows))
  {
    forall i | 0 <= i < |cols| ensures Renamed(Field2Transaction, cols[i].name) != ColumnName(CATEGORY) {
      RenamedField(cols[i].name);
    }
    RenameThenAppend(cols, Field2Transaction, ColumnName(CATEGORY), Null, nrows);
    forall i | 0 <= i < |cols| && cols[i].name == "Transaction Type"
      ensures Renamed(Field2Transaction, cols[i].name) == "Transaction Type"
    {
      RenamedField(cols[i].name);
    }
  }

  /** `_transaction_history(frame)`, which updates the frame in place. */
  method TransactionHistory(frame: DataFrame)
    requires frame.Valid()
    modifies frame
    ensures frame.Valid() && frame.nrows == old(frame.nrows)
    ensures frame.columns == HistoryColumns(old(frame.columns), frame.nrows)
  {
    frame.Rename(Field2Transaction);
    frame.Assign(ColumnName(CATEGORY), Null);
  }
}
