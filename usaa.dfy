/** banking/usaa.py: the converters of one USAA export line and
    UsaaParser's positional field table, applied by `_parse_line`. */
module Usaa {

  import opened Wrappers
  import opened Text
  import opened Decimals
  import opened Dates
  import opened DateFormats
  import opened Frames
  import Parser

  // ---------------------------------------------------------------------------
  // _Line
  // ---------------------------------------------------------------------------

  /** `convert_nothing`. */
  function ConvertNothing(field: string): string { field }

  /** `convert_posted`. */
  predicate ConvertPosted(field: string) { field == "posted" }

  /** `convert_category`: no mapping yet, the text is kept. */
  function ConvertCategory(category: string): string { category }

  /** `convert_date` as written calls `datetime.datetime(str, str)`, whose
      year and month must be integers: it raises TypeError for every field. */
  function ConvertDate(field: string): Result<Date>
  {
    Err(TypeError)
  }

  /** `float(s)`, exact: ValueError for text that is not a number. */
  function ParseFloat(s: string): Result<Decimal>
  {
    match Parse(s)
    case None => Err(ValueError)
    case Some(d) => Ok(d)
  }

  /** `convert_price` as written: "--X" and "-X" both give the value of X,
      and text without a leading '-' raises ValueError. */
  function ConvertPrice(price: string): Result<Decimal>
  {
    if StartsWith(price, "--") then ParseFloat(price[2..])
    else if StartsWith(price, "-") then ParseFloat(price[1..])
    else Err(ValueError)
  }

  /** `convert_price` as the tests expect it: "--X" is the credit X, "-X" the
      debit -X, and anything else is None. */
  function ConvertPriceIntended(price: string): Result<Option<Decimal>>
  {
    if StartsWith(price, "--") then
      match ParseFloat(price[2..]) case Err(e) => Err(e) case Ok(d) => Ok(Some(d))
    else if StartsWith(price, "-") then
      match ParseFloat(price[1..]) case Err(e) => Err(e) case Ok(d) => Ok(Some(Neg(d)))
    else Ok(None)
  }

  /** How the two prefixes see a literal that starts with a digit. */
  lemma DashPrefixes(f: string)
    requires |f| >= 1 && IsDigit(f[0])
    ensures StartsWith("--" + f, "--") && ("--" + f)[2..] == f
    ensures StartsWith("-" + f, "-") && !StartsWith("-" + f, "--") && ("-" + f)[1..] == f
  {
    var s := "-" + f;
    assert s[1] == f[0];
  }

  /** As written, a debit loses its sign: the tests' "-2.34" reads as +2.34. */
  lemma ConvertPriceAsWritten(d: Decimal)
    requires d.units >= 0
    ensures ConvertPrice("--" + Format(d)) == Ok(d)
    ensures ConvertPrice("-" + Format(d)) == Ok(d)
  {
    var f := Format(d);
    ParseFormat(d);
    assert ParseFloat(f) == Ok(d);
    DashPrefixes(f);
  }

  /** As written, text without a leading '-' raises: the tests' "100" is an error. */
  lemma ConvertPriceAsWrittenRaises(t: string)
    requires |t| == 0 || t[0] != '-'
    ensures ConvertPrice(t) == Err(ValueError)
  {
  }

  /** The intended converter: "--X" is X and "-X" is -X, so the two
      encodings of one amount cancel out. */
  lemma ConvertPriceIntendedCorrect(d: Decimal)
    requires d.units >= 0
    ensures ConvertPriceIntended("--" + Format(d)) == Ok(Some(d))
    ensures ConvertPriceIntended("-" + Format(d)) == Ok(Some(Neg(d)))
    ensures Value(d) + Value(Neg(d)) == 0.0
  {
    var f := Format(d);
    ParseFormat(d);
    assert ParseFloat(f) == Ok(d);
    DashPrefixes(f);
  }

  /** The intended converter gives None for text without a leading '-'. */
  lemma ConvertPriceIntendedNone(t: string)
    requires |t| == 0 || t[0] != '-'
    ensures ConvertPriceIntended(t) == Ok(None)
  {
  }

  /** The date converter as written never succeeds: `datetime.datetime`
      refuses a string for its year. */
  lemma ConvertDateAsWritten(field: string)
    ensures ConvertDate(field) == Err(TypeError)
  {
  }

  // ---------------------------------------------------------------------------
  // UsaaParser
  // ---------------------------------------------------------------------------

  /** The converter a FIELD_TYPES entry names, in its as-written and its
      intended form; the intended date converter is strptime with
      "%m/%d/%Y", the one the BBT parser is meant to use too. */
  datatype Converter =
    | PostedFlag | RawText | CategoryText
    | DateAsWritten | DateIntended
    | PriceAsWritten | PriceIntended

  /** `str2val(field)`, the result put in a cell. */
  function Apply(conv: Converter, field: string): Result<Cell>
  {
    match conv
    case PostedFlag => Ok(Flag(ConvertPosted(field)))
    case RawText => Ok(Str(ConvertNothing(field)))
    case CategoryText => Ok(Str(ConvertCategory(field)))
    case DateAsWritten =>
      (match ConvertDate(field) case Err(e) => Err(e) case Ok(d) => Ok(Day(d)))
    case DateIntended =>
      (match ParseMonthDayYear(field) case Err(e) => Err(e) case Ok(d) => Ok(Day(d)))
    case PriceAsWritten =>
      (match ConvertPrice(field) case Err(e) => Err(e) case Ok(d) => Ok(Money(d)))
    case PriceIntended =>
      (match ConvertPriceIntended(field)
       case Err(e) => Err(e)
       case Ok(None) => Ok(Null)
       case Ok(Some(d)) => Ok(Money(d)))
  }

  type FieldTable = seq<(nat, string, Converter)>

  /** `FIELD_TYPES`. */
  const FieldTypes: FieldTable := [
    (0, "posted", PostedFlag),
    (2, "date", DateAsWritten),
    (4, "description", RawText),
    (5, "category", CategoryText),
    (6, "price", PriceAsWritten)]

  /** `FIELD_TYPES` with the converters the tests describe. */
  const FieldTypesIntended: FieldTable := [
    (0, "posted", PostedFlag),
    (2, "date", DateIntended),
    (4, "description", RawText),
    (5, "category", CategoryText),
    (6, "price", PriceIntended)]

  /** The dict `_parse_line` builds from the first entries of a table: the
      entries are applied in order, `line[idx]` raising IndexError past the
      end and the first converter error propagating. */
  function Fields(table: FieldTable, line: seq<string>): Result<map<string, Cell>>
  {
    if table == [] then Ok(map[])
    else
      var last := table[|table| - 1];
      match Fields(table[..|table| - 1], line)
      case Err(e) => Err(e)
      case Ok(m) =>
        if last.0 < |line| then
          match Apply(last.2, line[last.0])
          case Err(e) => Err(e)
          case Ok(v) => Ok(m[last.1 := v])
        else Err(IndexError)
  }

  /** Once an entry fails, the whole table fails with that error. */
  lemma {:induction false} FieldsErrorPersists(table: FieldTable, line: seq<string>, i: nat)
    requires i <= |table| && Fields(table[..i], line).Err?
    ensures Fields(table, line) == Fields(table[..i], line)
    decreases |table| - i
  {
    if i < |table| {
      var t := table[..i + 1];
      assert t[..|t| - 1] == table[..i];
      FieldsErrorPersists(table, line, i + 1);
    } else {
      assert table[..i] == table;
    }
  }

  /** `_parse_line(line)`, with `fields[key] = val` for each entry. */
  method ParseLine(table: FieldTable, line: seq<string>) returns (r: Result<map<string, Cell>>)
    ensures r == Fields(table, line)
  {
    var fields: map<string, Cell> := map[];
    var i := 0;
    while i < |table|
      invariant 0 <= i <= |table|
      invariant Fields(table[..i], line) == Ok(fields)
    {
      var entry := table[i];
      var t := table[..i + 1];
      assert t[..|t| - 1] == table[..i] && t[|t| - 1] == entry;
      if entry.0 >= |line| {
        FieldsErrorPersists(table, line, i + 1);
        return Err(IndexError);
      }
      var v := Apply(entry.2, line[entry.0]);
      if v.Err? {
        FieldsErrorPersists(table, line, i + 1);
        return Err(v.error);
      }
      fields := fields[entry.1 := v.value];
      i := i + 1;
    }
    assert table[..|table|] == table;
    return Ok(fields);
  }

  /** Two lines that agree on every position the table reads give the same result. */
  lemma {:induction false} FieldsReadOnlyListed(table: FieldTable, l1: seq<string>, l2: seq<string>)
    requires forall k :: 0 <= k < |table| ==>
               (table[k].0 < |l1| <==> table[k].0 < |l2|)
               && (table[k].0 < |l1| ==> l1[table[k].0] == l2[table[k].0])
    ensures Fields(table, l1) == Fields(table, l2)
    decreases |table|
  {
    if table != [] {
      var front := table[..|table| - 1];
      assert forall k :: 0 <= k < |front| ==> front[k] == table[k];
      FieldsReadOnlyListed(front, l1, l2);
      assert table[|table| - 1] == table[|table| - 1];
    }
  }

  /** Columns 1 and 3 of a USAA line are never read. */
  lemma ColumnsOneAndThreeUnread(line: seq<string>, a: string, b: string)
    requires |line| >= 7
    ensures Fields(FieldTypes, line) == Fields(FieldTypes, line[1 := a][3 := b])
    ensures Fields(FieldTypesIntended, line) == Fields(FieldTypesIntended, line[1 := a][3 := b])
  {
    FieldsReadOnlyListed(FieldTypes, line, line[1 := a][3 := b]);
    FieldsReadOnlyListed(FieldTypesIntended, line, line[1 := a][3 := b]);
  }

  /** As written, no line converts: the date converter always raises
      TypeError, unless the line is too short to reach it. */
  lemma FieldsAsWrittenFail(line: seq<string>)
    ensures Fields(FieldTypes, line) == Err(if |line| <= 2 then IndexError else TypeError)
  {
    var t: FieldTable := FieldTypes;
    assert |t[..1][..0]| == 0;
    assert t[..2][..1] == t[..1];
    assert Fields(t[..1], line) == if |line| == 0 then Err(IndexError) else Ok(map["posted" := Flag(ConvertPosted(line[0]))]);
    assert Fields(t[..2], line) == Err(if |line| <= 2 then IndexError else TypeError);
    FieldsErrorPersists(t, line, 2);
  }

  /** With the intended converters a line converts exactly when it has at
      least seven fields, a valid date at position 2 and a readable amount at
      position 6; the result then holds exactly the five keys. */
  lemma FieldsIntendedCorrect(line: seq<string>)
    requires |line| >= 7
    ensures Fields(FieldTypesIntended, line).Ok? <==>
              ParseMonthDayYear(line[2]).Ok? && ConvertPriceIntended(line[6]).Ok?
    ensures Fields(FieldTypesIntended, line).Ok? ==>
              var m := Fields(FieldTypesIntended, line).value;
              m.Keys == {"posted", "date", "description", "category", "price"}
              && m["posted"] == Flag(line[0] == "posted")
              && m["date"] == Day(ParseMonthDayYear(line[2]).value)
              && m["description"] == Str(line[4])
              && m["category"] == Str(line[5])
              && Ok(m["price"]) == Apply(PriceIntended, line[6])
  {
    if ParseMonthDayYear(line[2]).Ok? {
      var m4 := FieldsIntendedPrefix(line);
      FieldsIntendedLast(line, m4);
    } else {
      FieldsIntendedBadDate(line);
    }
  }

  /** The first four entries of the intended table, once the date converts. */
  lemma FieldsIntendedPrefix(line: seq<string>) returns (m4: map<string, Cell>)
    requires |line| >= 7 && ParseMonthDayYear(line[2]).Ok?
    ensures Fields(FieldTypesIntended[..4], line) == Ok(m4)
    ensures m4.Keys == {"posted", "date", "description", "category"}
    ensures m4["posted"] == Flag(line[0] == "posted")
    ensures m4["date"] == Day(ParseMonthDayYear(line[2]).value)
    ensures m4["description"] == Str(line[4]) && m4["category"] == Str(line[5])
  {
    var t: FieldTable := FieldTypesIntended;
    assert t[..0] == [];
    var m1 := map["posted" := Flag(line[0] == "posted")];
    FieldsStep(t, line, 1, map[]);
    var m2 := m1["date" := Day(ParseMonthDayYear(line[2]).value)];
    FieldsStep(t, line, 2, m1);
    var m3 := m2["description" := Str(line[4])];
    FieldsStep(t, line, 3, m2);
    m4 := m3["category" := Str(line[5])];
    FieldsStep(t, line, 4, m3);
  }

  /** The price entry completes the intended table, or fails it. */
  lemma FieldsIntendedLast(line: seq<string>, m4: map<string, Cell>)
    requires |line| >= 7 && Fields(FieldTypesIntended[..4], line) == Ok(m4)
    ensures ConvertPriceIntended(line[6]).Err? ==> Fields(FieldTypesIntended, line).Err?
    ensures ConvertPriceIntended(line[6]).Ok? ==>
              Fields(FieldTypesIntended, line) == Ok(m4["price" := Apply(PriceIntended, line[6]).value])
  {
    var t: FieldTable := FieldTypesIntended;
    FieldsStep(t, line, 5, m4);
    assert t[..5] == t;
  }

  /** A date that does not convert fails the intended table. */
  lemma FieldsIntendedBadDate(line: seq<string>)
    requires |line| >= 7 && ParseMonthDayYear(line[2]).Err?
    ensures Fields(FieldTypesIntended, line).Err?
  {
    var t: FieldTable := FieldTypesIntended;
    assert t[..0] == [];
    FieldsStep(t, line, 1, map[]);
    FieldsStep(t, line, 2, map["posted" := Flag(line[0] == "posted")]);
    FieldsErrorPersists(t, line, 2);
  }

  /** The dict after one more entry, once the earlier entries have converted. */
  lemma FieldsStep(table: FieldTable, line: seq<string>, k: nat, m: map<string, Cell>)
    requires 0 < k <= |table| && Fields(table[..k - 1], line) == Ok(m)
    ensures var e := table[k - 1];
            Fields(table[..k], line) ==
              if e.0 >= |line| then Err(IndexError)
              else match Apply(e.2, line[e.0]) case Err(err) => Err(err) case Ok(v) => Ok(m[e.1 := v])
  {
    var t := table[..k];
    assert t[..|t| - 1] == table[..k - 1];
  }

  /** A line too short for position 6 raises IndexError whatever converts. */
  lemma FieldsShortLine(line: seq<string>)
    requires |line| < 7
    ensures Fields(FieldTypesIntended, line).Err?
  {
    var t: FieldTable := FieldTypesIntended;
    assert t[..5] == t;
    if Fields(t[..4], line).Err? {
      FieldsErrorPersists(t, line, 4);
    }
  }

  /** `fields.update(key, val)` exactly as written: `dict.update` takes one
      positional argument, so the first entry that converts raises TypeError. */
  function FieldsWithUpdate(table: FieldTable, line: seq<string>): Result<map<string, Cell>>
  {
    if table == [] then Ok(map[])
    else if table[0].0 >= |line| then Err(IndexError)
    else match Apply(table[0].2, line[table[0].0])
      case Err(e) => Err(e)
      case Ok(_) => Err(TypeError)
  }

  /** With `update` as written not even the posted flag is stored; with
      `fields[key] = val` the first entry's value is. */
  lemma UpdateFinding(line: seq<string>)
    requires |line| >= 1
    ensures FieldsWithUpdate(FieldTypesIntended, line) == Err(TypeError)
    ensures Fields(FieldTypesIntended[..1], line) == Ok(map["posted" := Flag(line[0] == "posted")])
  {
    assert |FieldTypesIntended[..1][..0]| == 0;
  }

  const MinStart: Date := Date(2019, 1, 1)

  /** The registry's view of UsaaParser: it sets `_INSTITUTION`, so its
      INSTITUTION is the base class's abstract property, and its constructor
      does nothing. */
  const Class := Parser.ParserClass("UsaaParser", Parser.AbstractProperty, MinStart, false)

  /** `is_date_valid`: transactions from 2019 on; the stop date is ignored. */
  lemma DateGate(start: Date, stop: Date)
    requires IsValid(start)
    ensures Parser.IsDateValid(Class, start, stop) <==> start.year >= 2019
  {
  }
}
