# banking — a Dafny model of the bank-export normaliser

`banking` reads transaction-history exports from several banks and turns them into
one common table of transactions. This project models the part of it that decides
how a file is read:

- **field converters.** The BBT (`banking/bbt.py`) and USAA (`banking/usaa.py`)
  parsers turn one raw text field into a typed value: a posted flag, a date, a
  category, a signed amount or a check number.
- **USAA line parser.** `_parse_line` turns a line's fields into a dict of typed
  values, using a table of (column, key, converter) entries.
- **BBT column remap.** `_transaction_history` renames BBT's columns to the common
  names and adds a category column.
- **`Parser` base class** (`banking/parser.py`):
  - the registry of subclasses `__init_subclass__` keeps;
  - the file-existence test in `__init__`;
  - the bounded read of the first lines (`yield_header`);
  - `check_header`: every expected field name must appear in the header line;
  - `is_file_parsable`.
- **`ParserFactory`** (`banking/parser_factory.py`):
  - splits a file name `<bank>_<account>_<date0>-<date1>.<ext>` into its keys;
  - groups the registered parsers by institution;
  - picks the one parser valid for the file's dates.
- **utilities** (`banking/utils.py`): the common column names, the category
  codes and `last_day_of_month`.
- **`ParserImpl`** (`test/unit/test_parser.py`): the test suite's concrete parser,
  with the contract its tests assert for `remap_cols` and `parse`.

## Modules

| module | file | content |
|---|---|---|
| `Wrappers` | `wrappers.dfy` | `Option`; `Result`; the Python exceptions the code raises, as `PyError` |
| `Text` | `text.dfy` | `str` operations on `seq<char>`: digits, `split`/`join`, `startswith`, substring `in`, `os.path.basename`, `os.path.splitext`, ASCII `lower` |
| `Decimals` | `decimals.dfy` | `decimal.Decimal` as units / 10^scale, with a constructor for plain literals and the default context's rounding of products |
| `Dates` | `dates.dfy` | proleptic Gregorian dates; `timedelta` day arithmetic |
| `DateFormats` | `date_formats.dfy` | the two `strptime` formats the parsers use |
| `Frames` | `frames.dfy` | a data frame as a sequence of named columns; `rename` and constant-column assignment, both as functions and as an in-place `DataFrame` class |
| `BankingUtils` | `utils.dfy` | `TransactionColumns`, `TransactionCategories`, `last_day_of_month` |
| `Parser` | `parser.dfy` | registry, instance creation, header reading and checking |
| `Bbt` | `bbt.dfy` | BBT converters and column remap |
| `Usaa` | `usaa.dfy` | USAA converters and `_parse_line` |
| `ParserFactory` | `parser_factory.dfy` | file-name keys, grouping, filtering, `from_file` |
| `ParserImplTest` | `parser_impl.dfy` | `ParserImpl` and its asserted behaviour |

### How the model stands in for Python

**Exceptions.** An exception is an `Err` value of the `Result` type.

**Files.** A file is its contents:
- `None` when `os.path.isfile` is false;
- otherwise the list of lines `readlines()` returns.

**Registry.** The registry of `Parser` subclasses is a sequence of class
descriptions, each with:
- its name;
- what its `INSTITUTION` attribute reads;
- the first start date `is_date_valid` accepts;
- whether its constructor is the base one, which tests that the file exists.

**Dates from file names.** `from_file` compares the two date strings of a file
name with each parser's date range. It gets the strings into dates through a
caller-supplied `toDate` conversion.

## Model

| member | source | states |
|---|---|---|
| Bbt.ConvertCategoryIdentity | banking/bbt.py:35-36 | the category passes through unchanged |
| Bbt.ConvertPriceCredit | banking/bbt.py:39-47 | `$+<literal>` reads as the literal's positive amount when the literal has at most 28 significant digits and at most 1000026 decimals, so that `+1 * Decimal(...)` needs no rounding |
| Bbt.ConvertPriceCreditWide | banking/bbt.py:45-47 | a whole credit of 29 digits is rounded half-even to 28 significant digits, e.g. 29 ones become 28 ones followed by a 0 |
| Bbt.ConvertPriceDebit | banking/bbt.py:39-44 | `($<literal>` followed by any closing character reads as the negated amount, for a literal that `-1 * Decimal(...)` need not round (at most 28 significant digits) |
| Bbt.CreditDebitCancel | banking/bbt.py:39-47 | the credit and the debit of the same literal either both raise decimal.Overflow or both give amounts, and those sum to zero, rounding included; a literal of at most 999999 digits always converts |
| Bbt.ConvertPriceRejects | banking/bbt.py:48-51 | any field that starts with neither "($" nor "$+" gives no amount (None): the empty field, one-character fields, "+100" and "$9000" |
| Bbt.ConvertPriceCreditSample | test/unit/test_bbt.py:38 | "$+1.23" is 1.23 |
| Bbt.ConvertPriceDebitSample | test/unit/test_bbt.py:44 | "($2.34)" is -2.34 |
| Bbt.ConvertCheck | banking/bbt.py:54-60 | a converted check number is below 2^32, the numpy.uint32 range |
| Bbt.ConvertCheckRoundTrip | banking/bbt.py:54-60 | a missing or empty check field is None; the decimal spelling of any n < 2^32 reads back as n |
| Bbt.ConvertCheckSample | test/unit/test_bbt.py:68 | "9000" is check 9000 |
| Bbt.ConvertDateAsWritten | banking/bbt.py:31-32 | with format "%M/%d/%y", no valid date written as mm/dd/yyyy is accepted: every one raises ValueError |
| Bbt.ConvertDateMinuteOf | banking/bbt.py:31-32 | "%M/%d/%y" reads the first field as minutes, the second as the day of January, the third as a two-digit year in 2000-2068 |
| Bbt.ConvertDateMinuteSample | banking/bbt.py:31-32 | "03/02/20" is 2020-01-02 00:03, not 2020-03-02 |
| Bbt.FieldMappingFeasible | banking/bbt.py:69-79 | every source field of FIELD_2_TRANSACTION is one of FIELD_NAMES, and each target is a common column name |
| Bbt.DateGate | banking/bbt.py:82-91 | BbtParser1 accepts a range exactly when it starts in 2019 or later |
| Bbt.RenamedField | banking/bbt.py:69-79 | each BBT field name renames to its FIELD_2_TRANSACTION target |
| Bbt.HistoryColumnsShape | banking/bbt.py:103-108 | after the remap, the columns keep their values under their renamed names, and an all-null CATEGORY column follows |
| Bbt.TransactionHistory | banking/bbt.py:103-108 | renaming the columns and adding CATEGORY in place leaves the frame equal to the remapped columns, and it stays rectangular |
| Usaa.ConvertPriceAsWritten | banking/usaa.py:36-41 | as written, "--x" and "-x" both read as +x: the sign is lost |
| Usaa.ConvertPriceAsWrittenRaises | banking/usaa.py:42-44 | as written, a field without a leading '-' raises ValueError |
| Usaa.ConvertPriceIntendedCorrect | banking/usaa.py:36-41 | corrected: "--x" is the credit x, "-x" the debit -x, and the two cancel |
| Usaa.ConvertPriceIntendedNone | banking/usaa.py:42-44 | corrected: a field without a leading '-' gives no amount |
| Usaa.ConvertDateAsWritten | banking/usaa.py:28-29 | as written, `datetime.datetime(str, fmt)` raises TypeError for every field |
| Usaa.ParseLine | banking/usaa.py:82-95 | the loop over FIELD_TYPES returns what the field table computes: either the first error met, or the map from each key to its converted field |
| Usaa.FieldsReadOnlyListed | banking/usaa.py:82-95 | the result depends only on the columns that the field table lists |
| Usaa.ColumnsOneAndThreeUnread | banking/usaa.py:53-57 | columns 1 and 3 of a line never affect it |
| Usaa.FieldsAsWrittenFail | banking/usaa.py:28-29 | with the as-written converters and `update` read as `fields[key] = val`, every line fails: IndexError when it has at most two fields, TypeError otherwise |
| Usaa.FieldsIntendedCorrect | banking/usaa.py:82-95 | corrected: a line of at least seven fields parses exactly when its date and its price convert; the result has the five keys of FIELD_TYPES, each holding its converted field |
| Usaa.FieldsShortLine | banking/usaa.py:82-95 | a line too short for a listed column fails |
| Usaa.UpdateFinding | banking/usaa.py:94 | as written, `fields.update(key, value)` raises TypeError on the first field; the corrected map holds the flag |
| Usaa.DateGate | banking/usaa.py:63-72 | UsaaParser accepts a range exactly when it starts in 2019 or later |
| Parser.NewSession | banking/parser.py:35-48 | instantiating gives a session for the class and path; FileNotFoundError exactly when the base constructor runs on a path that is not a file |
| Parser.NameIndex | banking/parser.py:27-33 | the position of the first registered class with a name, or the end of the registry |
| Parser.RegisteredLookup | banking/parser.py:27-33 | after registering c, names stay unique; c's name finds c, and every other name finds what it found before |
| Parser.RegisteredShape | banking/parser.py:27-33 | registering a new name appends it; registering a known name replaces it at its position |
| Parser.Registry.constructor | banking/parser.py:27 | the registry starts empty |
| Parser.Registry.InitSubclass | banking/parser.py:29-33 | `__init_subclass__` updates the registry to its registered form |
| Parser.HeaderCount | banking/parser.py:123-141 | the lines read are at most the file's lines, and at least one when the file has any |
| Parser.HeaderLinesBound | banking/parser.py:123-141 | a missing file gives FileNotFoundError; otherwise the lines yielded are a prefix of the file, max(1, rows + 2) of them unless the file is shorter, since the loop breaks only after yielding line rows + 1 |
| Parser.YieldHeader | banking/parser.py:123-141 | the reading loop returns exactly those lines |
| Parser.PyIndex | banking/parser.py:94 | Python list indexing: IndexError outside [-n, n), and element i for 0 <= i < n |
| Parser.CheckHeaderExplicit | banking/parser.py:80-99 | for a header given as delimiter-joined fields, the header test passes exactly when every expected name is one of the fields |
| Parser.CheckHeaderOrderIrrelevant | banking/parser.py:80-99 | two headers with the same set of fields give the same verdict |
| Parser.CheckHeaderNoNames | banking/parser.py:80-99 | with no expected names, the header test never fails |
| Parser.CheckHeaderFromFile | banking/parser.py:93-94 | with no header given, row 0 of the file is checked by substring occurrence |
| Parser.CheckHeaderSubstringVersusField | banking/parser.py:80-99 | the two ways a header is supplied disagree: "date" matches the file line "update" but not the header "update" |
| Parser.IsFileParsableOrder | banking/parser.py:101-121 | a missing file raises FileNotFoundError; a refused filename gives False; otherwise the verdict is the header check |
| ParserFactory.ParseDate | banking/parser_factory.py:61-74 | a failure is a ValueError |
| ParserFactory.ParseDateOneDash | banking/parser_factory.py:68-74 | the date field splits exactly when it holds one '-' |
| ParserFactory.ParseDateRoundTrip | banking/parser_factory.py:61-74 | "d0-d1" gives back (d0, d1) |
| ParserFactory.ParsePath | banking/parser_factory.py:104-122 | a failure is a ValueError |
| ParserFactory.ParsePathTwoUnderscores | banking/parser_factory.py:104-122 | a path parses exactly when its stem holds two '_' |
| ParserFactory.StemOf | banking/parser_factory.py:111-112 | basename and splitext give back the stem of dir/stem.ext |
| ParserFactory.SplitFields | banking/parser_factory.py:113 | "bank_account_date" splits into its three fields |
| ParserFactory.ParsePathRoundTrip | banking/parser_factory.py:104-122 | "dir/bank_account_date.ext" gives back (bank, account, date) |
| ParserFactory.NameToKeysRoundTrip | banking/parser_factory.py:90-102 | "dir/bank_account_d0-d1.ext" gives back the four keys |
| ParserFactory.ValidParsers | banking/parser_factory.py:127 | the valid parsers are exactly the candidates whose date test accepts the range |
| ParserFactory.FilterParsersCorrect | banking/parser_factory.py:124-138 | a parser is chosen exactly when one candidate is valid; the choice is that candidate; with no valid candidate, None |
| ParserFactory.FilterParsersAmbiguous | banking/parser_factory.py:128-137 | two distinct valid candidates give None |
| ParserFactory.ParsersOf | banking/parser_factory.py:76-88 | the group of an institution holds exactly the registered classes with that institution |
| ParserFactory.HasInstitutionAppend | banking/parser_factory.py:83-87 | an institution is present after appending p exactly when it was before or p has it |
| ParserFactory.AddParserGroups | banking/parser_factory.py:83-87 | adding one class to the dict keeps it the grouping of the longer registry |
| ParserFactory.MapParsers | banking/parser_factory.py:76-88 | the loop builds the grouping of the registry: a key per institution met except "none", each listing its classes in registry order |
| ParserFactory.SelectUnknownBank | banking/parser_factory.py:27-37 | a bank with no group gives None, and the defaultdict gains an empty entry for it |
| ParserFactory.GroupingServes | banking/parser_factory.py:76-88 | the dict `_map_parsers` builds serves the registry: each grouped institution holds its classes, and no other key holds any |
| ParserFactory.TouchedByKeysServes | banking/parser_factory.py:31 | the defaultdict lookup of `from_file` keeps the dict serving the registry |
| ParserFactory.TouchedByKeysKeepsSelect | banking/parser_factory.py:31-37 | the empty group a lookup adds changes no later selection |
| ParserFactory.TouchedKeepsSelect | banking/parser_factory.py:27-37 | a `from_file` on one path leaves the outcome of `from_file` on any path unchanged |
| ParserFactory.SelectSound | banking/parser_factory.py:27-37 | on any dict that serves the registry, fresh or after lookups, a chosen parser is a registered class of the lower-cased bank, and it is the one valid for the file's dates |
| ParserFactory.SelectNeverUpperCase | banking/parser_factory.py:31 | on any dict that serves the registry, a class whose institution holds an upper-case letter is never chosen |
| ParserFactory.ParserFactory.constructor | banking/parser_factory.py:18-25 | the factory starts with the grouping of the registry, which serves it |
| ParserFactory.ParserFactory.FromFile | banking/parser_factory.py:27-37 | returns the selection for the path, updates the dict as the defaultdict lookup does, and keeps it serving the registry, so every later call is covered by SelectSound |
| ParserFactory.ParserFactory.FromKeys | banking/parser_factory.py:31-37 | the same, once the file name has given its keys |
| ParserFactory.ParserFactory.ParserNames | banking/parser_factory.py:49-59 | the same keys, each mapped to a one-element list of its class names |
| BankingUtils.ColumnNames | banking/utils.py:47-62 | the column names in declaration order |
| BankingUtils.ColumnNamesComplete | banking/utils.py:47-62 | every column has its name in the list, and the names are distinct |
| BankingUtils.CategoryValue | banking/utils.py:65-80 | the codes lie in 1..13, and 1 is UNKNOWN alone |
| BankingUtils.CategoryValuesUnique | banking/utils.py:65-80 | distinct categories have distinct codes |
| BankingUtils.NextMonthIsEarly | banking/utils.py:43 | day 28 plus four days lands in the next month, on day 1 to 4 |
| BankingUtils.LastDayOfMonthCorrect | banking/utils.py:36-44 | the result is the same month's last day; OverflowError exactly for December 9999 |
| BankingUtils.LastDayOfMonthIdempotent | banking/utils.py:36-44 | applying it to its own result changes nothing |
| BankingUtils.FebruaryEnd | banking/utils.py:36-44 | February ends on the 29th in leap years and the 28th otherwise |
| Text.Split | banking/parser_factory.py:69 | `str.split(c)` yields at least one piece, and no piece holds c |
| Text.SplitJoin | banking/parser_factory.py:113 | splitting the join of c-free pieces gives the pieces back |
| Text.JoinSplit | banking/parser_factory.py:113 | joining the split gives the string back |
| Text.SplitCount | banking/parser_factory.py:69 | the number of pieces is one more than the number of separators |
| Text.Basename | banking/parser_factory.py:111 | `os.path.basename` is the part after the last '/', or the whole path when it holds none |
| Text.BasenameOfJoin | banking/parser_factory.py:111 | the basename of dir/name is name |
| Text.Splitext | banking/parser_factory.py:112 | `os.path.splitext` cuts the path in two parts that concatenate back to it |
| Text.SplitextOfJoin | banking/parser_factory.py:112 | stem.ext splits into stem and .ext |
| Text.LowerHasNoUpper | banking/parser_factory.py:31 | `str.lower` leaves no ASCII capital |
| Text.NatDigitsValue | banking/bbt.py:54-60 | the decimal spelling of n is all digits, and its value is n |
| Decimals.ParseFormat | banking/bbt.py:39-47 | every non-negative decimal reads back exactly from its literal |
| Decimals.ParseMinus | banking/bbt.py:42-44 | a leading '-' negates whatever the rest denotes |
| Decimals.ParseRefusesDollar | banking/bbt.py:39-51 | a literal beginning with '$' is refused |
| Decimals.RoundHalfEvenNearest | banking/bbt.py:44-47 | ROUND_HALF_EVEN picks a nearest multiple of 10^k, and the even one in a tie |
| Decimals.FixExact | banking/bbt.py:44-47 | a product of at most 28 significant digits, with an exponent of at least Etiny, is left exactly as it is |
| Decimals.FixNeg | banking/bbt.py:44-47 | fitting to the context commutes with negation: rounding acts on the magnitude, and the sign is kept |
| Decimals.FixOneDigitOver | banking/bbt.py:44-47 | a 29-digit whole number loses its last digit to half-even rounding; a carry to 10^28 keeps the same value |
| Decimals.FixNegCancels | banking/bbt.py:44-47 | a number and its negation both fit or both overflow, to opposite values; at most Emax digits never overflow |
| Dates.NextDay | banking/utils.py:43-44 | the next day of a calendar day is a calendar day, later than it |
| Dates.AddDays | banking/utils.py:43 | adding days to a calendar day gives a calendar day no earlier than it |
| DateFormats.ParseFormatMonthDayYear | test/unit/test_bbt.py:62 | "%m/%d/%Y", the format the BBT and USAA date tests expect, reads back every valid date from its zero-padded spelling |
| DateFormats.ShortYearRejectsFourDigitYears | banking/bbt.py:31-32 | "%y" refuses a four-digit year |
| Frames.RenamedItem | test/unit/test_parser.py:296-315 | with distinct keys, the i-th key renames to its target |
| Frames.AssignConstant | banking/bbt.py:108 | assigning a constant column replaces a column of that name, or appends one, filled with the constant |
| Frames.MissingColumns | test/unit/test_parser.py:296-315 | the added columns are all-null and named by missing common columns |
| Frames.MissingColumnsComplete | test/unit/test_parser.py:296-315 | after adding them, every common column is present |
| Frames.RenameThenAppend | banking/bbt.py:103-108 | renaming and then adding a new column keeps every old column, renamed, and puts the constant last |
| Frames.DataFrame.Rename | banking/bbt.py:106 | `rename(columns=...)` in place renames every column |
| Frames.DataFrame.Assign | banking/bbt.py:108 | `frame[name] = v` in place assigns the constant column |
| ParserImplTest.AmountWhole | test/unit/test_parser.py:35-47 | "$+digits" is the positive whole amount when it has at most 28 digits, which the context need not round |
| ParserImplTest.AmountWholeDebit | test/unit/test_parser.py:35-47 | "(digits)" with a '$' is the negative whole amount when it has at most 28 digits |
| ParserImplTest.AmountSampleOne | test/unit/test_parser.py:28-32 | "$+1000" is 1000 |
| ParserImplTest.AmountSampleTwo | test/unit/test_parser.py:28-32 | "($42)" is -42 |
| ParserImplTest.AmountSampleThree | test/unit/test_parser.py:28-32 | "$+3.50" is 3.50 |
| ParserImplTest.AmountSampleFour | test/unit/test_parser.py:28-32 | "($3.50)" is -3.50 |
| ParserImplTest.AmountSamplesSum | test/unit/test_parser.py:274-279 | the fake amounts sum to 958 |
| ParserImplTest.DateSample | test/unit/test_parser.py:50-54 | "mm/dd/yyyy" reads as that date |
| ParserImplTest.DateSampleOne | test/unit/test_parser.py:282-293 | "01/01/2020" is 2020-01-01 |
| ParserImplTest.DateSampleTwo | test/unit/test_parser.py:282-293 | "01/02/2020" is 2020-01-02 |
| ParserImplTest.DateSampleThree | test/unit/test_parser.py:282-293 | "02/01/2020" is 2020-02-01 |
| ParserImplTest.DateSampleFour | test/unit/test_parser.py:282-293 | "02/03/2020" is 2020-02-03 |
| ParserImplTest.FilePrefixValue | test/unit/test_parser.py:71-73 | FILE_PREFIX is "Acct_8888" |
| ParserImplTest.FieldNames | test/unit/test_parser.py:75-79 | `field_names` lists exactly the keys of _FIELD_2_TRANSACTION, one per entry |
| ParserImplTest.FieldNamesValue | test/unit/test_parser.py:75-79 | the field names are date, note, amount in that order, and their header line is "date,note,amount" |
| ParserImplTest.FieldMappingCanonical | test/unit/test_parser.py:64-68 | date, note and amount map to DATE, DESCRIPTION and AMOUNT |
| ParserImplTest.RenamedFields | test/unit/test_parser.py:64-68 | renaming takes each field to that name |
| ParserImplTest.DateGate | test/unit/test_parser.py:87-91 | ParserImpl accepts a range exactly when it starts in 1970 or later |
| ParserImplTest.CheckFilenameAccepts | test/unit/test_parser.py:107-116 | a basename holding "Acct_8888" passes |
| ParserImplTest.CheckFilenameRejects | test/unit/test_parser.py:107-116 | a basename without an 'A' fails |
| ParserImplTest.CheckFilenameInvalidPrefix | test/unit/test_parser.py:248-252 | "invalid_prefix…" fails |
| ParserImplTest.CheckHeaderRowFirst | test/unit/test_parser.py:128-153 | a negative row raises ValueError before anything else; a given header does not depend on the file |
| ParserImplTest.CheckHeaderOwnFields | test/unit/test_parser.py:128-153 | its own header line passes |
| ParserImplTest.CheckHeaderWithoutAmount | test/unit/test_parser.py:128-153 | a first line without an 'm' fails, since "amount" cannot occur |
| ParserImplTest.CheckHeaderWrongHeader | test/unit/test_parser.py:239-245 | "this,is,the,wrong,header" fails |
| ParserImplTest.IsFileParsableFirstLine | test/unit/test_parser.py:155-179 | a given beginning is cut at its first newline before the base check |
| ParserImplTest.IsFileParsableAsBase | test/unit/test_parser.py:155-179 | without a beginning, it is the base check with the filename verdict |
| ParserImplTest.IsFileParsableGoodFile | test/unit/test_parser.py:255-260 | a file named with the prefix and starting with the header is parsable |
| ParserImplTest.IsFileParsableBadFilename | test/unit/test_parser.py:248-252 | an existing file with a refused name is not parsable |
| ParserImplTest.RemapColsCorrect | test/unit/test_parser.py:296-315 | the remap keeps every column, renamed, and its values; every common column is present; the added columns are all-null |
| ParserImplTest.RemapColsZip | test/unit/test_parser.py:296-315 | with the mapping's own fields, column i becomes target i with the same values |
| ParserImplTest.Field2TransactionKeys | test/unit/test_parser.py:64-68 | the mapping's keys are distinct |
| ParserImplTest.ParseRejectsWrongHeader | test/unit/test_parser.py:326-333 | a table with the wrong columns is refused with ValueError |
| ParserImplTest.FillConstants | test/unit/test_parser.py:336-347 | BANK and ACCOUNT are filled with the class's institution and account; every common column stays present |
| ParserImplTest.ParseFills | test/unit/test_parser.py:318-347 | a parsed table has every common column; BANK and ACCOUNT hold the constants on every row; the amount column becomes AMOUNT with its values |
| ParserImplTest.ParseAsWrittenIgnoresFile | test/unit/test_parser.py:93-96 | as written, `parse` returns the base class's empty `TransactionHistory()` for every file: no rows, and no BANK or ACCOUNT column |
| ParserImplTest.ParseAsWrittenAcceptsWrongHeader | test/unit/test_parser.py:93-96 | as written, the wrong-header file parses, where test_parse_reject expects ValueError |
| ParserImplTest.FactoryNeverSelects | test/unit/test_parser.py:62 | ParserImpl is never picked by the factory, fresh or after lookups, because its institution is upper-case |

## Left out

- Reading files into frames is not modelled: `pandas.read_csv`, `parse_textfile`, `_parse_textfile` and `BbtParser1.parse`. The model starts from columns that are already read.
- File-system access is modelled by its outcome only.
  - `os.path.isfile` becomes whether the contents are `None`.
  - A file is the list of lines `readlines` returns. The byte-size hint passed to `readlines` is not modelled.
- `ParserFactory.from_directory` is not modelled: it scans a directory.
- Logging is not modelled; it does not change any result.
- USAA's `float` is modelled as an exact decimal. The model does not capture binary rounding.
- Literal grammars are restricted.
  - `decimal.Decimal` and `float` accept only `[+|-] digits [. digits]`: no exponents, blanks, underscores, `inf` or `nan`.
  - The `+1 *` and `-1 *` products are fitted to `decimal.DefaultContext`: 28 digits, ROUND_HALF_EVEN, Emin -999999 and Emax 999999. The program is assumed never to change the context.
  - That fit does not keep a negative zero. A positive exponent is kept as trailing zeros of the units, so such a value is equal in value but spelled differently. The Inexact, Rounded, Subnormal and Clamped flags are not modelled.
  - `strptime` is modelled for the formats used (`%m/%d/%Y`, `%M/%d/%y`), with one- or two-digit fields. A `%y` year of 00-68 is in the 2000s and one of 69-99 in the 1900s. Other directives, and the blanks `strptime` allows, are not modelled.
- Text.Lower: folds ASCII capitals only, because Unicode case mapping is not modelled.
- `banking/parser_factory.py` as written cannot run. The model follows the evident intent.
  - Five names are never defined. The file imports only `logging` and `Parser` (lines 7-9), so these raise NameError:
    - `os`, at lines 43, 97, 98, 111 and 112;
    - `defaultdict`, at lines 56 and 83;
    - `_registry`, at line 84;
    - `institution`, at line 130;
    - `logger`, at lines 132 and 136.
  - `ParserFactory()` itself raises NameError at `defaultdict(list)` (line 83): `__init__` (line 22) calls `_map_parsers`. The model passes the registry to the constructor.
  - `_name_to_keys` (line 97), `_parse_path` (line 111) and `parser_names` (line 56) likewise raise NameError before computing anything. The model gives their evident results.
  - `_name_to_keys` calls `Parser.parse_date` (line 100), which `Parser` does not define. The model uses `ParserFactory.parse_date`.
  - An ambiguous selection would raise NameError before returning None. The model gives None.
- ParserFactory.Select: the filename's date strings reach `is_date_valid` through a caller-supplied `toDate`. As written they are passed as strings, and the comparison with a date raises.
- The base `Parser` has no `_check_filename`. `Parser.IsFileParsable` takes the subclass's filename verdict as an input. As written, `is_file_parsable` raises AttributeError for BbtParser1 and UsaaParser, since neither defines `_check_filename` (banking/bbt.py, banking/usaa.py). Only ParserImpl defines it.
- ParserImplTest.RemapCols, ParserImplTest.Parse, RemapColsCorrect, RemapColsZip, ParseRejectsWrongHeader, FillConstants and ParseFills: these model what the tests at `test/unit/test_parser.py:296-347` expect, not what the code does.
  - Neither `Parser` nor `ParserImpl` defines `remap_cols`, so `ParserImpl.remap_cols` at lines 302 and 312 raises AttributeError.
  - `ParserImpl.parse` (lines 93-96) returns `super().parse()`, the base class's empty `TransactionHistory()` (banking/parser.py:74-78), without reading the file. `Parser` has no ABCMeta, so this call runs. ParseAsWrittenIgnoresFile models it; see Findings.
- Parser.Registry follows `SUBCLASSES` (banking/parser.py:27, 33). `test/unit/test_parser.py` uses `ParserImpl.gen_implementations()` (line 211) and `Parser._SUBCLASSES` (lines 219-220), which `Parser` does not define. As written, test_subclass_gen and test_subclass_is_registered raise AttributeError.
- Bbt.ConvertCheck: accepts only a plain digit string. `np.uint32` also reads a sign, surrounding blanks and `_` separators, which the model refuses with ValueError. Out-of-range numbers give OverflowError, whereas numpy versions differ between raising and wrapping around.
- ParserImplTest.Total: stands for the pandas column sum. It adds the exact values.
- ParserImpl's class-level `_FIELD_NAMES` is left out: nothing reads it, because `field_names` is derived from `_FIELD_2_TRANSACTION`.
- `banking/google_sheets.py`, `banking/transaction.py` (beyond the column names of an empty `TransactionHistory()`), `banking/transactions.py`, `banking/test_utils.py` and the scripts are not part of this model.

## Findings

| source | as written | input that shows it | evidently intended | confidence | as-written member | corrected member |
|---|---|---|---|---|---|---|
| banking/usaa.py:38-41 | `float(price[2:])` and `float(price[1:])`: both branches give a positive amount | "-12.50" reads as 12.50 | "--x" is a credit x and "-x" a debit -x | not executed | Usaa.ConvertPriceAsWritten | Usaa.ConvertPriceIntendedCorrect |
| banking/usaa.py:42-44 | an unprefixed price raises ValueError | "12.50" | no amount, as BBT returns None; a prefixed body that is not a number, such as "-abc", "--" or "-", still raises ValueError from `float` in the corrected member | not executed | Usaa.ConvertPriceAsWrittenRaises | Usaa.ConvertPriceIntendedNone |
| banking/usaa.py:28-29 | `datetime.datetime(str(date_field), "%M/%D/%Y")` raises TypeError | any field, e.g. "01/02/2020" | `datetime.datetime.strptime(field, "%m/%d/%Y")` | not executed | Usaa.ConvertDateAsWritten | DateFormats.ParseFormatMonthDayYear |
| banking/bbt.py:31-32 | "%M/%d/%y" reads minutes and a two-digit year | "03/02/20" is 2020-01-02 00:03; "03/02/2020" raises ValueError | "%m/%d/%Y" | not executed | Bbt.ConvertDateAsWritten | DateFormats.ParseFormatMonthDayYear |
| banking/usaa.py:94 | `fields.update(key, value)` raises TypeError | any line with a posted column | `fields[key] = value` | not executed | Usaa.UpdateFinding | Usaa.FieldsIntendedCorrect |
| test/unit/test_parser.py:93-96 | `return super().parse()` gives the base class's empty `TransactionHistory()` | the file "this,is,the,wrong,header" parses without ValueError, and no file yields rows, BANK or ACCOUNT | the remapped frame with BANK and ACCOUNT filled, and ValueError on a wrong header, as test_parser.py:318-347 expects | not executed | ParserImplTest.ParseAsWrittenAcceptsWrongHeader | ParserImplTest.ParseFills |
