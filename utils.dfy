/** banking/utils.py: the canonical column and category enumerations and
    the month-end date arithmetic. */
module BankingUtils {

  import opened Wrappers
  import opened Dates

  // ---------------------------------------------------------------------------
  // TransactionColumns: the canonical output columns, in declaration order
  // ---------------------------------------------------------------------------

  datatype TransactionColumn =
    DATE | CHECK_NO | AMOUNT | DESCRIPTION | BANK | ACCOUNT | CATEGORY | POSTED_BALANCE

  /** The member's `.name`. */
  function ColumnName(c: TransactionColumn): string
  {
    match c
    case DATE => "DATE"
    case CHECK_NO => "CHECK_NO"
    case AMOUNT => "AMOUNT"
    case DESCRIPTION => "DESCRIPTION"
    case BANK => "BANK"
    case ACCOUNT => "ACCOUNT"
    case CATEGORY => "CATEGORY"
    case POSTED_BALANCE => "POSTED_BALANCE"
  }

  /** Iterating the enumeration visits the members in declaration order. */
  const Columns: seq<TransactionColumn> :=
    [DATE, CHECK_NO, AMOUNT, DESCRIPTION, BANK, ACCOUNT, CATEGORY, POSTED_BALANCE]

  /** `TransactionColumns.names()`. */
  function ColumnNames(): (r: seq<string>)
    ensures |r| == |Columns|
    ensures forall i :: 0 <= i < |r| ==> r[i] == ColumnName(Columns[i])
  {
    seq(|Columns|, i requires 0 <= i < |Columns| => ColumnName(Columns[i]))
  }

  /** Every member is listed and the names are pairwise distinct, as `@unique` demands. */
  lemma ColumnNamesComplete(c: TransactionColumn)
    ensures ColumnName(c) in ColumnNames()
    ensures forall i, j :: 0 <= i < j < |ColumnNames()| ==> ColumnNames()[i] != ColumnNames()[j]
  {
    var names := ColumnNames();
    assert names == ["DATE", "CHECK_NO", "AMOUNT", "DESCRIPTION", "BANK", "ACCOUNT",
                     "CATEGORY", "POSTED_BALANCE"];
    match c
    case DATE => assert names[0] == ColumnName(c);
    case CHECK_NO => assert names[1] == ColumnName(c);
    case AMOUNT => assert names[2] == ColumnName(c);
    case DESCRIPTION => assert names[3] == ColumnName(c);
    case BANK => assert names[4] == ColumnName(c);
    case ACCOUNT => assert names[5] == ColumnName(c);
    case CATEGORY => assert names[6] == ColumnName(c);
    case POSTED_BALANCE => assert names[7] == ColumnName(c);
  }

  // ---------------------------------------------------------------------------
  // TransactionCategories
  // ---------------------------------------------------------------------------

  datatype TransactionCategory =
    | UNKNOWN | SALARY | HOUSING | RETIREMENT | INVESTMENTS | MEDICAL | VEHICLES
    | COMMUNICATIONS | HOUSEHOLD | GROCERIES | RESTARAUNTS | TAXES | PERSONAL

  /** The value `auto()` gives each member: 1, 2, ... in declaration order. */
  function CategoryValue(c: TransactionCategory): (v: nat)
    ensures 1 <= v <= 13
    ensures v == 1 <==> c == UNKNOWN
  {
    match c
    case UNKNOWN => 1
    case SALARY => 2
    case HOUSING => 3
    case RETIREMENT => 4
    case INVESTMENTS => 5
    case MEDICAL => 6
    case VEHICLES => 7
    case COMMUNICATIONS => 8
    case HOUSEHOLD => 9
    case GROCERIES => 10
    case RESTARAUNTS => 11
    case TAXES => 12
    case PERSONAL => 13
  }

  /** `@unique`: no two members share a value. */
  lemma CategoryValuesUnique(a: TransactionCategory, b: TransactionCategory)
    ensures CategoryValue(a) == CategoryValue(b) ==> a == b
  {
  }

  // ---------------------------------------------------------------------------
  // last_day_of_month
  // ---------------------------------------------------------------------------

  /** `last_day_of_month(day)`: move to the 28th, add four days (which always
      lands early in the next month), then step back by that day-of-month.
      Python raises OverflowError when the addition passes year 9999. */
  function LastDayOfMonth(d: Date): Result<Date>
    requires IsValid(d)
  {
    var nextMonth := AddDays(Date(d.year, d.month, 28), 4);
    if nextMonth.year > MaxYear then Err(OverflowError)
    else Ok(SubDays(nextMonth, nextMonth.day))
  }

  /** The first day of the month after month m of year y. */
  function FollowingMonthStart(y: int, m: int): Date
  {
    if m == 12 then Date(y + 1, 1, 1) else Date(y, m + 1, 1)
  }

  /** The 28th plus four days is day 1 to 4 of the following month. */
  lemma NextMonthIsEarly(y: int, m: int)
    requires 1 <= m <= 12
    ensures var n := AddDays(Date(y, m, 28), 4);
            var f := FollowingMonthStart(y, m);
            n == Date(f.year, f.month, 32 - DaysInMonth(y, m)) && 1 <= n.day <= 4
  {
    var d0 := Date(y, m, 28);
    var d1 := NextDay(d0);
    var d2 := NextDay(d1);
    var d3 := NextDay(d2);
    var d4 := NextDay(d3);
    assert AddDays(d0, 4) == AddDays(d1, 3) == AddDays(d2, 2) == AddDays(d3, 1) == d4;
  }

  /** Stepping back k days from day k of a month reaches the last day of the previous month. */
  lemma {:induction false} BackToPreviousMonthEnd(y: int, m: int, k: int)
    requires 1 <= m <= 12 && 1 <= k <= DaysInMonth(y, m)
    ensures SubDays(Date(y, m, k), k) == PrevDay(Date(y, m, 1))
    decreases k
  {
    if k > 1 {
      assert PrevDay(Date(y, m, k)) == Date(y, m, k - 1);
      BackToPreviousMonthEnd(y, m, k - 1);
    }
  }

  /** The result is the last day of d's own month, never before d; only
      December of year 9999 overflows. */
  lemma LastDayOfMonthCorrect(d: Date)
    requires IsValid(d)
    ensures LastDayOfMonth(d).Err? <==> d.year == MaxYear && d.month == 12
    ensures LastDayOfMonth(d).Ok? ==>
              var r := LastDayOfMonth(d).value;
              r == Date(d.year, d.month, DaysInMonth(d.year, d.month)) && IsValid(r) && LessEq(d, r)
  {
    NextMonthIsEarly(d.year, d.month);
    var f := FollowingMonthStart(d.year, d.month);
    var k := 32 - DaysInMonth(d.year, d.month);
    BackToPreviousMonthEnd(f.year, f.month, k);
  }

  /** Taking the month end of a month end changes nothing. */
  lemma LastDayOfMonthIdempotent(d: Date)
    requires IsValid(d) && LastDayOfMonth(d).Ok?
    ensures IsValid(LastDayOfMonth(d).value)
    ensures LastDayOfMonth(LastDayOfMonth(d).value) == LastDayOfMonth(d)
  {
    LastDayOfMonthCorrect(d);
    LastDayOfMonthCorrect(LastDayOfMonth(d).value);
  }

  /** February has 29 days exactly in Gregorian leap years. */
  lemma FebruaryEnd(y: int)
    requires MinYear <= y <= MaxYear
    ensures LastDayOfMonth(Date(y, 2, 1)) == Ok(Date(y, 2, if IsLeapYear(y) then 29 else 28))
  {
    LastDayOfMonthCorrect(Date(y, 2, 1));
  }
}
