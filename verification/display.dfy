/** The page's handling of the records it reads back (public/script.js):
    month labels and the summary panel. */
module Display {
  import opened Results
  import opened Months
  import opened Records

  /** What `getMonthName` returns: a month name, or its argument unchanged. */
  datatype MonthLabel = Name(name: string) | Number(n: int)

  /** The capitalised names the page shows, January first. */
  const DisplayNames: seq<string> := [
    "January", "February", "March", "April", "May", "June",
    "July", "August", "September", "October", "November", "December"
  ]

  /** Lower-casing a capitalised name gives the server's spelling. */
  lemma {:induction false} LowerCapitalised(u: string, l: string)
    requires |u| == |l| > 0
    requires 'a' <= l[0] <= 'z' && u[0] as int == l[0] as int - 32
    requires u[1..] == l[1..]
    requires forall i :: 0 <= i < |l| ==> 'a' <= l[i] <= 'z'
    ensures Lower(u) == l
    ensures !IsIntegerLiteral(u)
  {
    assert Lower(u)[0] == l[0];
    forall i | 1 <= i < |u|
      ensures Lower(u)[i] == l[i]
    {
      assert u[i] == u[1..][i - 1];
    }
  }

  /** Half of DisplayNamesLower. The list is split in two only so that each
      proof stays small for the solver; the halves mean nothing apart. */
  lemma FirstHalfLower(k: int)
    requires 0 <= k < 6
    ensures Lower(DisplayNames[k]) == MonthNames[k]
    ensures !IsIntegerLiteral(DisplayNames[k])
    ensures |DisplayNames[k]| == |MonthNames[k]|
    ensures 'a' <= MonthNames[k][0] <= 'z' && DisplayNames[k][0] as int == MonthNames[k][0] as int - 32
    ensures DisplayNames[k][1..] == MonthNames[k][1..]
  {
    LowerCapitalised(DisplayNames[k], MonthNames[k]);
  }

  /** Half of DisplayNamesLower. The list is split in two only so that each
      proof stays small for the solver; the halves mean nothing apart. */
  lemma SecondHalfLower(k: int)
    requires 6 <= k < 12
    ensures Lower(DisplayNames[k]) == MonthNames[k]
    ensures !IsIntegerLiteral(DisplayNames[k])
    ensures |DisplayNames[k]| == |MonthNames[k]|
    ensures 'a' <= MonthNames[k][0] <= 'z' && DisplayNames[k][0] as int == MonthNames[k][0] as int - 32
    ensures DisplayNames[k][1..] == MonthNames[k][1..]
  {
    LowerCapitalised(DisplayNames[k], MonthNames[k]);
  }

  /** The page's list is the server's list, capitalised: each name is the
      server's name with its first letter in upper case. */
  lemma DisplayNamesLower(k: int)
    requires 0 <= k < 12
    ensures Lower(DisplayNames[k]) == MonthNames[k]
    ensures !IsIntegerLiteral(DisplayNames[k])
    ensures |DisplayNames[k]| == |MonthNames[k]|
    ensures 'a' <= MonthNames[k][0] <= 'z' && DisplayNames[k][0] as int == MonthNames[k][0] as int - 32
    ensures DisplayNames[k][1..] == MonthNames[k][1..]
  {
    if k < 6 { FirstHalfLower(k); } else { SecondHalfLower(k); }
  }

  /** `months[monthNumber - 1] || monthNumber`: a month 1..12 gets a name,
      any other number comes back as it is. */
  function GetMonthName(m: int): (l: MonthLabel)
    ensures l.Name? <==> 1 <= m <= 12
    ensures l.Number? ==> l == Number(m)
  {
    if 1 <= m <= 12 then Name(DisplayNames[m - 1]) else Number(m)
  }

  /** The name the page shows for a month is the server's name for it, up to
      letter case, and does not read as a number. */
  lemma MonthNameMatchesServer(m: int)
    requires 1 <= m <= 12
    ensures Lower(GetMonthName(m).name) == MonthNames[m - 1]
    ensures !IsIntegerLiteral(GetMonthName(m).name)
  {
    DisplayNamesLower(m - 1);
  }

  /** The server takes the name the page shows back to the same month. */
  lemma MonthNameRoundTrip(m: int)
    requires 1 <= m <= 12
    ensures Normalize(Text(GetMonthName(m).name)) == Success(m)
  {
    MonthNameMatchesServer(m);
    NameNormalizesIff(GetMonthName(m).name, m);
  }

  /** And the other way: a month name the server accepts is shown as the
      same name, up to letter case. */
  lemma NormalizedNameShownBack(s: string, k: int)
    requires !IsIntegerLiteral(s)
    requires Normalize(Text(s)) == Success(k)
    ensures GetMonthName(k).Name?
    ensures Lower(GetMonthName(k).name) == Lower(s)
  {
    NameNormalizesIff(s, k);
    MonthNameMatchesServer(k);
  }

  /** `parseFloat(row.amount) || 0`, in cents. */
  function AmountValue(a: Amount): int {
    match a
    case Cents(c) => c
    case NoNumber => 0
  }

  /** The sum of the amounts, first row first. */
  function Total(data: seq<Record>): int {
    if |data| == 0 then 0
    else Total(data[..|data| - 1]) + AmountValue(data[|data| - 1].amount)
  }

  /** Slice bookkeeping for CalculateSummary's loop, stated on its own so
      that the loop's proof stays small. */
  lemma TotalStep(data: seq<Record>, i: int)
    requires 0 <= i < |data|
    ensures Total(data[..i + 1]) == Total(data[..i]) + AmountValue(data[i].amount)
  {
    assert data[..i + 1][..i] == data[..i];
  }

  /** Slice bookkeeping for CalculateSummary's loop, stated on its own so
      that the loop's proof stays small. */
  lemma TotalOfAll(data: seq<Record>)
    ensures Total(data[..|data|]) == Total(data)
  {
    assert data[..|data|] == data;
  }

  datatype Summary = Summary(total: int, average: real, highestAmount: int, highestMonth: MonthLabel)

  /** Row i is the first to reach its amount: every earlier row is smaller. */
  predicate LeadsEarlierRows(data: seq<Record>, i: int)
    requires 0 <= i < |data|
  {
    forall j :: 0 <= j < i ==> AmountValue(data[j].amount) < AmountValue(data[i].amount)
  }

  /** The fold of `calculateSummary` (public/script.js:131-150): the total,
      the average (0 for no rows), and the highest amount with its month,
      where only a strictly greater amount replaces the running highest,
      which starts at 0 with month "". The ghost `at` is the row whose month
      is reported, or -1 when no amount is positive. */
  method CalculateSummary(data: seq<Record>) returns (s: Summary, ghost at: int)
    ensures s.total == Total(data)
    ensures |data| == 0 ==> s.average == 0.0
    ensures |data| > 0 ==> s.average == s.total as real / |data| as real
    ensures s.highestAmount >= 0
    ensures forall i :: 0 <= i < |data| ==> AmountValue(data[i].amount) <= s.highestAmount
    ensures s.highestAmount == 0 ==> at == -1 && s.highestMonth == Name("")
    ensures s.highestAmount > 0 ==>
      0 <= at < |data| && AmountValue(data[at].amount) == s.highestAmount
      && LeadsEarlierRows(data, at) && s.highestMonth == GetMonthName(data[at].month)
  {
    var total := 0;
    var highest := 0;
    var month := Name("");
    at := -1;
    var i := 0;
    while i < |data|
      invariant 0 <= i <= |data|
      invariant total == Total(data[..i])
      invariant highest >= 0
      invariant forall j :: 0 <= j < i ==> AmountValue(data[j].amount) <= highest
      invariant highest == 0 ==> at == -1 && month == Name("")
      invariant highest > 0 ==>
        0 <= at < i && AmountValue(data[at].amount) == highest
        && LeadsEarlierRows(data, at) && month == GetMonthName(data[at].month)
    {
      var amount := AmountValue(data[i].amount);
      TotalStep(data, i);
      total := total + amount;
      if amount > highest {
        highest := amount;
        month := GetMonthName(data[i].month);
        at := i;
      }
      i := i + 1;
    }
    TotalOfAll(data);
    var average := if |data| > 0 then total as real / |data| as real else 0.0;
    s := Summary(total, average, highest, month);
  }
}
