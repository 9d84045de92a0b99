/** The upload handler's month normalisation (routes/api.js:47-68): a cell
    that JavaScript's `isNaN` considers a number is taken as the month as it
    stands; anything else is lower-cased and looked up among the twelve
    English month names. */
module Months {
  import opened Results
  import opened Digits

  /** A worksheet's `Month` cell as the spreadsheet decoder hands it over. */
  datatype Token =
    | Num(n: int)        // a numeric cell
    | Text(s: string)    // a text cell
    | Missing            // no `Month` value in the row (`undefined`)

  datatype MonthError =
    | InvalidMonthName(token: string)   // `Invalid month name: <token>`
    | MissingMonth                      // `toLowerCase` of `undefined` throws

  /** The lower-case names the handler compares against, January first. */
  const MonthNames: seq<string> := [
    "january", "february", "march", "april", "may", "june",
    "july", "august", "september", "october", "november", "december"
  ]

  function LowerChar(c: char): char {
    if 'A' <= c <= 'Z' then (c as int + 32) as char else c
  }

  /** `toLowerCase`, on ASCII letters. */
  function Lower(s: string): (r: string)
    ensures |r| == |s|
    ensures forall i :: 0 <= i < |s| ==> r[i] == LowerChar(s[i])
  {
    if |s| == 0 then "" else [LowerChar(s[0])] + Lower(s[1..])
  }

  /** `Array.prototype.indexOf`: the first position holding x, or -1. */
  function IndexOf(xs: seq<string>, x: string): (i: int)
    ensures -1 <= i < |xs|
    ensures i == -1 <==> x !in xs
    ensures 0 <= i ==> xs[i] == x && forall j :: 0 <= j < i ==> xs[j] != x
  {
    if |xs| == 0 then -1
    else if xs[0] == x then 0
    else
      var k := IndexOf(xs[1..], x);
      if k == -1 then -1 else k + 1
  }

  /** A text `isNaN` reads as a number: an optionally signed decimal integer. */
  predicate IsIntegerLiteral(s: string) {
    if |s| > 0 && (s[0] == '+' || s[0] == '-') then |s| > 1 && AllDigits(s[1..])
    else |s| > 0 && AllDigits(s)
  }

  function IntegerValue(s: string): int
    requires IsIntegerLiteral(s)
  {
    if s[0] == '-' then -(DigitsValue(s[1..]) as int)
    else if s[0] == '+' then DigitsValue(s[1..])
    else DigitsValue(s)
  }

  /** The month a token stands for, or the error the handler throws.
      A numeric token is not range-checked: 0, 13 and -1 pass through. */
  function Normalize(t: Token): (r: Result<int, MonthError>)
    ensures t.Num? ==> r == Success(t.n)
    ensures t.Missing? ==> r == Failure(MissingMonth)
    ensures t.Text? && IsIntegerLiteral(t.s) ==> r.Success? && r.value == IntegerValue(t.s)
    ensures t.Text? && !IsIntegerLiteral(t.s) ==>
      && (r.Success? <==> Lower(t.s) in MonthNames)
      && (r.Success? ==> 1 <= r.value <= 12 && MonthNames[r.value - 1] == Lower(t.s))
      && (r.Failure? ==> r.error == InvalidMonthName(t.s))
  {
    match t
    case Num(n) => Success(n)
    case Missing => Failure(MissingMonth)
    case Text(s) =>
      if IsIntegerLiteral(s) then Success(IntegerValue(s))
      else
        var month := IndexOf(MonthNames, Lower(s)) + 1;
        if month == 0 then Failure(InvalidMonthName(s)) else Success(month)
  }

  /** No two month names are alike, so a name determines its month. */
  lemma MonthNamesDistinct(i: int, j: int)
    requires 0 <= i < 12 && 0 <= j < 12
    requires MonthNames[i] == MonthNames[j]
    ensures i == j
  {
  }

  /** A text that is not a number normalises to k exactly when it is, up to
      letter case, the k-th month name. */
  lemma NameNormalizesIff(s: string, k: int)
    requires !IsIntegerLiteral(s)
    ensures Normalize(Text(s)) == Success(k) <==> 1 <= k <= 12 && Lower(s) == MonthNames[k - 1]
  {
    if 1 <= k <= 12 && Lower(s) == MonthNames[k - 1] {
      NameGivesMonth(s, k);
    }
    if Normalize(Text(s)) == Success(k) {
      MonthHasName(s, k);
    }
  }

  lemma NameGivesMonth(s: string, k: int)
    requires !IsIntegerLiteral(s)
    requires 1 <= k <= 12 && Lower(s) == MonthNames[k - 1]
    ensures Normalize(Text(s)) == Success(k)
  {
    var r := Normalize(Text(s));
    assert Lower(s) in MonthNames;
    assert MonthNames[r.value - 1] == MonthNames[k - 1];
    MonthNamesDistinct(r.value - 1, k - 1);
  }

  lemma MonthHasName(s: string, k: int)
    requires !IsIntegerLiteral(s)
    requires Normalize(Text(s)) == Success(k)
    ensures 1 <= k <= 12 && Lower(s) == MonthNames[k - 1]
  {
  }

  lemma LowerPreservesIntegerLiteral(s: string)
    ensures IsIntegerLiteral(Lower(s)) <==> IsIntegerLiteral(s)
    ensures IsIntegerLiteral(s) ==> Lower(s) == s
  {
    var l := Lower(s);
    assert forall i :: 0 <= i < |s| ==> (IsDigit(l[i]) <==> IsDigit(s[i]));
    if |s| > 0 {
      assert l[1..] == Lower(s[1..]);
    }
  }

  /** Matching ignores letter case: two texts equal up to case normalise to
      the same month, or both fail. */
  lemma CaseInsensitive(s: string, s': string)
    requires Lower(s) == Lower(s')
    ensures Normalize(Text(s)).Success? <==> Normalize(Text(s')).Success?
    ensures Normalize(Text(s)).Success? ==> Normalize(Text(s)) == Normalize(Text(s'))
  {
    LowerPreservesIntegerLiteral(s);
    LowerPreservesIntegerLiteral(s');
    if !IsIntegerLiteral(s) && Normalize(Text(s)).Success? {
      var k := Normalize(Text(s)).value;
      NameNormalizesIff(s, k);
      NameNormalizesIff(s', k);
    }
  }

  /** Any digit string, leading zeros included, is taken as its value; a
      leading "+" changes nothing and a leading "-" negates it. */
  lemma SignedNumeralNormalizes(d: string)
    requires |d| > 0 && AllDigits(d)
    ensures Normalize(Text(d)) == Success(DigitsValue(d) as int)
    ensures Normalize(Text("+" + d)) == Success(DigitsValue(d) as int)
    ensures Normalize(Text("-" + d)).Success?
    ensures Normalize(Text("-" + d)).value == -(DigitsValue(d) as int)
  {
    assert IsDigit(d[0]);
    assert IsIntegerLiteral(d);
    var plus, minus := "+" + d, "-" + d;
    assert plus[0] == '+' && plus[1..] == d;
    assert IsIntegerLiteral(plus);
    assert minus[0] == '-' && minus[1..] == d;
    assert IsIntegerLiteral(minus);
  }

  /** A text cell holding a decimal numeral is taken as that number. */
  lemma NumeralNormalizes(n: nat)
    ensures Normalize(Text(NatToString(n))) == Success(n)
    ensures Normalize(Text("-" + NatToString(n))).Success?
    ensures Normalize(Text("-" + NatToString(n))).value == -(n as int)
  {
    NatToStringRoundTrip(n);
    SignedNumeralNormalizes(NatToString(n));
  }

  /** Every spelling of "march", in any mix of letter case ("March",
      "MARCH", "mArCh"), normalises to 3. */
  lemma MarchInAnyCase(s: string)
    requires Lower(s) == "march"
    ensures Normalize(Text(s)) == Success(3)
  {
    LowerPreservesIntegerLiteral(s);
    assert !IsDigit(Lower(s)[0]);
    NameNormalizesIff(s, 3);
  }

  /** A misspelt name is rejected, naming the token. */
  lemma MisspeltNameRejected()
    ensures Normalize(Text("Marchh")) == Failure(InvalidMonthName("Marchh"))
  {
    assert Lower("Marchh") !in MonthNames;
  }
}
