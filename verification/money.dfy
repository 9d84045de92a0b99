/** `formatZAR` (public/script.js:24-28): "R " followed by the amount with
    two decimals and a comma between thousands. */
module Money {
  import opened Digits
  import opened Records

  /** How many digits s starts with. */
  function LeadingDigits(s: string): (n: nat)
    ensures n <= |s|
    ensures n < |s| ==> !IsDigit(s[n])
  {
    if |s| == 0 || !IsDigit(s[0]) then 0 else 1 + LeadingDigits(s[1..])
  }

  /** s starts with the regular expression `(\d{3})+\.`. */
  predicate TriplesThenPoint(s: string) {
    var n := LeadingDigits(s);
    n > 0 && n % 3 == 0 && n < |s| && s[n] == '.'
  }

  /** `s.replace(/\d(?=(\d{3})+\.)/g, "$&,")`: a comma after every digit that
      is followed by a positive multiple of three digits and then a point. */
  function Group(s: string): string {
    if |s| == 0 then ""
    else [s[0]] + (if IsDigit(s[0]) && TriplesThenPoint(s[1..]) then "," else "") + Group(s[1..])
  }

  /** Reference grouping of a digit string: commas between groups of three,
      counted from the right. */
  function Thousands(d: string): string {
    if |d| <= 3 then d else Thousands(d[..|d| - 3]) + "," + d[|d| - 3..]
  }

  function StripCommas(s: string): string {
    if |s| == 0 then "" else (if s[0] == ',' then "" else [s[0]]) + StripCommas(s[1..])
  }

  function Sign(cents: int): string {
    if cents < 0 then "-" else ""
  }

  /** The whole units of a cent amount, without sign. */
  function WholePart(cents: int): (s: string)
    ensures AllDigits(s)
  {
    NatToString((if cents < 0 then -cents else cents) / 100)
  }

  /** The two decimals of a cent amount. */
  function Decimals(cents: int): (s: string)
    ensures |s| == 2 && AllDigits(s)
  {
    var m := if cents < 0 then -cents else cents;
    [DigitChar(m % 100 / 10), DigitChar(m % 10)]
  }

  /** `toFixed(2)` of an amount in cents. */
  function Fixed2(cents: int): string {
    Sign(cents) + WholePart(cents) + "." + Decimals(cents)
  }

  /** What `toFixed(2)` writes reads back as the amount: a minus sign
      exactly for negative amounts, then whole units and two decimals whose
      value is the amount's magnitude in cents. */
  lemma Fixed2ReadsBack(c: int)
    ensures Sign(c) == "-" <==> c < 0
    ensures Sign(c) == "" <==> c >= 0
    ensures DigitsValue(WholePart(c)) * 100 + DigitsValue(Decimals(c)) == (if c < 0 then -c else c)
  {
    var m := if c < 0 then -c else c;
    NatToStringRoundTrip(m / 100);
    var d := Decimals(c);
    TwoDigitsValue(d);
    assert DigitValue(d[0]) == m % 100 / 10;
    assert DigitValue(d[1]) == m % 10;
    CentsDecompose(m);
  }

  /** Cents split into whole units, tens and units of cents. */
  lemma CentsDecompose(m: nat)
    ensures m / 100 * 100 + m % 100 / 10 * 10 + m % 10 == m
  {
    var q, r := m / 100, m % 100;
    assert m == q * 100 + r;
    var t, u := r / 10, r % 10;
    assert r == t * 10 + u;
    LastDigit(m, q * 10 + t, u);
  }

  /** The last decimal digit of a * 10 + b, for a digit b, is b. */
  lemma LastDigit(m: int, a: int, b: int)
    requires m == a * 10 + b && 0 <= b < 10
    ensures m % 10 == b
  {
  }

  /** The value of a two-digit numeral. */
  lemma TwoDigitsValue(d: string)
    requires |d| == 2 && AllDigits(d)
    ensures DigitsValue(d) == DigitValue(d[0]) * 10 + DigitValue(d[1])
  {
    var front := d[..1];
    assert front[..0] == [];
    assert DigitsValue(front) == DigitValue(front[0]);
    assert DigitsValue(d) == DigitsValue(front) * 10 + DigitValue(d[1]);
  }

  /** `formatZAR`: a value `parseFloat` cannot read is shown as "R 0.00". */
  function FormatZAR(a: Amount): (s: string)
    ensures a.NoNumber? ==> s == "R 0.00"
    ensures |s| >= 2 && s[..2] == "R "
  {
    match a
    case NoNumber => "R 0.00"
    case Cents(c) => "R " + Group(Fixed2(c))
  }

  lemma {:induction false} StripCommasAppend(a: string, b: string)
    ensures StripCommas(a + b) == StripCommas(a) + StripCommas(b)
  {
    if |a| > 0 {
      assert (a + b)[1..] == a[1..] + b;
      StripCommasAppend(a[1..], b);
    } else {
      assert a + b == b;
    }
  }

  /** Grouping only adds commas: taking them out again gives what went in
      with its own commas taken out. */
  lemma {:induction false} GroupStripsBack(s: string)
    ensures StripCommas(Group(s)) == StripCommas(s)
  {
    if |s| > 0 {
      var comma := if IsDigit(s[0]) && TriplesThenPoint(s[1..]) then "," else "";
      StripCommasAppend([s[0]] + comma, Group(s[1..]));
      StripCommasAppend([s[0]], comma);
      GroupStripsBack(s[1..]);
      assert s == [s[0]] + s[1..];
      StripCommasAppend([s[0]], s[1..]);
    }
  }

  lemma {:induction false} NoCommasStripped(s: string)
    requires ',' !in s
    ensures StripCommas(s) == s
  {
    if |s| > 0 {
      NoCommasStripped(s[1..]);
    }
  }

  /** A string without a point gets no commas. */
  lemma {:induction false} GroupWithoutPoint(s: string)
    requires '.' !in s
    ensures Group(s) == s
  {
    if |s| > 0 {
      GroupWithoutPoint(s[1..]);
      var n := LeadingDigits(s[1..]);
      if n < |s[1..]| {
        assert s[1..][n] in s;
      }
    }
  }

  lemma {:induction false} LeadingDigitsBeforePoint(d: string, f: string)
    requires AllDigits(d)
    ensures LeadingDigits(d + "." + f) == |d|
    decreases |d|
  {
    var s := d + "." + f;
    if |d| == 0 {
      assert s[0] == '.';
    } else {
      assert s[0] == d[0];
      assert s[1..] == d[1..] + "." + f;
      LeadingDigitsBeforePoint(d[1..], f);
    }
  }

  /** One step of the regular expression's scan: the first character, a
      comma if the lookahead holds there, then the rest. */
  lemma GroupCons(c: char, t: string)
    ensures Group([c] + t) == [c] + (if IsDigit(c) && TriplesThenPoint(t) then "," else "") + Group(t)
  {
    assert ([c] + t)[1..] == t;
  }

  lemma ThousandsSplit(d: string, front: string, back: string)
    requires |d| > 3 && front == d[..|d| - 3] && back == d[|d| - 3..]
    ensures Thousands(d) == Thousands(front) + "," + back
  {
  }

  /** Concatenation bookkeeping, not a property of the model: stated on its
      own so that the proof using it stays small. */
  lemma NestComma(x: string, head: string, middle: string, back: string)
    requires x == head + middle + "," + back
    ensures x == head + (middle + "," + back)
  {
  }

  /** Thousands, read from the left: a comma follows the first digit exactly
      when a positive multiple of three digits comes after it. */
  lemma {:induction false} ThousandsFromLeft(d: string)
    requires |d| > 0
    ensures Thousands(d) == ([d[0]] + (if |d| - 1 > 0 && (|d| - 1) % 3 == 0 then "," else "")) + Thousands(d[1..])
    decreases |d|
  {
    var n := |d|;
    if n <= 3 {
      assert d == [d[0]] + d[1..];
    } else if n == 4 {
      ThousandsSplit(d, d[..1], d[1..]);
      assert d[..1] == [d[0]];
    } else {
      var front := d[..n - 3];
      ThousandsFromLeft(front);
      ThousandsLongStep(d, front);
    }
  }

  /** The step of ThousandsFromLeft for more than four digits, given the
      property for all but the last three. */
  lemma ThousandsLongStep(d: string, front: string)
    requires |d| > 4 && front == d[..|d| - 3]
    requires Thousands(front)
      == ([front[0]] + (if |front| - 1 > 0 && (|front| - 1) % 3 == 0 then "," else "")) + Thousands(front[1..])
    ensures Thousands(d) == ([d[0]] + (if |d| - 1 > 0 && (|d| - 1) % 3 == 0 then "," else "")) + Thousands(d[1..])
  {
    var n := |d|;
    var middle := d[1..n - 3];
    var back := d[n - 3..];
    var sep := if (n - 1) % 3 == 0 then "," else "";
    var head := [d[0]] + sep;
    ThousandsSplit(d, front, back);
    assert front[0] == d[0] && front[1..] == middle;
    ShiftByThree(n - 4);
    assert (if |front| - 1 > 0 && (|front| - 1) % 3 == 0 then "," else "") == sep;
    assert Thousands(front) == head + Thousands(middle);
    ThousandsOfRest(d, middle, back);
    NestComma(Thousands(d), head, Thousands(middle), back);
  }

  /** Without its first digit, the number still ends in the same last group. */
  lemma ThousandsOfRest(d: string, middle: string, back: string)
    requires |d| > 4 && middle == d[1..|d| - 3] && back == d[|d| - 3..]
    ensures Thousands(d[1..]) == Thousands(middle) + "," + back
  {
    var n := |d|;
    assert d[1..][..n - 4] == middle && d[1..][n - 4..] == back;
    ThousandsSplit(d[1..], middle, back);
  }

  /** Three more digits leave the position within a group unchanged. */
  lemma ShiftByThree(k: int)
    ensures (k + 3) % 3 == k % 3
  {
  }

  /** The decimals after the point get no commas. */
  lemma GroupAtPoint(f: string)
    requires AllDigits(f)
    ensures Group("." + f) == "." + f
  {
    assert "." + f == ['.'] + f;
    GroupCons('.', f);
    assert '.' !in f;
    GroupWithoutPoint(f);
  }

  /** The scan at the first digit of the whole part. */
  lemma GroupAtDigit(d: string, f: string)
    requires |d| > 0 && AllDigits(d)
    ensures Group(d + "." + f)
      == ([d[0]] + (if |d| - 1 > 0 && (|d| - 1) % 3 == 0 then "," else "")) + Group(d[1..] + "." + f)
  {
    var t := d[1..] + "." + f;
    assert d + "." + f == [d[0]] + t;
    LeadingDigitsBeforePoint(d[1..], f);
    assert t[|d| - 1] == '.';
    GroupCons(d[0], t);
  }

  /** Concatenation bookkeeping for one step of GroupIsThousands: stated on
      its own so that the proof using it stays small. */
  lemma Regroup(whole: string, head: string, grouped: string, rest: string, joined: string, f: string)
    requires whole == head + grouped
    requires grouped == rest + "." + f
    requires joined == head + rest
    ensures whole == joined + "." + f
  {
  }

  /** On a whole part and decimals, the regular expression groups the whole
      part in threes from the right and leaves the decimals alone. */
  lemma {:induction false} GroupIsThousands(d: string, f: string)
    requires AllDigits(d) && AllDigits(f)
    ensures Group(d + "." + f) == Thousands(d) + "." + f
    decreases |d|
  {
    if |d| == 0 {
      assert d + "." + f == "." + f;
      GroupAtPoint(f);
    } else {
      var head := [d[0]] + (if |d| - 1 > 0 && (|d| - 1) % 3 == 0 then "," else "");
      GroupAtDigit(d, f);
      GroupIsThousands(d[1..], f);
      ThousandsFromLeft(d);
      Regroup(Group(d + "." + f), head, Group(d[1..] + "." + f), Thousands(d[1..]), Thousands(d), f);
    }
  }

  /** `toFixed(2)` writes a sign, digits and a point, never a comma. */
  lemma Fixed2HasNoComma(c: int)
    ensures ',' !in Fixed2(c)
  {
    var w := WholePart(c);
    var d := Decimals(c);
    assert ',' !in w && ',' !in d;
  }

  /** A leading sign gets no comma and leaves the rest to group as before. */
  lemma GroupSigned(sign: string, body: string)
    requires sign == "" || sign == "-"
    ensures Group(sign + body) == sign + Group(body)
  {
    if sign == "-" {
      assert sign + body == ['-'] + body;
      GroupCons('-', body);
    } else {
      assert sign + body == body;
    }
  }

  /** Concatenation bookkeeping, not a property of the model: stated on its
      own so that the proof using it stays small. */
  lemma SplitSign(sign: string, w: string, d: string)
    ensures sign + w + "." + d == sign + (w + "." + d)
  {
  }

  /** Concatenation bookkeeping, not a property of the model: stated on its
      own so that the proof using it stays small. */
  lemma Flatten(x: string, sign: string, t: string, d: string)
    requires x == "R " + (sign + (t + "." + d))
    ensures x == "R " + sign + t + "." + d
  {
  }

  /** A cent amount shows as its sign, the whole part in groups of three, a
      point and two decimals. */
  lemma FormatCents(c: int)
    ensures FormatZAR(Cents(c)) == "R " + Sign(c) + Thousands(WholePart(c)) + "." + Decimals(c)
  {
    var w := WholePart(c);
    var d := Decimals(c);
    SplitSign(Sign(c), w, d);
    GroupSigned(Sign(c), w + "." + d);
    GroupIsThousands(w, d);
    Flatten(FormatZAR(Cents(c)), Sign(c), Thousands(w), d);
  }

  /** Taking the commas out of a formatted cent amount leaves "R " and
      exactly what `toFixed(2)` wrote. */
  lemma FormatCentsStripped(c: int)
    ensures StripCommas(FormatZAR(Cents(c))) == "R " + Fixed2(c)
  {
    Fixed2HasNoComma(c);
    GroupStripsBack(Fixed2(c));
    NoCommasStripped(Fixed2(c));
    StripCommasAppend("R ", Group(Fixed2(c)));
  }
}
