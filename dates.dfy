/** Arrival dates and the "Month Year" label a record is grouped under. */
module Dates {
  import opened Text

  type Month = m: int | 1 <= m <= 12 witness 1
  type Day = d: int | 1 <= d <= 31 witness 1

  /** A calendar date that parsed successfully; an unparseable arrival date
      is represented by its absence (see `Cards.Student`). */
  datatype Date = Date(year: nat, month: Month, day: Day)

  /** `dateA - dateB <= 0`: `a` is not later than `b`. */
  predicate NotAfter(a: Date, b: Date)
  {
    a.year < b.year
    || (a.year == b.year && (a.month < b.month || (a.month == b.month && a.day <= b.day)))
  }

  predicate SameMonth(a: Date, b: Date)
  {
    a.year == b.year && a.month == b.month
  }

  /** The calendar month of `a` lies strictly before that of `b`. */
  predicate MonthBefore(a: Date, b: Date)
  {
    a.year < b.year || (a.year == b.year && a.month < b.month)
  }

  /** Two dates in different months are ordered as their months are. */
  lemma NotAfterAcrossMonths(a: Date, b: Date)
    requires NotAfter(a, b) && !SameMonth(a, b)
    ensures MonthBefore(a, b)
  {
  }

  /** Month names as the `long` month format of the page's locale (Italian)
      writes them: lower case. */
  const MonthNames: seq<string> :=
    ["gennaio", "febbraio", "marzo", "aprile", "maggio", "giugno",
     "luglio", "agosto", "settembre", "ottobre", "novembre", "dicembre"]

  function DigitChar(d: int): (c: char)
    requires 0 <= d < 10
    ensures '0' <= c <= '9'
  {
    ('0' as int + d) as char
  }

  /** The `numeric` year format: the decimal digits of the year. */
  function Decimal(n: nat): (r: string)
    ensures |r| >= 1 && (n >= 10 ==> |r| >= 2)
    ensures forall i :: 0 <= i < |r| ==> '0' <= r[i] <= '9'
  {
    if n < 10 then [DigitChar(n)] else Decimal(n / 10) + [DigitChar(n % 10)]
  }

  /** Different years are written differently. */
  lemma {:induction false} DecimalInjective(a: nat, b: nat)
    requires Decimal(a) == Decimal(b)
    ensures a == b
  {
    var da, db := Decimal(a), Decimal(b);
    if a < 10 || b < 10 {
      assert |da| == 1 || |db| == 1;
      assert a < 10 && b < 10;
      assert DigitChar(a) == da[0] == db[0] == DigitChar(b);
    } else {
      var n := |da|;
      assert da[n - 1] == DigitChar(a % 10) && db[n - 1] == DigitChar(b % 10);
      assert da[..n - 1] == Decimal(a / 10) && db[..n - 1] == Decimal(b / 10);
      DecimalInjective(a / 10, b / 10);
    }
  }

  /** The label of a record's group: `toLocaleString` with a long month and
      numeric year, followed by capitalising its first character. */
  function MonthYearLabel(d: Date): (name: string)
  {
    Capitalize(MonthNames[d.month - 1] + " " + Decimal(d.year))
  }

  /** Splitting at the first space recovers both halves. */
  lemma SplitAtSpace(a1: string, b1: string, a2: string, b2: string)
    requires forall i :: 0 <= i < |a1| ==> a1[i] != ' '
    requires forall i :: 0 <= i < |a2| ==> a2[i] != ' '
    requires a1 + " " + b1 == a2 + " " + b2
    ensures a1 == a2 && b1 == b2
  {
    var s := a1 + " " + b1;
    assert s[|a1|] == ' ';
    assert s == a2 + " " + b2 && s[|a2|] == ' ';
    assert a1 == s[..|a1|] == a2;
    assert b1 == s[|a1| + 1..] == b2;
  }

  /** A non-empty word of small letters. */
  predicate IsLowerWord(w: string)
  {
    |w| >= 1 && forall i :: 0 <= i < |w| ==> IsAsciiLower(w[i])
  }

  lemma MonthNameIsWord(m: Month)
    ensures IsLowerWord(MonthNames[m - 1])
  {
  }

  /** Different months have different names. */
  lemma MonthNamesDistinct(m: Month, n: Month)
    requires MonthNames[m - 1] == MonthNames[n - 1]
    ensures m == n
  {
    var a, b := MonthNames[m - 1], MonthNames[n - 1];
    assert a[0] == b[0] && a[1] == b[1] && a[2] == b[2];
  }

  /** A capitalised "word rest" string determines its word and its rest. */
  lemma CapitalisedJoinInjective(na: string, da: string, nb: string, db: string)
    requires IsLowerWord(na) && IsLowerWord(nb)
    requires Capitalize(na + " " + da) == Capitalize(nb + " " + db)
    ensures na == nb && da == db
  {
    var xa, xb := na + " " + da, nb + " " + db;
    assert xa[0] == na[0] && xb[0] == nb[0];
    assert xa[1..] == na[1..] + " " + da;
    assert xb[1..] == nb[1..] + " " + db;
    assert Capitalize(xa)[1..] == xa[1..] && Capitalize(xb)[1..] == xb[1..];
    assert UpperChar(na[0]) == Capitalize(xa)[0] == Capitalize(xb)[0] == UpperChar(nb[0]);
    assert IsAsciiLower(na[0]) && IsAsciiLower(nb[0]);
    assert forall i :: 0 <= i < |na[1..]| ==> na[1..][i] != ' ' by {
      forall i | 0 <= i < |na[1..]| ensures na[1..][i] != ' ' { assert IsAsciiLower(na[i + 1]); }
    }
    assert forall i :: 0 <= i < |nb[1..]| ==> nb[1..][i] != ' ' by {
      forall i | 0 <= i < |nb[1..]| ensures nb[1..][i] != ' ' { assert IsAsciiLower(nb[i + 1]); }
    }
    SplitAtSpace(na[1..], da, nb[1..], db);
    assert na == [na[0]] + na[1..] && nb == [nb[0]] + nb[1..];
  }

  /** Two dates get the same label exactly when they fall in the same month
      of the same year, so grouping by label is grouping by calendar month. */
  lemma LabelInjective(a: Date, b: Date)
    ensures MonthYearLabel(a) == MonthYearLabel(b) <==> SameMonth(a, b)
  {
    if MonthYearLabel(a) == MonthYearLabel(b) {
      LabelParts(a, b);
      MonthNamesDistinct(a.month, b.month);
      DecimalInjective(a.year, b.year);
    }
  }

  /** Equal labels have equal month names and equal year digits. */
  lemma LabelParts(a: Date, b: Date)
    requires MonthYearLabel(a) == MonthYearLabel(b)
    ensures MonthNames[a.month - 1] == MonthNames[b.month - 1]
    ensures Decimal(a.year) == Decimal(b.year)
  {
    MonthNameIsWord(a.month);
    MonthNameIsWord(b.month);
    CapitalisedJoinInjective(MonthNames[a.month - 1], Decimal(a.year), MonthNames[b.month - 1], Decimal(b.year));
  }
}
