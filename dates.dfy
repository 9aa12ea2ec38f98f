/** The current date as TODAY() writes it: Carbon's format('Y-m-d'), a year of
    at least four digits, then a two-digit month and day, joined by '-'. The
    date itself is an input of the model. */
module Dates {
  import opened Wrappers
  import opened PhpStrings

  datatype Date = Date(year: nat, month: nat, day: nat)

  /** format('Y-m-d'). */
  function FormatYmd(d: Date): (r: string)
    ensures forall i :: 0 <= i < |r| ==> IsDigit(r[i]) || r[i] == '-'
    ensures d.year < 10000 && d.month < 100 && d.day < 100 ==> |r| == 10
  {
    var r := PadNat(d.year, 4) + "-" + PadNat(d.month, 2) + "-" + PadNat(d.day, 2);
    assert d.year < 10000 ==> |PadNat(d.year, 4)| == 4 by {
      if d.year < 10000 { NatToStringShort(d.year, 4); }
    }
    assert d.month < 100 ==> |PadNat(d.month, 2)| == 2 by {
      if d.month < 100 { NatToStringShort(d.month, 2); }
    }
    assert d.day < 100 ==> |PadNat(d.day, 2)| == 2 by {
      if d.day < 100 { NatToStringShort(d.day, 2); }
    }
    r
  }

  function Power10(n: nat): (p: nat)
    ensures p >= 1
  {
    if n == 0 then 1 else 10 * Power10(n - 1)
  }

  lemma {:induction false} NatToStringShort(n: nat, width: nat)
    requires width >= 1 && n < Power10(width)
    ensures |NatToString(n)| <= width
  {
    if n >= 10 {
      assert width >= 2;
      assert n / 10 < Power10(width - 1);
      NatToStringShort(n / 10, width - 1);
    }
  }

  /** Reads a Y-m-d text back: three '-'-separated non-empty runs of digits. */
  function ParseYmd(s: string): Option<Date> {
    var parts := Explode("-", s);
    if |parts| == 3 && parts[0] != [] && parts[1] != [] && parts[2] != []
       && AllDigits(parts[0]) && AllDigits(parts[1]) && AllDigits(parts[2])
    then Some(Date(DigitsToNat(parts[0]), DigitsToNat(parts[1]), DigitsToNat(parts[2])))
    else None
  }

  /** The formatted date reads back as the same date. */
  lemma FormatYmdRoundTrip(d: Date)
    ensures ParseYmd(FormatYmd(d)) == Some(d)
  {
    var y, m, dd := PadNat(d.year, 4), PadNat(d.month, 2), PadNat(d.day, 2);
    FormatYmdSplits(d);
    PadNatRoundTrip(d.year, 4);
    PadNatRoundTrip(d.month, 2);
    PadNatRoundTrip(d.day, 2);
  }

  /** explode('-') of the formatted date gives back its three fields. */
  lemma FormatYmdSplits(d: Date)
    ensures Explode("-", FormatYmd(d)) == [PadNat(d.year, 4), PadNat(d.month, 2), PadNat(d.day, 2)]
  {
    var y, m, dd := PadNat(d.year, 4), PadNat(d.month, 2), PadNat(d.day, 2);
    ImplodeTriple(y, m, dd);
    DigitsLackDash(y);
    DigitsLackDash(m);
    DigitsLackDash(dd);
    ExplodeImplode('-', [y, m, dd]);
  }

  lemma ImplodeTriple(y: string, m: string, dd: string)
    ensures Implode("-", [y, m, dd]) == y + "-" + m + "-" + dd
    ensures forall k :: 0 <= k < 3 ==> [y, m, dd][k] == y || [y, m, dd][k] == m || [y, m, dd][k] == dd
  {
    assert [y, m, dd][1..] == [m, dd] && [m, dd][1..] == [dd];
    assert Implode("-", [m, dd]) == m + "-" + dd;
    assert Implode("-", [y, m, dd]) == y + "-" + (m + "-" + dd);
  }

  lemma DigitsLackDash(p: string)
    requires AllDigits(p)
    ensures '-' !in p
  {
    assert forall i :: 0 <= i < |p| ==> p[i] != '-';
  }
}
