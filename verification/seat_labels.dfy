/** The seat labels `seat1`..`seatN` that createEvent writes
    (src/domains/events/repositories/eventRepository.ts:36-39): the word
    `seat` followed by the decimal form of the 1-based index, as a template
    literal prints a positive integer. */
module SeatLabels {

  function DigitChar(d: nat): char
    requires d < 10
  {
    "0123456789"[d]
  }

  /** The value of one decimal digit. */
  function DigitValue(c: char): nat
    requires '0' <= c <= '9'
  {
    (c as int - '0' as int) as nat
  }

  lemma DigitCharValue(d: nat)
    requires d < 10
    ensures '0' <= DigitChar(d) <= '9' && DigitValue(DigitChar(d)) == d
  {
  }

  /** The number a string of decimal digits denotes, most significant digit
      first. */
  function DecimalValue(r: string): nat
    requires forall i :: 0 <= i < |r| ==> '0' <= r[i] <= '9'
  {
    if |r| == 0 then 0 else DecimalValue(r[..|r| - 1]) * 10 + DigitValue(r[|r| - 1])
  }

  /** The decimal form of n, without leading zeros. */
  function Decimal(n: nat): (r: string)
    ensures |r| >= 1
    ensures forall i :: 0 <= i < |r| ==> '0' <= r[i] <= '9'
    ensures n >= 10 ==> |r| >= 2
  {
    if n < 10 then [DigitChar(n)] else Decimal(n / 10) + [DigitChar(n % 10)]
  }

  /** The digits Decimal prints denote n. */
  lemma {:induction false} DecimalRoundTrip(n: nat)
    ensures DecimalValue(Decimal(n)) == n
  {
    var r := Decimal(n);
    if n < 10 {
      DigitCharValue(n);
      assert r[..0] == [];
    } else {
      DecimalRoundTrip(n / 10);
      assert r[..|r| - 1] == Decimal(n / 10);
      DigitCharValue(n % 10);
    }
  }

  function SeatLabel(index: nat): string
  {
    "seat" + Decimal(index)
  }

  /** A label is `seat` followed by the index in decimal. */
  lemma SeatLabelSpellsIndex(index: nat)
    ensures SeatLabel(index)[..4] == "seat"
    ensures var digits := SeatLabel(index)[4..];
      (forall i :: 0 <= i < |digits| ==> '0' <= digits[i] <= '9') && DecimalValue(digits) == index
  {
    assert SeatLabel(index)[4..] == Decimal(index);
    DecimalRoundTrip(index);
  }

  lemma SeatLabelExamples()
    ensures SeatLabel(1) == "seat1" && SeatLabel(10) == "seat10" && SeatLabel(1000) == "seat1000"
  {
  }

  /** The labels of a createEvent with n seats. */
  function SeatLabelsUpTo(n: nat): set<string>
  {
    set i | 1 <= i <= n :: SeatLabel(i)
  }

  /** The labels up to n are those up to n - 1 and the n-th. */
  lemma SeatLabelsUpToSucc(n: nat)
    requires n > 0
    ensures SeatLabelsUpTo(n) == SeatLabelsUpTo(n - 1) + {SeatLabel(n)}
  {
  }

  /** Different numbers print differently. */
  lemma DecimalInjective(a: nat, b: nat)
    ensures Decimal(a) == Decimal(b) ==> a == b
  {
    DecimalRoundTrip(a);
    DecimalRoundTrip(b);
  }

  /** The numeral has no leading zero. */
  lemma {:induction false} DecimalNoLeadingZero(n: nat)
    ensures |Decimal(n)| >= 2 ==> Decimal(n)[0] != '0'
  {
    if n >= 10 {
      DecimalNoLeadingZero(n / 10);
      assert Decimal(n)[0] == Decimal(n / 10)[0];
    }
  }

  /** Two seats of one event never share a label. */
  lemma SeatLabelInjective(a: nat, b: nat)
    ensures SeatLabel(a) == SeatLabel(b) ==> a == b
  {
    if SeatLabel(a) == SeatLabel(b) {
      assert Decimal(a) == SeatLabel(a)[4..];
      assert Decimal(b) == SeatLabel(b)[4..];
      DecimalInjective(a, b);
    }
  }

  /** A label has no ':', so a hold key built from it parses back. */
  lemma SeatLabelHasNoColon(index: nat)
    ensures ':' !in SeatLabel(index)
  {
    var d := Decimal(index);
    forall i | 0 <= i < |SeatLabel(index)|
      ensures SeatLabel(index)[i] != ':'
    {
      if i >= 4 {
        assert SeatLabel(index)[i] == d[i - 4];
      }
    }
  }

  /** createEvent with n seats yields exactly n distinct labels. */
  lemma {:induction false} SeatLabelsCount(n: nat)
    ensures |SeatLabelsUpTo(n)| == n
    ensures forall i :: 1 <= i <= n ==> SeatLabel(i) in SeatLabelsUpTo(n)
  {
    if n > 0 {
      SeatLabelsCount(n - 1);
      assert SeatLabelsUpTo(n) == SeatLabelsUpTo(n - 1) + {SeatLabel(n)};
      if SeatLabel(n) in SeatLabelsUpTo(n - 1) {
        var i :| 1 <= i <= n - 1 && SeatLabel(i) == SeatLabel(n);
        SeatLabelInjective(i, n);
        assert false;
      }
    }
  }
}
