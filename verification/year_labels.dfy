/** The text of the derived `year_disbursement` column: the disbursement year converted to
    a string. pandas stores the years of a date column that holds a missing date (`NaT`)
    as floats, so in that case every label gets a trailing ".0" and the missing ones read "nan". */
module YearLabels {
  import opened Wrappers
  import opened Periods

  predicate IsDigit(c: char) {
    '0' <= c <= '9'
  }

  function DigitChar(d: int): (c: char)
    requires 0 <= d < 10
    ensures IsDigit(c)
  {
    "0123456789"[d]
  }

  /** Decimal notation of a natural number, without leading zeros. */
  function NatText(n: nat): (s: string)
    ensures |s| >= 1
    ensures forall i :: 0 <= i < |s| ==> IsDigit(s[i])
    ensures n >= 10 <==> |s| >= 2
  {
    if n < 10 then [DigitChar(n)] else NatText(n / 10) + [DigitChar(n % 10)]
  }

  /** Decimal notation of an integer, with a leading '-' when negative. */
  function IntText(y: int): (t: string)
    ensures |t| >= 1
    ensures t[0] == '-' <==> y < 0
    ensures forall i :: 0 <= i < |t| ==> t[i] == '-' || IsDigit(t[i])
  {
    if y < 0 then "-" + NatText(-y) else NatText(y)
  }

  /** The `year_disbursement` value of one row. `floatColumn` says whether the column was
      stored as floats, which happens when some disbursement date of the sheet is missing. */
  function YearLabel(disbursement: Option<Date>, floatColumn: bool): (s: string)
    ensures s == "nan" <==> disbursement.None?
    ensures disbursement.Some? ==> ('.' in s <==> floatColumn)
  {
    match disbursement
    case None => "nan"
    case Some(d) =>
      var t := IntText(d.year);
      assert t[0] != "nan"[0];
      if floatColumn then t + ".0" else t
  }

  lemma DigitCharInjective(a: int, b: int)
    requires 0 <= a < 10 && 0 <= b < 10
    ensures DigitChar(a) == DigitChar(b) <==> a == b
  {
  }

  /** Distinct numbers have distinct decimal notations. */
  lemma {:induction false} NatTextInjective(a: nat, b: nat)
    ensures NatText(a) == NatText(b) <==> a == b
  {
    if NatText(a) == NatText(b) && a != b {
      var s := NatText(a);
      if a < 10 || b < 10 {
        assert |s| == 1;
        assert a < 10 && b < 10;
        DigitCharInjective(a, b);
      } else {
        var n := |s|;
        assert s[n - 1] == DigitChar(a % 10) == DigitChar(b % 10);
        DigitCharInjective(a % 10, b % 10);
        assert s[..n - 1] == NatText(a / 10) == NatText(b / 10);
        NatTextInjective(a / 10, b / 10);
      }
    }
  }

  lemma IntTextInjective(a: int, b: int)
    ensures IntText(a) == IntText(b) <==> a == b
  {
    if a < 0 && b < 0 {
      assert IntText(a)[1..] == NatText(-a) && IntText(b)[1..] == NatText(-b);
      NatTextInjective(-a, -b);
    } else if a >= 0 && b >= 0 {
      NatTextInjective(a, b);
    }
  }

  /** Within one sheet the label identifies the disbursement year: two rows carry the same
      label exactly when both dates are missing or both fall in the same year. */
  lemma YearLabelInjective(a: Option<Date>, b: Option<Date>, floatColumn: bool)
    ensures YearLabel(a, floatColumn) == YearLabel(b, floatColumn) <==>
              (a.None? && b.None?) || (a.Some? && b.Some? && a.value.year == b.value.year)
  {
    if a.Some? && b.Some? {
      var ta, tb := IntText(a.value.year), IntText(b.value.year);
      if floatColumn && ta + ".0" == tb + ".0" {
        assert |ta| == |tb|;
        assert ta == (ta + ".0")[..|ta|];
        assert tb == (tb + ".0")[..|tb|];
      }
      IntTextInjective(a.value.year, b.value.year);
    }
  }
}
