/**
  The `YYYY-MM` text form of a month: `datetime.strptime(text, "%Y-%m")` and
  `strftime("%Y-%m")`, and why comparing such text as strings is comparing
  the months it names.
 */
module MonthText {
  import opened Wrappers
  import opened Seqs
  import opened Digits
  import opened Calendar

  /** `strftime("%Y-%m")`: the year padded to four digits, the month to two. */
  function Format(ym: YearMonth): (s: string)
    ensures |s| == 7 && s[4] == '-'
  {
    Pad(ym.year, 4) + "-" + Pad(ym.month, 2)
  }

  /** The `%m` field of `strptime`: "01".."12", or a single digit "1".."9". */
  function MonthNumber(t: string): (r: Option<nat>)
    ensures r.Some? <==> 1 <= |t| <= 2 && AllDigits(t) && 1 <= Value(t) <= 12
    ensures r.Some? ==> r.value == Value(t)
  {
    if 1 <= |t| <= 2 && AllDigits(t) && 1 <= Value(t) <= 12 then Some(Value(t)) else None
  }

  /** `strptime(text, "%Y-%m")`: exactly four digits, a dash, the month field and
      nothing after it; year 0 is rejected by `datetime`. `None` is the `ValueError`. */
  function Parse(s: string): (r: Option<YearMonth>)
    ensures r.Some? ==> r.value.Valid()
    ensures r.Some? <==> |s| >= 6 && AllDigits(s[..4]) && s[4] == '-'
                          && MonthNumber(s[5..]).Some? && Value(s[..4]) >= 1
    ensures r.Some? ==> r.value == YearMonth(Value(s[..4]), Value(s[5..]))
  {
    if |s| < 6 || !AllDigits(s[..4]) || s[4] != '-' then None
    else match MonthNumber(s[5..])
      case None => None
      case Some(m) => if Value(s[..4]) == 0 then None else Some(YearMonth(Value(s[..4]), m))
  }

  /** Text in the exact shape `strftime` writes. */
  predicate IsMonthText(s: string) {
    |s| == 7 && Parse(s).Some?
  }

  /** Formatting a month and parsing it back gives the month. */
  lemma ParseFormat(ym: YearMonth)
    requires ym.Valid()
    ensures Parse(Format(ym)) == Some(ym)
    ensures IsMonthText(Format(ym))
  {
    var s := Format(ym);
    assert s[..4] == Pad(ym.year, 4);
    assert s[5..] == Pad(ym.month, 2);
    PadValue(ym.year, 4);
    PadValue(ym.month, 2);
  }

  /** Parsing seven-character month text and formatting it back gives the text. */
  lemma FormatParse(s: string)
    requires IsMonthText(s)
    ensures Format(Parse(s).value) == s
  {
    ValuePad(s[..4]);
    ValuePad(s[5..]);
    assert s == s[..4] + "-" + s[5..];
  }

  lemma FormatInjective(a: YearMonth, b: YearMonth)
    requires a.Valid() && b.Valid()
    ensures Format(a) == Format(b) <==> a == b
  {
    ParseFormat(a);
    ParseFormat(b);
  }

  /** Two formatted months compare as strings the way they compare in time. */
  lemma FormatOrder(a: YearMonth, b: YearMonth)
    requires a.Valid() && b.Valid()
    ensures StrLt(Format(a), Format(b)) <==> Ord(a) < Ord(b)
  {
    var ya, yb := Pad(a.year, 4), Pad(b.year, 4);
    var ma, mb := "-" + Pad(a.month, 2), "-" + Pad(b.month, 2);
    assert Format(a) == ya + ma && Format(b) == yb + mb;
    LexConcat(ya, ma, yb, mb, CharLt);
    assert Lex(ma, mb, CharLt) == Lex(Pad(a.month, 2), Pad(b.month, 2), CharLt) by {
      assert ma[1..] == Pad(a.month, 2) && mb[1..] == Pad(b.month, 2);
    }
    PadOrder(a.year, b.year, 4);
    PadInjective(a.year, b.year, 4);
    PadOrder(a.month, b.month, 2);
  }

  /** The `[year, month]` field lists of two months compare as lists the way
      the months compare in time. */
  lemma FieldsOrder(a: YearMonth, b: YearMonth)
    requires a.Valid() && b.Valid()
    ensures ListLt([Pad(a.year, 4), Pad(a.month, 2)], [Pad(b.year, 4), Pad(b.month, 2)]) <==> Ord(a) < Ord(b)
  {
    var fa, fb := [Pad(a.year, 4), Pad(a.month, 2)], [Pad(b.year, 4), Pad(b.month, 2)];
    PadInjective(a.year, b.year, 4);
    PadInjective(a.month, b.month, 2);
    if a.year == b.year {
      assert fa[1..] == [Pad(a.month, 2)] && fb[1..] == [Pad(b.month, 2)];
      assert ListLt(fa, fb) == Lex(fa[1..], fb[1..], StrLt);
      if a.month != b.month {
        assert Lex(fa[1..], fb[1..], StrLt) == StrLt(Pad(a.month, 2), Pad(b.month, 2));
        PadOrder(a.month, b.month, 2);
      } else {
        assert fa == fb;
        LexIrreflexive(fa, StrLt);
      }
    } else {
      assert ListLt(fa, fb) == StrLt(Pad(a.year, 4), Pad(b.year, 4));
      PadOrder(a.year, b.year, 4);
    }
  }
}
