/** The `YYYY-MM-DD` strings that key orders by shipping date, and why comparing them as
    strings (as the order store's range filter does) compares the dates they name. */
module DateKeys {
  import opened Dates
  import opened Strings

  /** `${year}-${String(month + 1).padStart(2, '0')}-${String(day).padStart(2, '0')}`. */
  function DateKey(d: Date): string
  {
    IntString(d.year) + "-" + PadStart(IntString(d.month + 1), 2, '0') + "-" + PadStart(IntString(d.day), 2, '0')
  }

  /** Years written with exactly four digits. */
  predicate FourDigitYear(d: Date)
  {
    1000 <= d.year <= 9999
  }

  /** Fixed-width digits of year, month and day joined by dashes. */
  function DigitKey(y: nat, m: nat, d: nat): string
  {
    FixedDigits(y, 4) + ("-" + (FixedDigits(m, 2) + ("-" + FixedDigits(d, 2))))
  }

  /** For four-digit years the key is the fixed-width `YYYY-MM-DD` digits of year, month and day. */
  lemma DateKeyDigits(d: Date)
    requires Valid(d) && FourDigitYear(d)
    ensures DateKey(d) == DigitKey(d.year, d.month + 1, d.day)
  {
    var y, m, dd := FixedDigits(d.year, 4), FixedDigits(d.month + 1, 2), FixedDigits(d.day, 2);
    assert IntString(d.year) == y by {
      Pow10Small();
      NatStringFixed(d.year, 4);
    }
    PadTwoDigits(d.month + 1);
    PadTwoDigits(d.day);
    KeyParts(d, y, m, dd);
    Regroup(y, m, dd);
  }

  lemma KeyParts(d: Date, y: string, m: string, dd: string)
    requires IntString(d.year) == y
    requires PadStart(IntString(d.month + 1), 2, '0') == m
    requires PadStart(IntString(d.day), 2, '0') == dd
    ensures DateKey(d) == y + "-" + m + "-" + dd
  {
  }

  lemma Regroup(y: string, m: string, dd: string)
    ensures y + "-" + m + "-" + dd == y + ("-" + (m + ("-" + dd)))
  {
  }

  /** Keys made of equal-width parts compare part by part. */
  lemma PartsCompare(ya: string, ma: string, da: string, yb: string, mb: string, db: string)
    requires |ya| == |yb| && |ma| == |mb|
    ensures var ka, kb := ya + ("-" + (ma + ("-" + da))), yb + ("-" + (mb + ("-" + db)));
            LexLe(ka, kb) == if ya != yb then LexLe(ya, yb) else if ma != mb then LexLe(ma, mb) else LexLe(da, db)
  {
    YearPartCompare(ya, ma, da, yb, mb, db);
    SeparatedCompare(ma + ("-" + da), mb + ("-" + db));
    MonthPartCompare(ma, da, mb, db);
  }

  lemma YearPartCompare(ya: string, ma: string, da: string, yb: string, mb: string, db: string)
    requires |ya| == |yb|
    ensures var ra, rb := "-" + (ma + ("-" + da)), "-" + (mb + ("-" + db));
            LexLe(ya + ra, yb + rb) == if ya != yb then LexLe(ya, yb) else LexLe(ra, rb)
  {
    LexLeConcat(ya, "-" + (ma + ("-" + da)), yb, "-" + (mb + ("-" + db)));
  }

  lemma MonthPartCompare(ma: string, da: string, mb: string, db: string)
    requires |ma| == |mb|
    ensures LexLe(ma + ("-" + da), mb + ("-" + db)) == if ma != mb then LexLe(ma, mb) else LexLe(da, db)
  {
    LexLeConcat(ma, "-" + da, mb, "-" + db);
    SeparatedCompare(da, db);
  }

  lemma SeparatedCompare(s: string, t: string)
    ensures LexLe("-" + s, "-" + t) == LexLe(s, t)
  {
    LexLeConcat("-", s, "-", t);
  }

  lemma PartsEqual(ya: string, ma: string, da: string, yb: string, mb: string, db: string)
    requires |ya| == |yb| == 4 && |ma| == |mb| == 2
    requires ya + ("-" + (ma + ("-" + da))) == yb + ("-" + (mb + ("-" + db)))
    ensures ya == yb && ma == mb && da == db
  {
    var ka, kb := ya + ("-" + (ma + ("-" + da))), yb + ("-" + (mb + ("-" + db)));
    assert ya == ka[..4] && yb == kb[..4];
    assert ma == ka[5..7] && mb == kb[5..7];
    assert da == ka[8..] && db == kb[8..];
  }

  /** Digit keys compare as their (year, month, day) triples, lexicographically. */
  lemma DigitKeyOrder(ya: nat, ma: nat, da: nat, yb: nat, mb: nat, db: nat)
    requires ya < 10000 && yb < 10000 && ma < 100 && mb < 100 && da < 100 && db < 100
    ensures LexLe(DigitKey(ya, ma, da), DigitKey(yb, mb, db))
            <==> ya < yb || (ya == yb && (ma < mb || (ma == mb && da <= db)))
  {
    Pow10Small();
    FixedDigitsOrder(ya, yb, 4);
    FixedDigitsOrder(ma, mb, 2);
    FixedDigitsOrder(da, db, 2);
    PartsCompare(FixedDigits(ya, 4), FixedDigits(ma, 2), FixedDigits(da, 2), FixedDigits(yb, 4), FixedDigits(mb, 2), FixedDigits(db, 2));
  }

  /** Equal digit keys come from equal triples. */
  lemma DigitKeyEqual(ya: nat, ma: nat, da: nat, yb: nat, mb: nat, db: nat)
    requires ya < 10000 && yb < 10000 && ma < 100 && mb < 100 && da < 100 && db < 100
    requires DigitKey(ya, ma, da) == DigitKey(yb, mb, db)
    ensures ya == yb && ma == mb && da == db
  {
    Pow10Small();
    FixedDigitsOrder(ya, yb, 4);
    FixedDigitsOrder(ma, mb, 2);
    FixedDigitsOrder(da, db, 2);
    PartsEqual(FixedDigits(ya, 4), FixedDigits(ma, 2), FixedDigits(da, 2), FixedDigits(yb, 4), FixedDigits(mb, 2), FixedDigits(db, 2));
  }

  /** Key order is the lexicographic order of (year, month, day). */
  lemma DateKeyLex(a: Date, b: Date)
    requires Valid(a) && Valid(b) && FourDigitYear(a) && FourDigitYear(b)
    ensures LexLe(DateKey(a), DateKey(b)) <==> !Before(b, a)
  {
    DateKeyDigits(a);
    DateKeyDigits(b);
    DigitKeyOrder(a.year, a.month + 1, a.day, b.year, b.month + 1, b.day);
  }

  /** Equal keys name equal dates. */
  lemma DateKeyInjective(a: Date, b: Date)
    requires Valid(a) && Valid(b) && FourDigitYear(a) && FourDigitYear(b)
    requires DateKey(a) == DateKey(b)
    ensures a == b
  {
    DateKeyDigits(a);
    DateKeyDigits(b);
    DigitKeyEqual(a.year, a.month + 1, a.day, b.year, b.month + 1, b.day);
  }

  /** String order on keys is date order: `DateKey(a) <= DateKey(b)` exactly when `a` is not
      after `b`, and equal keys name equal dates. */
  lemma DateKeyOrder(a: Date, b: Date)
    requires Valid(a) && Valid(b) && FourDigitYear(a) && FourDigitYear(b)
    ensures LexLe(DateKey(a), DateKey(b)) <==> Ord(a) <= Ord(b)
    ensures DateKey(a) == DateKey(b) <==> a == b
  {
    DateKeyLex(a, b);
    if DateKey(a) == DateKey(b) {
      DateKeyInjective(a, b);
    }
    OrdOrder(b, a);
  }
}
