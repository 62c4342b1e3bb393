/** The ordering the sort comparator uses on field values. Two values of the
    same kind compare as the source's `<` does on them: strings by code
    points, left to right, a proper prefix first; `false` before `true`;
    dates chronologically, as their zero-padded `YYYY-MM-DD` text compares.
    Values of different kinds (and missing values) are ordered by kind,
    `Null < Bool < BirthDate < Str`, so that the order is total. */
module ValueOrder {
  import opened Models

  function Rank(v: Value): nat {
    match v
    case Null => 0
    case Bool(_) => 1
    case BirthDate(_, _, _) => 2
    case Str(_) => 3
  }

  /** Lexicographic `a < b` on strings. */
  predicate StrLess(a: string, b: string) {
    if |a| == 0 then |b| > 0
    else if |b| == 0 then false
    else if a[0] != b[0] then a[0] < b[0]
    else StrLess(a[1..], b[1..])
  }

  /** Chronological order on calendar dates: by year, then month, then day. */
  predicate DateLess(y1: int, m1: int, d1: int, y2: int, m2: int, d2: int) {
    y1 < y2 || (y1 == y2 && (m1 < m2 || (m1 == m2 && d1 < d2)))
  }

  /** Strict order on values. */
  predicate Less(a: Value, b: Value) {
    if Rank(a) != Rank(b) then Rank(a) < Rank(b)
    else match (a, b)
      case (Bool(x), Bool(y)) => !x && y
      case (BirthDate(y1, m1, d1), BirthDate(y2, m2, d2)) => DateLess(y1, m1, d1, y2, m2, d2)
      case (Str(x), Str(y)) => StrLess(x, y)
      case _ => false
  }

  /** `a <= b` in the order. */
  predicate LessOrEqual(a: Value, b: Value) {
    a == b || Less(a, b)
  }

  lemma {:induction false} StrLessIrreflexive(a: string)
    ensures !StrLess(a, a)
  {
    if |a| > 0 {
      StrLessIrreflexive(a[1..]);
    }
  }

  lemma {:induction false} StrLessTransitive(a: string, b: string, c: string)
    requires StrLess(a, b) && StrLess(b, c)
    ensures StrLess(a, c)
  {
    if |a| > 0 && a[0] == b[0] && b[0] == c[0] {
      StrLessTransitive(a[1..], b[1..], c[1..]);
    }
  }

  lemma {:induction false} StrLessTotal(a: string, b: string)
    requires a != b
    ensures StrLess(a, b) || StrLess(b, a)
  {
    if |a| > 0 && |b| > 0 && a[0] == b[0] {
      assert a == [a[0]] + a[1..] && b == [b[0]] + b[1..];
      StrLessTotal(a[1..], b[1..]);
    }
  }

  lemma LessIrreflexive(a: Value)
    ensures !Less(a, a)
  {
    if a.Str? {
      StrLessIrreflexive(a.s);
    }
  }

  lemma LessTransitive(a: Value, b: Value, c: Value)
    requires Less(a, b) && Less(b, c)
    ensures Less(a, c)
  {
    if a.Str? && b.Str? && c.Str? {
      StrLessTransitive(a.s, b.s, c.s);
    }
  }

  /** Any two distinct values are comparable. */
  lemma LessTotal(a: Value, b: Value)
    requires a != b
    ensures Less(a, b) || Less(b, a)
  {
    if a.Str? && b.Str? {
      StrLessTotal(a.s, b.s);
    }
  }

  lemma LessAsymmetric(a: Value, b: Value)
    requires Less(a, b)
    ensures !Less(b, a)
  {
    if Less(b, a) {
      LessTransitive(a, b, a);
      LessIrreflexive(a);
    }
  }

  /** `!(b < a)` is the same as `a <= b`: the order is total. */
  lemma NotLessIsLessOrEqual(a: Value, b: Value)
    ensures !Less(b, a) <==> LessOrEqual(a, b)
  {
    if a == b {
      LessIrreflexive(a);
    } else {
      LessTotal(a, b);
      if Less(a, b) {
        LessAsymmetric(a, b);
      }
    }
  }

  lemma LessOrEqualTransitive(a: Value, b: Value, c: Value)
    requires LessOrEqual(a, b) && LessOrEqual(b, c)
    ensures LessOrEqual(a, c)
  {
    if a != b && b != c {
      LessTransitive(a, b, c);
    }
  }
}
