/** The CGPA summary: a credit-weighted mean of the semester grade-points,
    with an explicit guard for a zero credit total. Values are `real`;
    floating-point rounding is not modelled. */
module Summary {

  /** One semester as entered in the form: its SGPA and its credits. */
  datatype Entry = Entry(grade: real, credit: real)

  /** The upper bound of the SGPA input widget. */
  const MaxGrade: real := 10.0

  /** The bounds the input widgets enforce: SGPA in [0, 10], credits >= 0. */
  predicate InBounds(e: Entry)
  {
    0.0 <= e.grade <= MaxGrade && 0.0 <= e.credit
  }

  /** Every grade lies in [lo, hi] and no credit is negative. */
  predicate GradesBetween(entries: seq<Entry>, lo: real, hi: real)
  {
    forall i :: 0 <= i < |entries| ==> lo <= entries[i].grade <= hi && 0.0 <= entries[i].credit
  }

  /** Every entry keeps the input bounds. */
  predicate AllInBounds(entries: seq<Entry>)
  {
    GradesBetween(entries, 0.0, MaxGrade)
  }

  /** No credit is negative: the half of the input bounds the sums need. */
  predicate CreditsNonNegative(entries: seq<Entry>)
  {
    forall i :: 0 <= i < |entries| ==> 0.0 <= entries[i].credit
  }

  predicate AllCreditsZero(entries: seq<Entry>)
  {
    forall i :: 0 <= i < |entries| ==> entries[i].credit == 0.0
  }

  /** The two columns paired index by index, as `zip` pairs them. */
  function Zip(grades: seq<real>, credits: seq<real>): (es: seq<Entry>)
    requires |grades| == |credits|
    ensures |es| == |grades|
    ensures forall i :: 0 <= i < |es| ==> es[i].grade == grades[i] && es[i].credit == credits[i]
  {
    if grades == [] then []
    else Zip(grades[..|grades| - 1], credits[..|credits| - 1]) + [Entry(grades[|grades| - 1], credits[|credits| - 1])]
  }

  /** The credit total, summed left to right like Python's `sum`. */
  function TotalCredits(entries: seq<Entry>): (total: real)
  {
    if entries == [] then 0.0
    else TotalCredits(entries[..|entries| - 1]) + entries[|entries| - 1].credit
  }

  /** A plain left-to-right sum of one column. */
  function Sum(xs: seq<real>): (total: real)
  {
    if xs == [] then 0.0 else Sum(xs[..|xs| - 1]) + xs[|xs| - 1]
  }

  /** The credit total of the zipped entries is the sum of the credit
      column on its own, which is how the app computes it. */
  lemma {:induction false} TotalCreditsIsColumnSum(grades: seq<real>, credits: seq<real>)
    requires |grades| == |credits|
    ensures TotalCredits(Zip(grades, credits)) == Sum(credits)
  {
    if grades != [] {
      var es := Zip(grades, credits);
      assert es[..|es| - 1] == Zip(grades[..|grades| - 1], credits[..|credits| - 1]);
      TotalCreditsIsColumnSum(grades[..|grades| - 1], credits[..|credits| - 1]);
    }
  }

  /** One entry's grade times its credit. */
  function Weighted(e: Entry): (product: real)
  {
    e.grade * e.credit
  }

  /** The sum of grade times credit over the entries, left to right. */
  function TotalWeighted(entries: seq<Entry>): (total: real)
  {
    if entries == [] then 0.0
    else
      TotalWeighted(entries[..|entries| - 1]) + Weighted(entries[|entries| - 1])
  }

  /** Weighted sum over total credits when the total is positive, and 0
      otherwise; the guard is what makes the division well defined. */
  function Cgpa(entries: seq<Entry>): (r: real)
    ensures TotalCredits(entries) <= 0.0 ==> r == 0.0
    ensures TotalCredits(entries) > 0.0 ==> r * TotalCredits(entries) == TotalWeighted(entries)
  {
    var total := TotalCredits(entries);
    if total > 0.0 then TotalWeighted(entries) / total else 0.0
  }

  /** Multiplying by a non-negative factor keeps an inequality. */
  lemma ScaleLe(a: real, b: real, k: real)
    requires a <= b && 0.0 <= k
    ensures a * k <= b * k
  {
    assert b * k - a * k == (b - a) * k;
  }

  /** Multiplying by a positive factor keeps a strict inequality. */
  lemma ScaleLt(a: real, b: real, k: real)
    requires a < b && 0.0 < k
    ensures a * k < b * k
  {
    assert b * k - a * k == (b - a) * k;
  }

  /** The inductive step of WeightedSumBetween, on plain numbers. */
  lemma WeightedStep(lo: real, hi: real, t0: real, w0: real, g: real, c: real, t: real, w: real)
    requires lo * t0 <= w0 <= hi * t0
    requires lo <= g <= hi && 0.0 <= c
    requires t == t0 + c && w == w0 + g * c
    ensures lo * t <= w <= hi * t
  {
    ScaleLe(lo, g, c);
    ScaleLe(g, hi, c);
  }

  /** A quotient m = w / t of bounded numbers is bounded, on plain numbers. */
  lemma MeanBetween(lo: real, hi: real, t: real, w: real, m: real)
    requires 0.0 < t && lo * t <= w <= hi * t && m * t == w
    ensures lo <= m <= hi
  {
    if m < lo {
      ScaleLt(m, lo, t);
    }
    if m > hi {
      ScaleLt(hi, m, t);
    }
  }

  /** The bounds of a non-empty list hold of its prefix and its last entry. */
  lemma GradesBetweenSplit(entries: seq<Entry>, lo: real, hi: real)
    requires GradesBetween(entries, lo, hi) && entries != []
    ensures GradesBetween(entries[..|entries| - 1], lo, hi)
    ensures lo <= entries[|entries| - 1].grade <= hi && 0.0 <= entries[|entries| - 1].credit
  {
    var init := entries[..|entries| - 1];
    forall i | 0 <= i < |init| ensures lo <= init[i].grade <= hi && 0.0 <= init[i].credit {
      assert init[i] == entries[i];
    }
  }

  /** If every grade lies in [lo, hi] and no credit is negative, the weighted
      sum lies between lo and hi times the credit total. */
  lemma {:induction false} WeightedSumBetween(entries: seq<Entry>, lo: real, hi: real)
    requires GradesBetween(entries, lo, hi)
    ensures lo * TotalCredits(entries) <= TotalWeighted(entries) <= hi * TotalCredits(entries)
  {
    if entries != [] {
      var init, last := entries[..|entries| - 1], entries[|entries| - 1];
      GradesBetweenSplit(entries, lo, hi);
      WeightedSumBetween(init, lo, hi);
      WeightedStep(lo, hi, TotalCredits(init), TotalWeighted(init), last.grade, last.credit,
                   TotalCredits(entries), TotalWeighted(entries));
    }
  }

  /** The CGPA is a mean: with a positive credit total it lies between the
      smallest and largest grade bounds. */
  lemma CgpaBetween(entries: seq<Entry>, lo: real, hi: real)
    requires GradesBetween(entries, lo, hi)
    requires TotalCredits(entries) > 0.0
    ensures lo <= Cgpa(entries) <= hi
  {
    var t, w, m := TotalCredits(entries), TotalWeighted(entries), Cgpa(entries);
    assert m * t == w;
    WeightedSumBetween(entries, lo, hi);
    MeanBetween(lo, hi, t, w, m);
  }

  /** With no negative credit the credit total is not negative. */
  lemma {:induction false} TotalCreditsNonNegative(entries: seq<Entry>)
    requires CreditsNonNegative(entries)
    ensures 0.0 <= TotalCredits(entries)
  {
    if entries != [] {
      var init := entries[..|entries| - 1];
      assert CreditsNonNegative(init) by {
        forall i | 0 <= i < |init| ensures 0.0 <= init[i].credit {
          assert init[i] == entries[i];
        }
      }
      TotalCreditsNonNegative(init);
    }
  }

  /** Within the input bounds the credit total is non-negative and the CGPA
      stays in [0, 10], whether or not the zero-credit guard fires. */
  lemma CgpaInGradeRange(entries: seq<Entry>)
    requires AllInBounds(entries)
    ensures 0.0 <= TotalCredits(entries)
    ensures 0.0 <= Cgpa(entries) <= MaxGrade
  {
    assert CreditsNonNegative(entries);
    TotalCreditsNonNegative(entries);
    if TotalCredits(entries) > 0.0 {
      CgpaBetween(entries, 0.0, MaxGrade);
    }
  }

  /** When every entry carries the same grade and some credit, the CGPA is
      that grade. */
  lemma CgpaOfUniformGrade(entries: seq<Entry>, g: real)
    requires GradesBetween(entries, g, g)
    requires TotalCredits(entries) > 0.0
    ensures Cgpa(entries) == g
  {
    CgpaBetween(entries, g, g);
  }

  /** With credits non-negative, the credit total is zero exactly when every
      credit entered is zero. */
  lemma {:induction false} TotalCreditsZeroIff(entries: seq<Entry>)
    requires CreditsNonNegative(entries)
    ensures TotalCredits(entries) == 0.0 <==> AllCreditsZero(entries)
  {
    if entries != [] {
      var init := entries[..|entries| - 1];
      assert CreditsNonNegative(init) by {
        forall i | 0 <= i < |init| ensures 0.0 <= init[i].credit {
          assert init[i] == entries[i];
        }
      }
      TotalCreditsZeroIff(init);
      TotalCreditsNonNegative(init);
      if AllCreditsZero(entries) {
        assert AllCreditsZero(init) by {
          forall i | 0 <= i < |init| ensures init[i].credit == 0.0 {
            assert init[i] == entries[i];
          }
        }
      }
      if TotalCredits(entries) == 0.0 {
        assert AllCreditsZero(entries) by {
          forall i | 0 <= i < |entries| ensures entries[i].credit == 0.0 {
            if i < |init| {
              assert init[i] == entries[i];
            }
          }
        }
      }
    }
  }

  /** Entries whose credits are all zero give a credit total of 0 and a CGPA
      of 0: the guard, not a division by zero, decides the result. */
  lemma AllZeroCreditsGiveZero(entries: seq<Entry>)
    requires AllCreditsZero(entries)
    ensures TotalCredits(entries) == 0.0 && Cgpa(entries) == 0.0
  {
    assert CreditsNonNegative(entries);
    TotalCreditsZeroIff(entries);
  }

  /** Adding an entry with zero credits changes neither the credit total nor
      the CGPA. */
  lemma ZeroCreditEntryIsNeutral(entries: seq<Entry>, g: real)
    ensures TotalCredits(entries + [Entry(g, 0.0)]) == TotalCredits(entries)
    ensures Cgpa(entries + [Entry(g, 0.0)]) == Cgpa(entries)
  {
    var s := entries + [Entry(g, 0.0)];
    assert s[..|s| - 1] == entries;
  }

  /** The worked example: (8.5, 20) and (9.0, 22) give 368 over 42 credits. */
  lemma WorkedExample()
    ensures TotalCredits([Entry(8.5, 20.0), Entry(9.0, 22.0)]) == 42.0
    ensures TotalWeighted([Entry(8.5, 20.0), Entry(9.0, 22.0)]) == 368.0
    ensures Cgpa([Entry(8.5, 20.0), Entry(9.0, 22.0)]) == 368.0 / 42.0
  {
    var s := [Entry(8.5, 20.0), Entry(9.0, 22.0)];
    assert s[..1] == [Entry(8.5, 20.0)];
    assert s[..1][..0] == [];
  }
}
