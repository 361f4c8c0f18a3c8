/** The job's required-experience window
    (utils/resume_utils.py, `parse_required_experience`). */
module RequiredExperience {
  import opened Wrappers

  /** One duration phrase, classified by the first of the source's
      searches that matches it. The regular expressions themselves are not
      modelled; a phrase arrives already classified, with its numbers. */
  datatype Phrase =
    | Fresh(monthBound: Option<nat>)   // contains "fresh"; "fresh to N months" carries N
    | RangeMonths(lo: nat, hi: nat)    // "N-M months"
    | RangeYears(lo: nat, hi: nat)     // "N-M years"
    | Years(n: nat)                    // "N years"
    | Months(n: nat)                   // "N months"
    | Unrecognised                     // none of the searches matched

  /** The required window in months; `None` means unspecified or unbounded. */
  datatype Window = Window(min: Option<nat>, max: Option<nat>)

  /** What one phrase appends to the list of minima: something exactly when
      one of the searches matched, and 0 for any "fresh" phrase. */
  function MinOf(p: Phrase): (m: Option<nat>)
    ensures m.None? <==> p.Unrecognised?
    ensures p.Fresh? ==> m == Some(0)
  {
    match p
    case Fresh(_) => Some(0)
    case RangeMonths(lo, _) => Some(lo)
    case RangeYears(lo, _) => Some(lo * 12)
    case Years(n) => Some(n * 12)
    case Months(n) => Some(n)
    case Unrecognised => None
  }

  /** What one phrase appends to the list of maxima: nothing for an
      unrecognised phrase or a "fresh" phrase without a months bound; a
      single duration is both minimum and maximum; a range's maximum is at
      least its minimum exactly when it is written low to high. */
  function MaxOf(p: Phrase): (m: Option<nat>)
    ensures m.None? <==> p.Unrecognised? || p == Fresh(None)
    ensures p.Years? || p.Months? ==> m == MinOf(p)
    ensures p.RangeMonths? || p.RangeYears? ==> m.Some? && MinOf(p).Some? && (MinOf(p).value <= m.value <==> p.lo <= p.hi)
  {
    match p
    case Fresh(bound) => bound
    case RangeMonths(_, hi) => Some(hi)
    case RangeYears(_, hi) => Some(hi * 12)
    case Years(n) => Some(n * 12)
    case Months(n) => Some(n)
    case Unrecognised => None
  }

  /** A phrase that sets a maximum also sets a minimum. */
  lemma MaxNeedsMin(p: Phrase)
    ensures MaxOf(p).Some? ==> MinOf(p).Some?
  {
  }

  /** "N years" contributes what "12N months" does, and likewise for ranges. */
  lemma YearsAreMonths(n: nat, lo: nat, hi: nat)
    ensures MinOf(Years(n)) == MinOf(Months(12 * n)) && MaxOf(Years(n)) == MaxOf(Months(12 * n))
    ensures MinOf(RangeYears(lo, hi)) == MinOf(RangeMonths(12 * lo, 12 * hi))
    ensures MaxOf(RangeYears(lo, hi)) == MaxOf(RangeMonths(12 * lo, 12 * hi))
  {
  }

  /** The values present among `MinOf` (or `MaxOf`) over the phrases, in order. */
  function Collect(ps: seq<Phrase>, pick: Phrase -> Option<nat>): (xs: seq<nat>)
    ensures forall x :: x in xs <==> exists p :: p in ps && pick(p) == Some(x)
  {
    if ps == [] then []
    else
      var rest := Collect(ps[1..], pick);
      assert forall p :: p in ps <==> p == ps[0] || p in ps[1..];
      match pick(ps[0])
      case Some(x) => [x] + rest
      case None => rest
  }

  /** Python's `min` of a non-empty list. */
  function Least(xs: seq<nat>): (m: nat)
    requires |xs| > 0
    ensures m in xs
    ensures forall x :: x in xs ==> m <= x
  {
    if |xs| == 1 then xs[0]
    else
      var m := Least(xs[1..]);
      assert forall x :: x in xs ==> x == xs[0] || x in xs[1..];
      if xs[0] <= m then xs[0] else m
  }

  /** Python's `max` of a non-empty list. */
  function Greatest(xs: seq<nat>): (m: nat)
    requires |xs| > 0
    ensures m in xs
    ensures forall x :: x in xs ==> x <= m
  {
    if |xs| == 1 then xs[0]
    else
      var m := Greatest(xs[1..]);
      assert forall x :: x in xs ==> x == xs[0] || x in xs[1..];
      if xs[0] >= m then xs[0] else m
  }

  /** The phrase set defines the minimum `m` when some phrase contributes
      it and no phrase contributes less. */
  ghost predicate IsLeastMin(ps: seq<Phrase>, m: nat) {
    && (exists p :: p in ps && MinOf(p) == Some(m))
    && (forall p :: p in ps && MinOf(p).Some? ==> m <= MinOf(p).value)
  }

  ghost predicate IsGreatestMax(ps: seq<Phrase>, m: nat) {
    && (exists p :: p in ps && MaxOf(p) == Some(m))
    && (forall p :: p in ps && MaxOf(p).Some? ==> MaxOf(p).value <= m)
  }

  lemma MinPart(ps: seq<Phrase>)
    ensures var mins := Collect(ps, MinOf);
      && (|mins| == 0 <==> forall p :: p in ps ==> MinOf(p).None?)
      && (|mins| > 0 ==> IsLeastMin(ps, Least(mins)))
  {
  }

  lemma MaxPart(ps: seq<Phrase>)
    ensures var maxs := Collect(ps, MaxOf);
      && (|maxs| == 0 <==> forall p :: p in ps ==> MaxOf(p).None?)
      && (|maxs| > 0 ==> IsGreatestMax(ps, Greatest(maxs)))
  {
  }

  /** `parse_required_experience`: the minimum of all contributed minima and
      the maximum of all contributed maxima. */
  function ParseRequiredExperience(ps: seq<Phrase>): (w: Window)
    ensures w.min.None? <==> forall p :: p in ps ==> MinOf(p).None?
    ensures w.min.Some? ==> IsLeastMin(ps, w.min.value)
    ensures w.max.None? <==> forall p :: p in ps ==> MaxOf(p).None?
    ensures w.max.Some? ==> IsGreatestMax(ps, w.max.value)
  {
    var mins := Collect(ps, MinOf);
    var maxs := Collect(ps, MaxOf);
    MinPart(ps);
    MaxPart(ps);
    Window(if |mins| > 0 then Some(Least(mins)) else None,
           if |maxs| > 0 then Some(Greatest(maxs)) else None)
  }

  /** A maximum is only ever reported together with a minimum. */
  lemma MaxImpliesMin(ps: seq<Phrase>)
    ensures ParseRequiredExperience(ps).max.Some? ==> ParseRequiredExperience(ps).min.Some?
  {
    var w := ParseRequiredExperience(ps);
    if w.max.Some? {
      var p :| p in ps && MaxOf(p) == w.max;
      MaxNeedsMin(p);
    }
  }

  lemma EmptyIsUnspecified()
    ensures ParseRequiredExperience([]) == Window(None, None)
  {
  }

  /** Any "fresh" phrase pulls the minimum down to 0. */
  lemma FreshMeansZeroMin(ps: seq<Phrase>, i: nat)
    requires i < |ps| && ps[i].Fresh?
    ensures ParseRequiredExperience(ps).min == Some(0)
  {
    var w := ParseRequiredExperience(ps);
    assert w.min.Some? && w.min.value == 0 by {
      var p := ps[i];
      assert p in ps && MinOf(p) == Some(0);
      assert w.min.value <= MinOf(p).value;
    }
  }

  /** Two phrase lists with the same members have the same least minimum. */
  lemma LeastMinAgrees(ps: seq<Phrase>, qs: seq<Phrase>, x: nat, y: nat)
    requires forall p :: p in ps <==> p in qs
    requires IsLeastMin(ps, x) && IsLeastMin(qs, y)
    ensures x == y
  {
    var p :| p in ps && MinOf(p) == Some(x);
    var q :| q in qs && MinOf(q) == Some(y);
    assert p in qs && q in ps;
  }

  lemma GreatestMaxAgrees(ps: seq<Phrase>, qs: seq<Phrase>, x: nat, y: nat)
    requires forall p :: p in ps <==> p in qs
    requires IsGreatestMax(ps, x) && IsGreatestMax(qs, y)
    ensures x == y
  {
    var p :| p in ps && MaxOf(p) == Some(x);
    var q :| q in qs && MaxOf(q) == Some(y);
    assert p in qs && q in ps;
  }

  lemma SameMinimum(ps: seq<Phrase>, qs: seq<Phrase>)
    requires forall p :: p in ps <==> p in qs
    ensures ParseRequiredExperience(ps).min == ParseRequiredExperience(qs).min
  {
    var a := ParseRequiredExperience(ps);
    var b := ParseRequiredExperience(qs);
    if a.min.Some? && b.min.Some? {
      LeastMinAgrees(ps, qs, a.min.value, b.min.value);
    }
  }

  lemma SameMaximum(ps: seq<Phrase>, qs: seq<Phrase>)
    requires forall p :: p in ps <==> p in qs
    ensures ParseRequiredExperience(ps).max == ParseRequiredExperience(qs).max
  {
    var a := ParseRequiredExperience(ps);
    var b := ParseRequiredExperience(qs);
    if a.max.Some? && b.max.Some? {
      GreatestMaxAgrees(ps, qs, a.max.value, b.max.value);
    }
  }

  /** The window depends only on which phrases occur: not on their order,
      nor on repetitions. */
  lemma OrderIndependent(ps: seq<Phrase>, qs: seq<Phrase>)
    requires forall p :: p in ps <==> p in qs
    ensures ParseRequiredExperience(ps) == ParseRequiredExperience(qs)
  {
    SameMinimum(ps, qs);
    SameMaximum(ps, qs);
  }

  lemma RangeInYears()
    ensures ParseRequiredExperience([RangeYears(1, 2)]) == Window(Some(12), Some(24))
  {
    assert RangeYears(1, 2) in [RangeYears(1, 2)];
  }

  lemma FreshToSixMonths()
    ensures ParseRequiredExperience([Fresh(Some(6))]) == Window(Some(0), Some(6))
  {
    assert Fresh(Some(6)) in [Fresh(Some(6))];
  }

  /** "fresh to 2 years" gives a minimum of 0 and no maximum. */
  lemma FreshToYearsIsUnbounded()
    ensures ParseRequiredExperience([Fresh(None)]) == Window(Some(0), None)
  {
    assert Fresh(None) in [Fresh(None)];
  }

  lemma YearsAndRange()
    ensures ParseRequiredExperience([Years(2), RangeYears(3, 5)]) == Window(Some(24), Some(60))
  {
    var ps := [Years(2), RangeYears(3, 5)];
    assert Years(2) in ps && RangeYears(3, 5) in ps;
    assert forall p :: p in ps ==> p == Years(2) || p == RangeYears(3, 5);
  }

  /** Nothing orders a range's ends: "5-2 months" gives minimum 5, maximum 2. */
  lemma InvertedRangeKept()
    ensures ParseRequiredExperience([RangeMonths(5, 2)]) == Window(Some(5), Some(2))
  {
    assert RangeMonths(5, 2) in [RangeMonths(5, 2)];
  }
}
