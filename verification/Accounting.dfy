/** Counting a run's verdicts, its unattributable rates, and the ceiling on one of them. */
module Accounting {
  import opened Text
  import opened Audit
  import opened Population
  import opened Verdicts
  import opened Differ
  import Policy
  import WriteReplay

  // ----- counting

  datatype PopulationCounts = PopulationCounts(noDeclaredTable: nat, structuralOnly: nat, rowLevelUnattributed: nat, nonQuery: nat)

  datatype Counts = Counts(safe: nat, leak: nat, unattributable: nat, vacuousSafe: nat, population: PopulationCounts)

  datatype Bucket = SafeBucket | VacuousBucket | LeakBucket | UnattributableBucket | PopulationBucket(population: Population)

  predicate Falls(v: QueryVerdict, b: Bucket) {
    match b
    case SafeBucket => v.result.verdict == Safe
    case VacuousBucket => v.result.verdict == Safe && v.result.vacuous
    case LeakBucket => v.result.verdict == Leak
    case UnattributableBucket => v.result.verdict == Unattributable
    case PopulationBucket(p) => v.result.verdict == Unattributable && v.population == Some(p)
  }

  /** How many of the first n verdicts fall into the bucket. */
  function Tally(queries: seq<QueryVerdict>, n: nat, b: Bucket): nat
    requires n <= |queries|
  {
    if n == 0 then 0 else Tally(queries, n - 1, b) + if Falls(queries[n - 1], b) then 1 else 0
  }

  function CountsOf(queries: seq<QueryVerdict>, n: nat): Counts
    requires n <= |queries|
  {
    Counts(Tally(queries, n, SafeBucket), Tally(queries, n, LeakBucket), Tally(queries, n, UnattributableBucket),
           Tally(queries, n, VacuousBucket),
           PopulationCounts(
             Tally(queries, n, PopulationBucket(NoDeclaredTable)), Tally(queries, n, PopulationBucket(StructuralOnly)),
             Tally(queries, n, PopulationBucket(RowLevelUnattributed)), Tally(queries, n, PopulationBucket(NonQuery))))
  }

  method CountVerdicts(queries: seq<QueryVerdict>) returns (counts: Counts)
    ensures counts == CountsOf(queries, |queries|)
  {
    counts := Counts(0, 0, 0, 0, PopulationCounts(0, 0, 0, 0));
    for i := 0 to |queries|
      invariant counts == CountsOf(queries, i)
    {
      var q := queries[i];
      match q.result.verdict
      case Safe =>
        counts := counts.(safe := counts.safe + 1);
        if q.result.vacuous {
          counts := counts.(vacuousSafe := counts.vacuousSafe + 1);
        }
      case Leak =>
        counts := counts.(leak := counts.leak + 1);
      case Unattributable =>
        counts := counts.(unattributable := counts.unattributable + 1);
        var p := counts.population;
        match q.population
        case None =>
        case Some(NoDeclaredTable) =>
          counts := counts.(population := p.(noDeclaredTable := p.noDeclaredTable + 1));
        case Some(StructuralOnly) =>
          counts := counts.(population := p.(structuralOnly := p.structuralOnly + 1));
        case Some(RowLevelUnattributed) =>
          counts := counts.(population := p.(rowLevelUnattributed := p.rowLevelUnattributed + 1));
        case Some(NonQuery) =>
          counts := counts.(population := p.(nonQuery := p.nonQuery + 1));
    }
  }

  /** Every unattributable verdict carries its population, and no other verdict does. */
  predicate Classified(queries: seq<QueryVerdict>) {
    forall i :: 0 <= i < |queries| ==> (queries[i].population.Some? <==> queries[i].result.verdict == Unattributable)
  }

  /** The verdicts add up to the queries, the populations to the unattributable ones. */
  lemma {:induction false} CountsAddUp(queries: seq<QueryVerdict>, n: nat)
    requires n <= |queries| && Classified(queries)
    ensures var c := CountsOf(queries, n);
            && c.safe + c.leak + c.unattributable == n
            && c.vacuousSafe <= c.safe
            && c.population.noDeclaredTable + c.population.structuralOnly
               + c.population.rowLevelUnattributed + c.population.nonQuery == c.unattributable
  {
    if n > 0 {
      CountsAddUp(queries, n - 1);
      var q := queries[n - 1];
      assert q.population.Some? ==>
               q.population.value == NoDeclaredTable || q.population.value == StructuralOnly
               || q.population.value == RowLevelUnattributed || q.population.value == NonQuery;
      assert q.result.verdict == Safe || q.result.verdict == Leak || q.result.verdict == Unattributable;
    }
  }

  // ----- rates

  datatype Entry = Entry(caption: string, denominator: int, unattributable: int, rate: real)

  datatype Candidate = Candidate(caption: string, denominator: int, unattributable: int)

  const ALL := "all_captured_queries"
  const REAL_APP := "real_app_sql_any_table"
  const DECLARED := "real_app_sql_touching_any_declared_table"
  const ROW_LEVEL := "row_level_touching_real_app_sql"

  function Attributed(c: Counts): int {
    c.safe - c.vacuousSafe + c.leak
  }

  function Candidates(c: Counts, total: nat): seq<Candidate> {
    var p := c.population;
    [Candidate(ALL, total, c.unattributable),
     Candidate(REAL_APP, total - p.nonQuery, c.unattributable - p.nonQuery),
     Candidate(DECLARED, Attributed(c) + p.structuralOnly + p.rowLevelUnattributed, p.structuralOnly + p.rowLevelUnattributed),
     Candidate(ROW_LEVEL, Attributed(c) + p.rowLevelUnattributed, p.rowLevelUnattributed)]
  }

  /** The entries for the first n candidates; an empty denominator gives none. */
  function Entries(cs: seq<Candidate>, n: nat): seq<Entry>
    requires n <= |cs|
  {
    if n == 0 then []
    else
      var c := cs[n - 1];
      Entries(cs, n - 1)
      + if c.denominator == 0 then []
        else [Entry(c.caption, c.denominator, c.unattributable, c.unattributable as real / c.denominator as real)]
  }

  method UnattributableRateBreakdown(counts: Counts, total: nat) returns (out: seq<Entry>)
    ensures out == Entries(Candidates(counts, total), 4)
  {
    var candidates := Candidates(counts, total);
    out := [];
    var i := 0;
    while i < |candidates|
      invariant 0 <= i <= |candidates| && candidates == Candidates(counts, total)
      invariant out == Entries(candidates, i)
    {
      var c := candidates[i];
      i := i + 1;
      if c.denominator == 0 {
        continue;
      }
      out := out + [Entry(c.caption, c.denominator, c.unattributable, c.unattributable as real / c.denominator as real)];
    }
  }

  /** A LEAK, or a SAFE that saw some row. */
  predicate Judged(v: QueryVerdict) {
    v.result.verdict == Leak || (v.result.verdict == Safe && !v.result.vacuous)
  }

  /** Which verdicts the entry's rate is over: all; all but non-queries; those judged on rows and those on a
      declared relation; those judged on rows and those on a relation proven at row level. */
  predicate InScope(v: QueryVerdict, entry: nat) {
    if entry == 0 then true
    else if entry == 1 then v.population != Some(NonQuery)
    else if entry == 2 then Judged(v) || v.population == Some(StructuralOnly) || v.population == Some(RowLevelUnattributed)
    else Judged(v) || v.population == Some(RowLevelUnattributed)
  }

  /** How many of the first n verdicts are in the entry's scope, or of these how many are unattributable. */
  function ScopeSize(queries: seq<QueryVerdict>, n: nat, entry: nat, unattributable: bool): nat
    requires n <= |queries|
  {
    if n == 0 then 0
    else
      var v := queries[n - 1];
      ScopeSize(queries, n - 1, entry, unattributable)
      + if InScope(v, entry) && (unattributable ==> v.result.verdict == Unattributable) then 1 else 0
  }

  predicate SizesAgree(queries: seq<QueryVerdict>, n: nat, e: nat)
    requires n <= |queries| && e < 4
  {
    var c := Candidates(CountsOf(queries, n), n)[e];
    c.denominator == ScopeSize(queries, n, e, false) && c.unattributable == ScopeSize(queries, n, e, true)
  }

  lemma {:induction false} ScopeSizes(queries: seq<QueryVerdict>, n: nat, e: nat)
    requires n <= |queries| && Classified(queries) && e < 4
    ensures SizesAgree(queries, n, e)
    decreases n
  {
    hide *;
    if n == 0 {
      NothingInScope(queries, e);
    } else {
      ScopeSizes(queries, n - 1, e);
      ScopeStep(queries, n);
      OneMoreInScope(queries, n, e);
    }
  }

  lemma NothingInScope(queries: seq<QueryVerdict>, e: nat)
    requires e < 4
    ensures SizesAgree(queries, 0, e)
  {
    hide CountsOf, ScopeSize, Candidates;
    NothingCounted(queries, e);
    EmptyCandidates(CountsOf(queries, 0), e);
  }

  predicate IsNothing(c: Counts) {
    c.safe == c.leak == c.unattributable == c.vacuousSafe == 0
    && c.population.noDeclaredTable == c.population.structuralOnly == 0
    && c.population.rowLevelUnattributed == c.population.nonQuery == 0
  }

  lemma NothingCounted(queries: seq<QueryVerdict>, e: nat)
    ensures IsNothing(CountsOf(queries, 0))
    ensures ScopeSize(queries, 0, e, false) == 0 && ScopeSize(queries, 0, e, true) == 0
  {
    hide InScope, Falls;
  }

  lemma EmptyCandidates(c: Counts, e: nat)
    requires IsNothing(c) && e < 4
    ensures Candidates(c, 0)[e].denominator == 0 && Candidates(c, 0)[e].unattributable == 0
  {
    hide *;
    CandidateAt(c, 0, e);
    NothingAttributed(c);
  }

  lemma NothingAttributed(c: Counts)
    requires IsNothing(c)
    ensures Attributed(c) == c.unattributable == c.population.nonQuery == 0
    ensures c.population.structuralOnly == c.population.rowLevelUnattributed == 0
  {
  }

  function CaptionOf(e: nat): string {
    if e == 0 then ALL else if e == 1 then REAL_APP else if e == 2 then DECLARED else ROW_LEVEL
  }

  lemma CandidateAt(c: Counts, total: nat, e: nat)
    requires e < 4
    ensures var p, r := c.population, Candidates(c, total)[e];
            && r.caption == CaptionOf(e)
            && (e == 0 ==> r.denominator == total && r.unattributable == c.unattributable)
            && (e == 1 ==> r.denominator == total - p.nonQuery && r.unattributable == c.unattributable - p.nonQuery)
            && (e == 2 ==> r.denominator == Attributed(c) + r.unattributable
                           && r.unattributable == p.structuralOnly + p.rowLevelUnattributed)
            && (e == 3 ==> r.denominator == Attributed(c) + r.unattributable && r.unattributable == p.rowLevelUnattributed)
  {
    hide Attributed;
  }

  lemma OneMoreInScope(queries: seq<QueryVerdict>, n: nat, e: nat)
    requires 0 < n <= |queries| && e < 4 && SizesAgree(queries, n - 1, e)
    requires var a, b := Candidates(CountsOf(queries, n - 1), n - 1)[e], Candidates(CountsOf(queries, n), n)[e];
             && b.denominator - a.denominator == (if InScope(queries[n - 1], e) then 1 else 0)
             && b.unattributable - a.unattributable
                == if InScope(queries[n - 1], e) && queries[n - 1].result.verdict == Unattributable then 1 else 0
    ensures SizesAgree(queries, n, e)
  {
    hide Candidates, CountsOf, InScope;
  }

  lemma ScopeStep(queries: seq<QueryVerdict>, n: nat)
    requires 0 < n <= |queries| && Classified(queries)
    ensures var a, b := Candidates(CountsOf(queries, n - 1), n - 1), Candidates(CountsOf(queries, n), n);
            forall e :: 0 <= e < 4 ==>
              && b[e].denominator - a[e].denominator == (if InScope(queries[n - 1], e) then 1 else 0)
              && b[e].unattributable - a[e].unattributable
                 == if InScope(queries[n - 1], e) && queries[n - 1].result.verdict == Unattributable then 1 else 0
  {
    var v := queries[n - 1];
    assert v.population.Some? ==>
             v.population.value == NoDeclaredTable || v.population.value == StructuralOnly
             || v.population.value == RowLevelUnattributed || v.population.value == NonQuery;
    assert v.result.verdict == Safe || v.result.verdict == Leak || v.result.verdict == Unattributable;
  }

  /** What the four rates are rates of. */
  lemma RateMeaning(queries: seq<QueryVerdict>)
    requires Classified(queries)
    ensures var cs := Candidates(CountsOf(queries, |queries|), |queries|);
            && |cs| == 4
            && cs[0].caption == "all_captured_queries" && cs[1].caption == "real_app_sql_any_table"
            && cs[2].caption == "real_app_sql_touching_any_declared_table"
            && cs[3].caption == "row_level_touching_real_app_sql"
            && forall e :: 0 <= e < 4 ==>
                 && cs[e].denominator == ScopeSize(queries, |queries|, e, false)
                 && cs[e].unattributable == ScopeSize(queries, |queries|, e, true)
  {
    var n := |queries|;
    hide CountsOf, ScopeSize;
    forall e | 0 <= e < 4
      ensures Candidates(CountsOf(queries, n), n)[e].denominator == ScopeSize(queries, n, e, false)
      ensures Candidates(CountsOf(queries, n), n)[e].unattributable == ScopeSize(queries, n, e, true)
    {
      ScopeSizes(queries, n, e);
      assert SizesAgree(queries, n, e);
    }
  }

  /** The four denominators only shrink, and so do the four numerators; each denominator bounds its
      numerator. */
  lemma DenominatorChain(queries: seq<QueryVerdict>)
    requires Classified(queries)
    ensures var cs := Candidates(CountsOf(queries, |queries|), |queries|);
            && (forall i :: 0 <= i < 4 ==> 0 <= cs[i].unattributable <= cs[i].denominator)
            && (forall i :: 0 <= i < 3 ==>
                  cs[i + 1].denominator <= cs[i].denominator && cs[i + 1].unattributable <= cs[i].unattributable)
  {
    CountsAddUp(queries, |queries|);
    hide Tally;
  }

  // ----- the ceiling

  const CEILING_RATE: real := 18.0 / 762.0

  /** The first entry with the ceiling's label decides; without one nothing is exceeded. */
  method CheckUnattributableCeiling(breakdown: seq<Entry>) returns (exceeded: bool)
    ensures exceeded <==> Exceeds(breakdown, 0)
  {
    var i := 0;
    while i < |breakdown|
      invariant 0 <= i <= |breakdown| && Exceeds(breakdown, 0) == Exceeds(breakdown, i)
    {
      var e := breakdown[i];
      if e.caption != ROW_LEVEL {
        i := i + 1;
        continue;
      }
      return e.rate > CEILING_RATE;
    }
    return false;
  }

  predicate Exceeds(breakdown: seq<Entry>, i: nat)
    requires i <= |breakdown|
    decreases |breakdown| - i
  {
    i < |breakdown|
    && if breakdown[i].caption == ROW_LEVEL then breakdown[i].rate > CEILING_RATE else Exceeds(breakdown, i + 1)
  }

  /** The ceiling in whole numbers, on what was attributed and what could have been. */
  predicate Breached(c: Counts) {
    762 * c.population.rowLevelUnattributed > 18 * (Attributed(c) + c.population.rowLevelUnattributed)
  }

  /** The rate is a fraction of non-negative whole numbers, so comparing it is comparing products. */
  lemma RateAgainstCeiling(u: nat, d: nat)
    requires d > 0
    ensures u as real / d as real > CEILING_RATE <==> 762 * u > 18 * d
  {
    var rate, ceiling := u as real / d as real, CEILING_RATE;
    assert rate * d as real == u as real;
    assert ceiling * 762.0 == 18.0;
    ProductOrder(rate, ceiling, d as real);
    assert 762.0 * (ceiling * d as real) == 18.0 * d as real;
    assert (762 * u) as real == 762.0 * u as real && (18 * d) as real == 18.0 * d as real;
  }

  lemma ProductOrder(a: real, b: real, d: real)
    requires d > 0.0
    ensures a > b <==> a * d > b * d
  {
    assert (a - b) * d == a * d - b * d;
    assert a > b ==> (a - b) * d > 0.0;
    assert a <= b ==> (b - a) * d >= 0.0;
  }

  lemma DistinctCaptions(c: Counts, total: nat)
    ensures var cs := Candidates(c, total);
            cs[0].caption != ROW_LEVEL && cs[1].caption != ROW_LEVEL && cs[2].caption != ROW_LEVEL && cs[3].caption == ROW_LEVEL
  {
    assert |ALL| != |ROW_LEVEL| && |REAL_APP| != |ROW_LEVEL| && |DECLARED| != |ROW_LEVEL|;
  }

  /** Entries for other populations never decide. */
  lemma {:induction false} OthersPass(cs: seq<Candidate>, n: nat, more: seq<Entry>)
    requires n <= |cs| && forall i :: 0 <= i < n ==> cs[i].caption != ROW_LEVEL
    ensures Exceeds(Entries(cs, n) + more, 0) <==> Exceeds(more, 0)
  {
    if n == 0 {
      assert [] + more == more;
    } else {
      var c := cs[n - 1];
      if c.denominator == 0 {
        assert Entries(cs, n) == Entries(cs, n - 1);
        OthersPass(cs, n - 1, more);
      } else {
        var e := Entry(c.caption, c.denominator, c.unattributable, c.unattributable as real / c.denominator as real);
        assert Entries(cs, n) + more == Entries(cs, n - 1) + ([e] + more);
        OthersPass(cs, n - 1, [e] + more);
        ExceedsTail([e] + more, more);
      }
    }
  }

  lemma {:induction false} ExceedsSuffix(a: seq<Entry>, b: seq<Entry>, i: nat)
    requires |a| == |b| + 1 && a[1..] == b && i <= |b|
    ensures Exceeds(a, i + 1) <==> Exceeds(b, i)
    decreases |b| - i
  {
    if i < |b| {
      assert a[i + 1] == b[i];
      ExceedsSuffix(a, b, i + 1);
    }
  }

  lemma ExceedsTail(a: seq<Entry>, more: seq<Entry>)
    requires |a| == |more| + 1 && a[1..] == more && a[0].caption != ROW_LEVEL
    ensures Exceeds(a, 0) <==> Exceeds(more, 0)
  {
    ExceedsSuffix(a, more, 0);
  }

  /** The check over the reported rates is the comparison in whole numbers, also when the denominator
      is empty and the entry is missing. */
  lemma CeilingExact(queries: seq<QueryVerdict>)
    requires Classified(queries)
    ensures var c := CountsOf(queries, |queries|);
            Exceeds(Entries(Candidates(c, |queries|), 4), 0) <==> Breached(c)
  {
    var c := CountsOf(queries, |queries|);
    var cs := Candidates(c, |queries|);
    CountsAddUp(queries, |queries|);
    hide Tally;
    DistinctCaptions(c, |queries|);
    var u, d := c.population.rowLevelUnattributed, Attributed(c) + c.population.rowLevelUnattributed;
    var last := if d == 0 then [] else [Entry(ROW_LEVEL, d, u, u as real / d as real)];
    assert Entries(cs, 4) == Entries(cs, 3) + last;
    OthersPass(cs, 3, last);
    if d > 0 {
      RateAgainstCeiling(u, d);
      assert Exceeds(last, 0) <==> u as real / d as real > CEILING_RATE;
    }
  }

  // ----- what adding one query does

  /** The run with one more verdict, wherever it comes. */
  function With(queries: seq<QueryVerdict>, k: nat, v: QueryVerdict): seq<QueryVerdict>
    requires k <= |queries|
  {
    queries[..k] + [v] + queries[k..]
  }

  lemma {:induction false} TallyPrefix(a: seq<QueryVerdict>, b: seq<QueryVerdict>, n: nat, bucket: Bucket)
    requires n <= |a| && n <= |b| && forall i :: 0 <= i < n ==> a[i] == b[i]
    ensures Tally(a, n, bucket) == Tally(b, n, bucket)
  {
    if n > 0 {
      TallyPrefix(a, b, n - 1, bucket);
    }
  }

  lemma {:induction false} TallyWith(queries: seq<QueryVerdict>, k: nat, v: QueryVerdict, n: nat, bucket: Bucket)
    requires k <= n <= |queries|
    ensures Tally(With(queries, k, v), n + 1, bucket) == Tally(queries, n, bucket) + if Falls(v, bucket) then 1 else 0
    decreases n
  {
    var more := With(queries, k, v);
    if n == k {
      TallyPrefix(queries, more, k, bucket);
      assert more[k] == v;
    } else {
      TallyWith(queries, k, v, n - 1, bucket);
      assert more[n] == queries[n - 1];
    }
  }

  /** What one more verdict adds to the two numbers the ceiling compares. */
  lemma BreachInputs(queries: seq<QueryVerdict>, k: nat, v: QueryVerdict)
    requires k <= |queries|
    ensures var c, d := CountsOf(queries, |queries|), CountsOf(With(queries, k, v), |queries| + 1);
            && Attributed(d) == Attributed(c) + (if v.result.verdict == Leak || (v.result.verdict == Safe && !v.result.vacuous) then 1 else 0)
            && d.population.rowLevelUnattributed
               == c.population.rowLevelUnattributed
                  + (if v.result.verdict == Unattributable && v.population == Some(RowLevelUnattributed) then 1 else 0)
  {
    TallyWith(queries, k, v, |queries|, SafeBucket);
    TallyWith(queries, k, v, |queries|, VacuousBucket);
    TallyWith(queries, k, v, |queries|, LeakBucket);
    TallyWith(queries, k, v, |queries|, PopulationBucket(RowLevelUnattributed));
    hide Tally, With;
  }

  /** A vacuous SAFE, and an unattributable query that touches nothing proven at row level, leave the
      ceiling where it is; a real SAFE or a LEAK never breaches it anew; a failed attribution over a
      row-level relation never clears it. */
  lemma CeilingStable(queries: seq<QueryVerdict>, k: nat, v: QueryVerdict)
    requires k <= |queries|
    ensures var before, after := Breached(CountsOf(queries, |queries|)), Breached(CountsOf(With(queries, k, v), |queries| + 1));
            && (v.result.verdict == Safe && v.result.vacuous ==> after == before)
            && (v.result.verdict == Unattributable && v.population != Some(RowLevelUnattributed) ==> after == before)
            && (v.result.verdict == Safe || v.result.verdict == Leak ==> (after ==> before))
            && (v.result.verdict == Unattributable && v.population == Some(RowLevelUnattributed) ==> (before ==> after))
  {
    BreachInputs(queries, k, v);
    hide CountsOf;
  }

  // ----- the report's numbers

  lemma {:induction false} VerdictsClassified(t: WriteReplay.Table, rowLevel: seq<Policy.Relation>, structuralOnly: seq<Policy.Relation>,
                                              events: seq<Captured>, n: nat)
    requires n <= |events|
    ensures Classified(VerdictsOf(t, rowLevel, structuralOnly, events, n))
  {
    if n > 0 {
      VerdictsClassified(t, rowLevel, structuralOnly, events, n - 1);
      hide DiffVerdict, PopulationOf;
    }
  }

  /** Counts, rates and the ceiling's answer for one run; a run without queries reports no rates. */
  method Summarize(queries: seq<QueryVerdict>) returns (counts: Counts, breakdown: seq<Entry>, exceeded: bool)
    requires Classified(queries)
    ensures counts == CountsOf(queries, |queries|)
    ensures breakdown == if queries == [] then [] else Entries(Candidates(counts, |queries|), 4)
    ensures exceeded <==> Breached(counts)
  {
    hide *;
    CeilingExact(queries);
    NothingExceeded(queries);
    counts := CountVerdicts(queries);
    breakdown := [];
    if |queries| > 0 {
      breakdown := UnattributableRateBreakdown(counts, |queries|);
    }
    exceeded := CheckUnattributableCeiling(breakdown);
  }

  lemma NothingExceeded(queries: seq<QueryVerdict>)
    ensures !Exceeds([], 0) && (queries == [] ==> !Breached(CountsOf(queries, |queries|)))
  {
  }
}
