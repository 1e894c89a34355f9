/** The per-query verdict loop, and what a verdict owes to the gate. */
module Audit {
  import opened Text
  import opened Cells
  import opened Attribution
  import opened Differ
  import opened Gate
  import opened Oracle
  import opened Population
  import opened Verdicts
  import Policy
  import Session
  import WriteReplay

  /** A captured event, what the regular expressions find in its text, and the databases' answers. */
  datatype Captured = Captured(event: Session.Event, q: Sql, answers: Answers)

  datatype QueryVerdict = QueryVerdict(result: Result, population: Option<Population>)

  predicate Executes(e: Captured) {
    e.event.kind == Session.KindBind || e.event.kind == Session.KindQuery
  }

  /** The verdict on one event. */
  ghost function VerdictOf(t: WriteReplay.Table, rowLevel: seq<Policy.Relation>, structuralOnly: seq<Policy.Relation>,
                           e: Captured): QueryVerdict
  {
    var r := DiffVerdict(t, e.q, e.event.resolved, rowLevel, e.event.params, e.answers);
    QueryVerdict(r, if r.verdict == Unattributable then Some(PopulationOf(e.q, rowLevel, structuralOnly)) else None)
  }

  /** The verdicts on the first n events; only executions get one. */
  ghost function VerdictsOf(t: WriteReplay.Table, rowLevel: seq<Policy.Relation>, structuralOnly: seq<Policy.Relation>,
                            events: seq<Captured>, n: nat): seq<QueryVerdict>
    requires n <= |events|
  {
    if n == 0 then []
    else
      VerdictsOf(t, rowLevel, structuralOnly, events, n - 1)
      + if Executes(events[n - 1]) then [VerdictOf(t, rowLevel, structuralOnly, events[n - 1])] else []
  }

  method JudgeQueries(server: WriteReplay.Server, rowLevel: seq<Policy.Relation>, structuralOnly: seq<Policy.Relation>,
                      events: seq<Captured>)
    returns (queries: seq<QueryVerdict>)
    modifies server
    ensures server.table == old(server.table)
    ensures queries == VerdictsOf(server.table, rowLevel, structuralOnly, events, |events|)
  {
    queries := [];
    hide DiffVerdict, PopulationOf;
    for i := 0 to |events|
      invariant server.table == old(server.table)
      invariant queries == VerdictsOf(server.table, rowLevel, structuralOnly, events, i)
    {
      var e := events[i];
      if e.event.kind != Session.KindBind && e.event.kind != Session.KindQuery {
        continue;
      }
      var r := Diff(server, e.q, e.event.resolved, rowLevel, e.event.params, e.answers);
      var population: Option<Population> := None;
      if r.verdict == Unattributable {
        var p := ClassifyUnattributable(e.q, rowLevel, structuralOnly);
        population := Some(p);
      }
      queries := queries + [QueryVerdict(r, population)];
    }
  }

  datatype Report = NoReport(exitCode: nat) | Report(queries: seq<QueryVerdict>)

  /** Gate first; the differ only ever sees the relations proven at row level. */
  method RunAudit(server: WriteReplay.Server, rels: seq<Policy.Relation>, probe: Probe, events: seq<Captured>)
    returns (report: Report)
    modifies server
    ensures server.table == old(server.table)
    ensures report.NoReport? <==> GateVerdict(rels, probe).Refused?
    ensures report.NoReport? ==> report.exitCode == ExitCodeFor(GateVerdict(rels, probe).error)
    ensures report.Report? ==>
              var g := GateVerdict(rels, probe);
              report.queries == VerdictsOf(server.table, g.rowLevel, g.structuralOnly, events, |events|)
  {
    var result, _ := RunGate(rels, probe);
    if result.Refused? {
      return NoReport(ExitCodeFor(result.error));
    }
    hide GateVerdict;
    var queries := JudgeQueries(server, result.rowLevel, result.structuralOnly, events);
    return Report(queries);
  }

  // ----- soundness

  /** A relation that carries a verdict: declared scoped, seeded, past both controls, and named by the
      statement. */
  predicate Backs(r: Policy.Relation, rels: seq<Policy.Relation>, probe: Probe, q: Sql) {
    r in rels && r.class_ == Policy.Scoped && Policy.Key(r) in q.tables
    && probe.seedFailure(r) == None && probe.a1(r) && probe.a4(r) == None
  }

  /** The run was proven, and gives the event a SAFE or a LEAK. */
  ghost predicate Judges(g: GateResult, t: WriteReplay.Table, e: Captured) {
    g.Proven? && VerdictOf(t, g.rowLevel, g.structuralOnly, e).result.verdict != Unattributable
  }

  /** Every SAFE or LEAK of a run names a relation that passed both controls. */
  lemma VerdictBacked(rels: seq<Policy.Relation>, probe: Probe, t: WriteReplay.Table, e: Captured)
    requires TargetNamed(e.q)
    ensures Judges(GateVerdict(rels, probe), t, e) ==> exists r :: Backs(r, rels, probe, e.q)
  {
    hide DiffVerdict, PopulationOf, GateVerdict;
    var g := GateVerdict(rels, probe);
    if Judges(g, t, e) {
      VerdictAttributed(t, e.q, e.event.resolved, g.rowLevel, e.event.params, e.answers);
      var k :| NamesScoped(e.q, g.rowLevel, k);
      RowLevelSound(rels, probe, g.rowLevel[k]);
      assert Backs(g.rowLevel[k], rels, probe, e.q);
    }
  }

  lemma VerdictTouches(rowLevel: seq<Policy.Relation>, structuralOnly: seq<Policy.Relation>, t: WriteReplay.Table, e: Captured)
    requires TargetNamed(e.q)
    ensures VerdictOf(t, rowLevel, structuralOnly, e).result.verdict != Unattributable ==> Touches(e.q.tables, rowLevel)
  {
    hide DiffVerdict, PopulationOf;
    VerdictAttributed(t, e.q, e.event.resolved, rowLevel, e.event.params, e.answers);
    if VerdictOf(t, rowLevel, structuralOnly, e).result.verdict != Unattributable {
      var k :| NamesScoped(e.q, rowLevel, k);
      assert Policy.Key(rowLevel[k]) in e.q.tables;
    }
  }

  /** A statement that names no relation proven at row level gets no verdict, and is not counted among
      those where attribution was possible. */
  lemma UntouchedNeverJudged(rels: seq<Policy.Relation>, probe: Probe, t: WriteReplay.Table, e: Captured)
    requires TargetNamed(e.q)
    ensures var g := GateVerdict(rels, probe);
            g.Proven? && !Touches(e.q.tables, g.rowLevel) ==>
              var v := VerdictOf(t, g.rowLevel, g.structuralOnly, e);
              v.result.verdict == Unattributable && v.population.Some? && v.population != Some(RowLevelUnattributed)
  {
    hide DiffVerdict, GateVerdict;
    var g := GateVerdict(rels, probe);
    if g.Proven? {
      VerdictTouches(g.rowLevel, g.structuralOnly, t, e);
    }
  }

  /** Which population an unattributable statement is counted in: the non-queries, then those naming a
      relation proven at row level, then those naming one proven only structurally, then the others. */
  lemma PopulationMeaning(rowLevel: seq<Policy.Relation>, structuralOnly: seq<Policy.Relation>, t: WriteReplay.Table,
                          e: Captured)
    ensures var v := VerdictOf(t, rowLevel, structuralOnly, e);
            var proven := exists k :: 0 <= k < |rowLevel| && Policy.Key(rowLevel[k]) in e.q.tables;
            var partly := exists k :: 0 <= k < |structuralOnly| && Policy.Key(structuralOnly[k]) in e.q.tables;
            && (v.population.Some? <==> v.result.verdict == Unattributable)
            && (v.population.Some? ==>
                  && (v.population.value == NonQuery <==> NonQueryText(e.q.text))
                  && (v.population.value == RowLevelUnattributed <==> !NonQueryText(e.q.text) && proven)
                  && (v.population.value == StructuralOnly <==> !NonQueryText(e.q.text) && !proven && partly)
                  && (v.population.value == NoDeclaredTable <==> !NonQueryText(e.q.text) && !proven && !partly))
  {
    hide DiffVerdict, NonQueryText;
  }

  /** The verdict on an event is that on its own statement, parameters and resolution, against the relations
      proven at row level; every execution has one and nothing else does. */
  lemma {:induction false} ExecutionsJudged(t: WriteReplay.Table, rowLevel: seq<Policy.Relation>,
                                            structuralOnly: seq<Policy.Relation>, events: seq<Captured>, n: nat, i: nat)
    requires i < n <= |events|
    ensures var e, before := events[i], |VerdictsOf(t, rowLevel, structuralOnly, events, i)|;
            var all := VerdictsOf(t, rowLevel, structuralOnly, events, n);
            if e.event.kind == Session.KindBind || e.event.kind == Session.KindQuery then
              before < |all|
              && all[before].result == DiffVerdict(t, e.q, e.event.resolved, rowLevel, e.event.params, e.answers)
            else VerdictsOf(t, rowLevel, structuralOnly, events, i + 1) == VerdictsOf(t, rowLevel, structuralOnly, events, i)
    decreases n
  {
    hide DiffVerdict, PopulationOf;
    if n > i + 1 {
      ExecutionsJudged(t, rowLevel, structuralOnly, events, n - 1, i);
    }
  }

  /** One relation's probe table: its rows and key columns, what row-level security admits of them to
      the first canary, and the ordered keys that the two queries of the positive control returned. */
  datatype ProbeTable = ProbeTable(
    rows: seq<Row>, columns: seq<nat>, tenantColumn: nat, canary: string, rule: Rule,
    reference: seq<string>, got: seq<string>, order: (string, string) -> bool)

  /** The answers are the database's. */
  ghost predicate Answered(p: ProbeTable) {
    && TotalOrder(p.order)
    && OrderedKeys(p.reference, p.rows, TenantRule(p.tenantColumn, p.canary), p.columns, p.order)
    && OrderedKeys(p.got, p.rows, p.rule, p.columns, p.order)
  }

  /** The flags of every seeded scoped relation are what the two controls compute: fewer rows counted
      under the policy than without, and equal lists of keys. */
  ghost predicate Measured(rels: seq<Policy.Relation>, probe: Probe, tables: Policy.Relation -> ProbeTable) {
    forall r :: r in rels && r.class_ == Policy.Scoped && probe.seedFailure(r) == None ==>
                  var p := tables(r);
                  && Answered(p)
                  && (probe.a1(r) <==> Admitted(p.rows, |p.rows|, p.rule) < |p.rows|)
                  && (probe.a4(r) == None <==> p.reference == p.got)
  }

  /** The policy admits exactly the canary's rows, and a foreign row is there to see. */
  ghost predicate Works(p: ProbeTable) {
    Exact(p.rows, p.rule, p.tenantColumn, p.canary) && ForeignRow(p.rows, p.tenantColumn, p.canary)
  }

  /** What the two controls together say about a probe table. */
  lemma ControlsWork(p: ProbeTable)
    requires Answered(p) && Admitted(p.rows, |p.rows|, p.rule) < |p.rows| && p.reference == p.got
    ensures A1Passes(p.rows, p.rule)
    ensures Apart(p.rows, TenantRule(p.tenantColumn, p.canary), p.columns) ==> Works(p)
  {
    A4Meaning(p.rows, p.columns, p.tenantColumn, p.canary, p.rule, p.reference, p.got, p.order);
    AdmittedAll(p.rows, |p.rows|, p.rule);
    hide Answered, Admitted, Apart, TenantRule, Keys;
    if Exact(p.rows, p.rule, p.tenantColumn, p.canary) {
      BothControls(p.rows, p.rule, p.tenantColumn, p.canary);
    }
  }

  /** From the verdict back to the policy: behind every SAFE or LEAK stands a named relation on whose
      probe table the policy withheld a row, and, unless an own row shares its key text with a foreign
      one, admitted exactly the canary's rows while a foreign row was there to see. */
  lemma VerdictMeansWorkingPolicy(rels: seq<Policy.Relation>, probe: Probe, tables: Policy.Relation -> ProbeTable,
                                  t: WriteReplay.Table, e: Captured)
    requires TargetNamed(e.q) && Measured(rels, probe, tables)
    ensures Judges(GateVerdict(rels, probe), t, e) ==>
              exists r ::
                && Backs(r, rels, probe, e.q)
                && A1Passes(tables(r).rows, tables(r).rule)
                && (Apart(tables(r).rows, TenantRule(tables(r).tenantColumn, tables(r).canary), tables(r).columns) ==>
                      Works(tables(r)))
  {
    hide GateVerdict, Judges;
    VerdictBacked(rels, probe, t, e);
    if Judges(GateVerdict(rels, probe), t, e) {
      var r :| Backs(r, rels, probe, e.q);
      hide Answered, Admitted, Apart, TenantRule, A1Passes, Works;
      ControlsWork(tables(r));
    }
  }
}
