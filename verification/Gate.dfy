/** The gate: which relations the differ may attribute against, and when a run is proven at all. */
module Gate {
  import opened Text
  import opened Policy
  import opened Oracle
  import opened RowDiff

  function Qualified(r: Relation): string {
    r.schema + "." + r.name
  }

  datatype TableProof = TableProof(table: string, seeded: bool, a1Passed: bool, a4Passed: bool)

  // ----- folding the tables' proofs

  ghost predicate SomeSeeded(proofs: seq<TableProof>) {
    exists i :: 0 <= i < |proofs| && proofs[i].seeded
  }

  ghost predicate SeededPassA1(proofs: seq<TableProof>) {
    forall i :: 0 <= i < |proofs| && proofs[i].seeded ==> proofs[i].a1Passed
  }

  ghost predicate SeededPassA4(proofs: seq<TableProof>) {
    forall i :: 0 <= i < |proofs| && proofs[i].seeded ==> proofs[i].a4Passed
  }

  const UNPROVEN := ProofState(false, false, false, false, false, false, false, false)

  /** What the fold means: the two controls count as run once some table was seeded, and as passed
      when in addition every seeded table passed. */
  ghost function Aggregated(proofs: seq<TableProof>): ProofState {
    UNPROVEN.(
      a1Checked := SomeSeeded(proofs), a1Passed := SomeSeeded(proofs) && SeededPassA1(proofs),
      a4Checked := SomeSeeded(proofs), a4Passed := SomeSeeded(proofs) && SeededPassA4(proofs))
  }

  method AggregateProof(proofs: seq<TableProof>) returns (ps: ProofState)
    ensures ps == Aggregated(proofs)
  {
    ps := UNPROVEN;
    var i := 0;
    while i < |proofs|
      invariant 0 <= i <= |proofs|
      invariant ps == Aggregated(proofs[..i])
    {
      var tp := proofs[i];
      AggregatedStep(proofs, i);
      hide Aggregated;
      i := i + 1;
      if !tp.seeded {
        continue;
      }
      if !ps.a1Checked {
        ps := ps.(a1Checked := true, a1Passed := true);
      }
      if !ps.a4Checked {
        ps := ps.(a4Checked := true, a4Passed := true);
      }
      if !tp.a1Passed {
        ps := ps.(a1Passed := false);
      }
      if !tp.a4Passed {
        ps := ps.(a4Passed := false);
      }
    }
    assert proofs[..|proofs|] == proofs;
  }

  lemma AggregatedStep(proofs: seq<TableProof>, i: nat)
    requires i < |proofs|
    ensures var ps, next, tp := Aggregated(proofs[..i]), Aggregated(proofs[..i + 1]), proofs[i];
            if !tp.seeded then next == ps
            else next == ps.(a1Checked := true, a1Passed := (!ps.a1Checked || ps.a1Passed) && tp.a1Passed,
                             a4Checked := true, a4Passed := (!ps.a4Checked || ps.a4Passed) && tp.a4Passed)
  {
    assert forall k :: 0 <= k < i ==> proofs[..i + 1][k] == proofs[..i][k];
    assert proofs[..i + 1][i] == proofs[i];
    SomeSeededStep(proofs, i);
  }

  lemma SomeSeededStep(proofs: seq<TableProof>, i: nat)
    requires i < |proofs|
    ensures SomeSeeded(proofs[..i + 1]) <==> SomeSeeded(proofs[..i]) || proofs[i].seeded
  {
    if SomeSeeded(proofs[..i]) {
      var k :| 0 <= k < i && proofs[..i][k].seeded;
      assert proofs[..i + 1][k].seeded;
    }
    if proofs[i].seeded {
      assert proofs[..i + 1][i].seeded;
    }
  }

  /** The fold depends only on which proofs there are, not on their order or repetition, and
      unseeded tables do not count. */
  lemma AggregateOrderIrrelevant(a: seq<TableProof>, b: seq<TableProof>)
    requires forall tp: TableProof :: tp.seeded ==> (tp in a <==> tp in b)
    ensures Aggregated(a) == Aggregated(b)
  {
    SeededIncluded(a, b);
    SeededIncluded(b, a);
  }

  lemma SeededIncluded(a: seq<TableProof>, b: seq<TableProof>)
    requires forall tp: TableProof :: tp.seeded && tp in a ==> tp in b
    ensures SomeSeeded(a) ==> SomeSeeded(b)
    ensures SeededPassA1(b) ==> SeededPassA1(a)
    ensures SeededPassA4(b) ==> SeededPassA4(a)
  {
    forall i | 0 <= i < |a| && a[i].seeded
      ensures exists k :: 0 <= k < |b| && b[k] == a[i]
    {
      assert a[i] in b;
    }
  }

  // ----- seeding

  datatype SkippedTable = SkippedTable(table: string, reason: string)

  /** The relations among the first n for which a predicate on their qualified names holds, or not. */
  function Among(relations: seq<Relation>, n: nat, names: set<string>, member: bool): (r: seq<Relation>)
    requires n <= |relations|
  {
    if n == 0 then []
    else Among(relations, n - 1, names, member)
         + if (Qualified(relations[n - 1]) in names) == member then [relations[n - 1]] else []
  }

  lemma {:induction false} AmongHas(relations: seq<Relation>, n: nat, names: set<string>, member: bool, r: Relation)
    requires n <= |relations|
    ensures r in Among(relations, n, names, member)
            <==> (Qualified(r) in names) == member && exists k :: 0 <= k < n && relations[k] == r
  {
    if n > 0 {
      AmongHas(relations, n - 1, names, member, r);
    }
  }

  lemma {:induction false} AmongNone(relations: seq<Relation>, n: nat)
    requires n <= |relations|
    ensures |Among(relations, n, {}, false)| == n
  {
    if n > 0 {
      AmongNone(relations, n - 1);
    }
  }

  lemma AmongStep(relations: seq<Relation>, n: nat, names: set<string>, member: bool, r: Relation)
    requires 0 < n <= |relations|
    ensures multiset(Among(relations, n, names, member))[r]
            == multiset(Among(relations, n - 1, names, member))[r]
               + if relations[n - 1] == r && (Qualified(r) in names) == member then 1 else 0
  {
    hide Qualified;
    var before := Among(relations, n - 1, names, member);
    SnocCount(before, relations[n - 1], r);
    assert before + [] == before;
  }

  /** How often a relation is listed among the first n. */
  function Listed(relations: seq<Relation>, n: nat, r: Relation): nat
    requires n <= |relations|
  {
    if n == 0 then 0 else Listed(relations, n - 1, r) + if relations[n - 1] == r then 1 else 0
  }

  lemma {:induction false} ListedCount(relations: seq<Relation>, n: nat, r: Relation)
    requires n <= |relations|
    ensures Listed(relations, n, r) == multiset(relations[..n])[r]
    decreases n
  {
    if n > 0 {
      ListedCount(relations, n - 1, r);
      assert relations[..n] == relations[..n - 1] + [relations[n - 1]];
      SnocCount(relations[..n - 1], relations[n - 1], r);
    }
  }

  /** How often it is in that part of the first n. */
  function ListedAmong(relations: seq<Relation>, n: nat, names: set<string>, member: bool, r: Relation): nat {
    if (Qualified(r) in names) == member && n <= |relations| then Listed(relations, n, r) else 0
  }

  lemma {:induction false} AmongBag(relations: seq<Relation>, n: nat, names: set<string>, member: bool, r: Relation)
    requires n <= |relations|
    ensures multiset(Among(relations, n, names, member))[r] == ListedAmong(relations, n, names, member, r)
    decreases n
  {
    if n > 0 {
      AmongBag(relations, n - 1, names, member, r);
      AmongStep(relations, n, names, member, r);
      hide Among, Qualified;
    }
  }

  /** Every relation lands in exactly one of the two parts, as often as it is listed. */
  lemma AmongPartition(relations: seq<Relation>, names: set<string>, r: Relation)
    ensures multiset(Among(relations, |relations|, names, true))[r] + multiset(Among(relations, |relations|, names, false))[r]
            == multiset(relations)[r]
  {
    AmongBag(relations, |relations|, names, true, r);
    AmongBag(relations, |relations|, names, false, r);
    ListedCount(relations, |relations|, r);
    assert relations[..|relations|] == relations;
    hide Among, Qualified, Listed;
  }

  /** The scoped relations, in policy order. */
  function ScopedOf(rels: seq<Relation>, n: nat): seq<Relation>
    requires n <= |rels|
  {
    if n == 0 then [] else ScopedOf(rels, n - 1) + if rels[n - 1].class_ == Scoped then [rels[n - 1]] else []
  }

  lemma {:induction false} ScopedOfHas(rels: seq<Relation>, n: nat, r: Relation)
    requires n <= |rels|
    ensures r in ScopedOf(rels, n) <==> r.class_ == Scoped && exists k :: 0 <= k < n && rels[k] == r
  {
    if n > 0 {
      ScopedOfHas(rels, n - 1, r);
    }
  }

  /** What the probe answers: why a relation could not be seeded, and each control's outcome. */
  datatype Probe = Probe(
    seedFailure: Relation -> Option<string>,
    a1: Relation -> bool,
    a2: bool,
    a3: bool,
    a4: Relation -> Option<ControlError>)

  /** The qualified names of the first n relations that could not be seeded. */
  function SkippedNames(relations: seq<Relation>, n: nat, probe: Probe): set<string>
    requires n <= |relations|
  {
    if n == 0 then {}
    else SkippedNames(relations, n - 1, probe)
         + if probe.seedFailure(relations[n - 1]).Some? then {Qualified(relations[n - 1])} else {}
  }

  lemma {:induction false} SkippedNamesHas(relations: seq<Relation>, n: nat, probe: Probe, name: string)
    requires n <= |relations|
    ensures name in SkippedNames(relations, n, probe)
            <==> exists k :: 0 <= k < n && probe.seedFailure(relations[k]).Some? && Qualified(relations[k]) == name
  {
    if n > 0 {
      SkippedNamesHas(relations, n - 1, probe, name);
    }
  }

  /** The qualified names of those that could, in order. */
  function SeededNames(relations: seq<Relation>, n: nat, probe: Probe): seq<string>
    requires n <= |relations|
  {
    if n == 0 then []
    else SeededNames(relations, n - 1, probe)
         + if probe.seedFailure(relations[n - 1]).None? then [Qualified(relations[n - 1])] else []
  }

  /** Those that could not, with the reason, in order. */
  function SkippedTables(relations: seq<Relation>, n: nat, probe: Probe): seq<SkippedTable>
    requires n <= |relations|
  {
    if n == 0 then []
    else SkippedTables(relations, n - 1, probe)
         + match probe.seedFailure(relations[n - 1])
           case None => []
           case Some(reason) => [SkippedTable(Qualified(relations[n - 1]), reason)]
  }

  /** Seeds what it can and reports the rest: every relation is in one list or the other. */
  method SeedCanaries(relations: seq<Relation>, probe: Probe) returns (seeded: seq<string>, skipped: seq<SkippedTable>)
    ensures |seeded| + |skipped| == |relations|
    ensures seeded == SeededNames(relations, |relations|, probe)
    ensures skipped == SkippedTables(relations, |relations|, probe)
    ensures SkippedKeys(skipped, |skipped|) == SkippedNames(relations, |relations|, probe)
  {
    seeded, skipped := [], [];
    var i := 0;
    while i < |relations|
      invariant 0 <= i <= |relations| && |seeded| + |skipped| == i
      invariant seeded == SeededNames(relations, i, probe) && skipped == SkippedTables(relations, i, probe)
      invariant SkippedKeys(skipped, |skipped|) == SkippedNames(relations, i, probe)
    {
      var r := relations[i];
      i := i + 1;
      var failure := probe.seedFailure(r);
      if failure.Some? {
        SkippedKeysSnoc(skipped, SkippedTable(Qualified(r), failure.value));
        skipped := skipped + [SkippedTable(Qualified(r), failure.value)];
        continue;
      }
      seeded := seeded + [Qualified(r)];
    }
  }

  /** Ascending places among the first n. */
  predicate Places(at: seq<nat>, n: nat) {
    (forall i, j :: 0 <= i < j < |at| ==> at[i] < at[j]) && forall i :: 0 <= i < |at| ==> at[i] < n
  }

  /** These are exactly the places, in ascending order, where seeding did or did not fail. */
  predicate PlacesOf(at: seq<nat>, relations: seq<Relation>, n: nat, probe: Probe, failed: bool) {
    Places(at, n)
    && forall i :: 0 <= i < n && i < |relations| ==> (i in at <==> probe.seedFailure(relations[i]).Some? == failed)
  }

  predicate NamesSeeded(seeded: seq<string>, at: seq<nat>, relations: seq<Relation>) {
    |seeded| == |at|
    && forall k :: 0 <= k < |at| ==>
                     at[k] < |relations| && seeded[k] == relations[at[k]].schema + "." + relations[at[k]].name
  }

  predicate NamesSkipped(skipped: seq<SkippedTable>, at: seq<nat>, relations: seq<Relation>, probe: Probe) {
    |skipped| == |at|
    && forall k :: 0 <= k < |at| ==>
                     && at[k] < |relations|
                     && skipped[k].table == relations[at[k]].schema + "." + relations[at[k]].name
                     && Some(skipped[k].reason) == probe.seedFailure(relations[at[k]])
  }

  lemma PlaceAdded(at: seq<nat>, relations: seq<Relation>, n: nat, probe: Probe, failed: bool)
    requires n < |relations| && PlacesOf(at, relations, n, probe, failed)
    ensures if probe.seedFailure(relations[n]).Some? == failed then PlacesOf(at + [n], relations, n + 1, probe, failed)
            else PlacesOf(at, relations, n + 1, probe, failed)
  {
    assert n !in at;
    var next := at + [n];
    assert next[|at|] == n && forall i :: 0 <= i < |at| ==> next[i] == at[i];
  }

  lemma NameAdded(seeded: seq<string>, at: seq<nat>, relations: seq<Relation>, n: nat)
    requires n < |relations| && NamesSeeded(seeded, at, relations)
    ensures NamesSeeded(seeded + [Qualified(relations[n])], at + [n], relations)
  {
  }

  lemma ReasonAdded(skipped: seq<SkippedTable>, at: seq<nat>, relations: seq<Relation>, n: nat, probe: Probe)
    requires n < |relations| && NamesSkipped(skipped, at, relations, probe) && probe.seedFailure(relations[n]).Some?
    ensures NamesSkipped(skipped + [SkippedTable(Qualified(relations[n]), probe.seedFailure(relations[n]).value)], at + [n],
                         relations, probe)
  {
  }

  /** The seeded relations, named in their order. */
  lemma {:induction false} SeededExact(relations: seq<Relation>, n: nat, probe: Probe) returns (at: seq<nat>)
    requires n <= |relations|
    ensures PlacesOf(at, relations, n, probe, false)
    ensures NamesSeeded(SeededNames(relations, n, probe), at, relations)
    decreases n
  {
    if n == 0 {
      at := [];
    } else {
      hide PlacesOf, NamesSeeded, Qualified;
      at := SeededExact(relations, n - 1, probe);
      PlaceAdded(at, relations, n - 1, probe, false);
      var before := SeededNames(relations, n - 1, probe);
      assert before + [] == before;
      if probe.seedFailure(relations[n - 1]).None? {
        NameAdded(before, at, relations, n - 1);
        at := at + [n - 1];
      }
    }
  }

  /** The skipped relations, named in their order, each with its reason. */
  lemma {:induction false} SkippedExact(relations: seq<Relation>, n: nat, probe: Probe) returns (at: seq<nat>)
    requires n <= |relations|
    ensures PlacesOf(at, relations, n, probe, true)
    ensures NamesSkipped(SkippedTables(relations, n, probe), at, relations, probe)
    decreases n
  {
    if n == 0 {
      at := [];
    } else {
      hide PlacesOf, NamesSkipped, Qualified;
      at := SkippedExact(relations, n - 1, probe);
      PlaceAdded(at, relations, n - 1, probe, true);
      var before := SkippedTables(relations, n - 1, probe);
      assert before + [] == before;
      if probe.seedFailure(relations[n - 1]).Some? {
        ReasonAdded(before, at, relations, n - 1, probe);
        at := at + [n - 1];
      }
    }
  }

  function SkippedKeys(skipped: seq<SkippedTable>, n: nat): set<string>
    requires n <= |skipped|
  {
    if n == 0 then {} else SkippedKeys(skipped, n - 1) + {skipped[n - 1].table}
  }

  lemma {:induction false} SkippedKeysPrefix(s: seq<SkippedTable>, t: SkippedTable, n: nat)
    requires n <= |s|
    ensures SkippedKeys(s + [t], n) == SkippedKeys(s, n)
  {
    if n > 0 {
      SkippedKeysPrefix(s, t, n - 1);
    }
  }

  lemma SkippedKeysSnoc(s: seq<SkippedTable>, t: SkippedTable)
    ensures SkippedKeys(s + [t], |s| + 1) == SkippedKeys(s, |s|) + {t.table}
  {
    SkippedKeysPrefix(s, t, |s|);
  }

  // ----- the gate

  datatype GateError = NoScopedRelations | SeedingSkipped | MissingRowKey | Unproven(error: ProofError)

  datatype GateResult = Refused(error: GateError) | Proven(rowLevel: seq<Relation>, structuralOnly: seq<Relation>)

  ghost predicate AllPassA1(relations: seq<Relation>, probe: Probe) {
    forall i :: 0 <= i < |relations| ==> probe.a1(relations[i])
  }

  ghost predicate AllPassA4(relations: seq<Relation>, probe: Probe) {
    forall i :: 0 <= i < |relations| ==> probe.a4(relations[i]) == None
  }

  ghost predicate SomeMissingKey(relations: seq<Relation>, probe: Probe) {
    exists i :: 0 <= i < |relations| && probe.a4(relations[i]) == Some(NoRowKey)
  }

  function TableProofOf(r: Relation, names: set<string>, probe: Probe): TableProof {
    if Qualified(r) in names then TableProof(Qualified(r), false, false, false)
    else TableProof(Qualified(r), true, probe.a1(r), probe.a4(r).None?)
  }

  function TableProofs(relations: seq<Relation>, n: nat, names: set<string>, probe: Probe): (r: seq<TableProof>)
    requires n <= |relations|
    ensures |r| == n
  {
    if n == 0 then []
    else TableProofs(relations, n - 1, names, probe) + [TableProofOf(relations[n - 1], names, probe)]
  }

  /** The proof of the whole run, from the relations proven at row level. */
  ghost function RunProof(rowLevel: seq<Relation>, probe: Probe): ProofState {
    ProofState(
      rowLevel != [], rowLevel != [] && AllPassA1(rowLevel, probe), true, probe.a2, true, probe.a3,
      rowLevel != [], rowLevel != [] && AllPassA4(rowLevel, probe))
  }

  lemma SnocProofs(proofs: seq<TableProof>, tp: TableProof)
    ensures var next := proofs + [tp];
            && (SomeSeeded(next) <==> SomeSeeded(proofs) || tp.seeded)
            && (SeededPassA1(next) <==> SeededPassA1(proofs) && (tp.seeded ==> tp.a1Passed))
            && (SeededPassA4(next) <==> SeededPassA4(proofs) && (tp.seeded ==> tp.a4Passed))
  {
    var next := proofs + [tp];
    assert forall i :: 0 <= i < |proofs| ==> next[i] == proofs[i];
    assert next[|proofs|] == tp;
    if SomeSeeded(proofs) {
      var i :| 0 <= i < |proofs| && proofs[i].seeded;
      assert next[i].seeded;
    }
  }

  /** The seeded tables among the proofs are the row-level relations. */
  lemma {:induction false} ProofsOfRowLevel(relations: seq<Relation>, n: nat, names: set<string>, probe: Probe)
    requires n <= |relations|
    ensures var proofs, rowLevel := TableProofs(relations, n, names, probe), Among(relations, n, names, false);
            && (SomeSeeded(proofs) <==> rowLevel != [])
            && (SeededPassA1(proofs) <==> AllPassA1(rowLevel, probe))
            && (SeededPassA4(proofs) <==> AllPassA4(rowLevel, probe))
  {
    if n > 0 {
      var r := relations[n - 1];
      var before := Among(relations, n - 1, names, false);
      ProofsOfRowLevel(relations, n - 1, names, probe);
      SnocProofs(TableProofs(relations, n - 1, names, probe), TableProofOf(r, names, probe));
      SnocRelations(before, r, probe);
      hide SomeSeeded, SeededPassA1, SeededPassA4, AllPassA1, AllPassA4, Qualified;
      assert before + [] == before;
    }
  }

  lemma SnocRelations(relations: seq<Relation>, r: Relation, probe: Probe)
    ensures AllPassA1(relations + [r], probe) <==> AllPassA1(relations, probe) && probe.a1(r)
    ensures AllPassA4(relations + [r], probe) <==> AllPassA4(relations, probe) && probe.a4(r) == None
    ensures SomeMissingKey(relations + [r], probe) <==> SomeMissingKey(relations, probe) || probe.a4(r) == Some(NoRowKey)
  {
    var next := relations + [r];
    assert forall i :: 0 <= i < |relations| ==> next[i] == relations[i];
    assert next[|relations|] == r;
    if SomeMissingKey(relations, probe) {
      var i :| 0 <= i < |relations| && probe.a4(relations[i]) == Some(NoRowKey);
      assert probe.a4(next[i]) == Some(NoRowKey);
    }
  }

  /** What the gate decides. */
  ghost function GateVerdict(rels: seq<Relation>, probe: Probe): GateResult {
    var scoped := ScopedOf(rels, |rels|);
    var names := SkippedNames(scoped, |scoped|, probe);
    var rowLevel := Among(scoped, |scoped|, names, false);
    if scoped == [] then Refused(NoScopedRelations)
    else if SomeMissingKey(rowLevel, probe) then Refused(MissingRowKey)
    else match PolicyProven(RunProof(rowLevel, probe))
      case None => Proven(rowLevel, Among(scoped, |scoped|, names, true))
      case Some(e) => Refused(if rowLevel == [] then SeedingSkipped else Unproven(e))
  }

  /** The per-relation loop: proofs, and the split into row-level and structural-only. */
  method ProveTables(scoped: seq<Relation>, names: set<string>, probe: Probe)
    returns (proofs: seq<TableProof>, rowLevel: seq<Relation>, structuralOnly: seq<Relation>, missingKey: bool)
    ensures missingKey <==> SomeMissingKey(Among(scoped, |scoped|, names, false), probe)
    ensures !missingKey ==>
              && proofs == TableProofs(scoped, |scoped|, names, probe)
              && rowLevel == Among(scoped, |scoped|, names, false)
              && structuralOnly == Among(scoped, |scoped|, names, true)
  {
    proofs, rowLevel, structuralOnly, missingKey := [], [], [], false;
    var i := 0;
    while i < |scoped|
      invariant 0 <= i <= |scoped|
      invariant proofs == TableProofs(scoped, i, names, probe)
      invariant rowLevel == Among(scoped, i, names, false) && structuralOnly == Among(scoped, i, names, true)
      invariant !SomeMissingKey(rowLevel, probe)
    {
      var r := scoped[i];
      SnocRelations(rowLevel, r, probe);
      hide SomeMissingKey, Qualified;
      i := i + 1;
      proofs := proofs + [TableProofOf(r, names, probe)];
      if Qualified(r) in names {
        structuralOnly := structuralOnly + [r];
        continue;
      }
      if probe.a4(r) == Some(NoRowKey) {
        MissingKeyStays(scoped, i, |scoped|, names, probe);
        missingKey := true;
        return;
      }
      rowLevel := rowLevel + [r];
    }
  }

  lemma {:induction false} MissingKeyStays(scoped: seq<Relation>, m: nat, n: nat, names: set<string>, probe: Probe)
    requires m <= n <= |scoped| && SomeMissingKey(Among(scoped, m, names, false), probe)
    ensures SomeMissingKey(Among(scoped, n, names, false), probe)
    decreases n
  {
    if m < n {
      MissingKeyStays(scoped, m, n - 1, names, probe);
      var before := Among(scoped, n - 1, names, false);
      SnocRelations(before, scoped[n - 1], probe);
      assert before + [] == before;
    }
  }

  method RunGate(rels: seq<Relation>, probe: Probe) returns (result: GateResult, proofs: seq<TableProof>)
    ensures result == GateVerdict(rels, probe)
    ensures result.Proven? ==>
              var scoped := ScopedOf(rels, |rels|);
              proofs == TableProofs(scoped, |scoped|, SkippedNames(scoped, |scoped|, probe), probe)
  {
    proofs := [];
    var scoped: seq<Relation> := [];
    var i := 0;
    while i < |rels|
      invariant 0 <= i <= |rels| && scoped == ScopedOf(rels, i)
    {
      if rels[i].class_ == Scoped {
        scoped := scoped + [rels[i]];
      }
      i := i + 1;
    }
    if |scoped| == 0 {
      return Refused(NoScopedRelations), proofs;
    }
    var seeded, skipped := SeedCanaries(scoped, probe);
    var ps := UNPROVEN.(a2Checked := true, a2Passed := probe.a2, a3Checked := true, a3Passed := probe.a3);
    var names: set<string> := {};
    i := 0;
    while i < |skipped|
      invariant 0 <= i <= |skipped| && names == SkippedKeys(skipped, i)
    {
      names := names + {skipped[i].table};
      i := i + 1;
    }
    var rowLevel, structuralOnly, missingKey;
    proofs, rowLevel, structuralOnly, missingKey := ProveTables(scoped, names, probe);
    if missingKey {
      return Refused(MissingRowKey), proofs;
    }
    var a1a4 := AggregateProof(proofs);
    ps := ps.(a1Checked := a1a4.a1Checked, a1Passed := a1a4.a1Passed,
              a4Checked := a1a4.a4Checked, a4Passed := a1a4.a4Passed);
    ProofsOfRowLevel(scoped, |scoped|, names, probe);
    assert ps == RunProof(rowLevel, probe);
    if |skipped| == 0 {
      AmongNone(scoped, |scoped|);
    }
    var unproven := PolicyProven(ps);
    if unproven.Some? {
      if |rowLevel| == 0 && |skipped| > 0 {
        return Refused(SeedingSkipped), proofs;
      }
      return Refused(Unproven(unproven.value)), proofs;
    }
    return Proven(rowLevel, structuralOnly), proofs;
  }

  // ----- what the gate's answer means

  function RowLevelOf(rels: seq<Relation>, probe: Probe): seq<Relation> {
    var scoped := ScopedOf(rels, |rels|);
    Among(scoped, |scoped|, SkippedNames(scoped, |scoped|, probe), false)
  }

  /** A run is proven exactly when some relation is proven at row level, every such relation passed
      both controls, and the two catalog checks passed. */
  lemma GateProven(rels: seq<Relation>, probe: Probe)
    ensures GateVerdict(rels, probe).Proven? <==>
              && RowLevelOf(rels, probe) != []
              && AllPassA1(RowLevelOf(rels, probe), probe) && AllPassA4(RowLevelOf(rels, probe), probe)
              && probe.a2 && probe.a3
  {
  }

  /** A relation the differ may attribute against is a scoped one of the policy that was seeded and
      passed both controls. */
  lemma RowLevelSound(rels: seq<Relation>, probe: Probe, r: Relation)
    requires GateVerdict(rels, probe).Proven? && r in GateVerdict(rels, probe).rowLevel
    ensures r in rels && r.class_ == Scoped && probe.seedFailure(r) == None
    ensures probe.a1(r) && probe.a4(r) == None
  {
    var scoped := ScopedOf(rels, |rels|);
    var names := SkippedNames(scoped, |scoped|, probe);
    var rowLevel := Among(scoped, |scoped|, names, false);
    AmongHas(scoped, |scoped|, names, false, r);
    ScopedOfHas(rels, |rels|, r);
    SkippedNamesHas(scoped, |scoped|, probe, Qualified(r));
    GateProven(rels, probe);
    var i :| 0 <= i < |rowLevel| && rowLevel[i] == r;
    assert probe.a1(rowLevel[i]) && probe.a4(rowLevel[i]) == None;
  }

  /** Some scoped relation of that qualified name could not be seeded. */
  ghost predicate NameSkipped(scoped: seq<Relation>, probe: Probe, name: string) {
    exists k :: 0 <= k < |scoped| && probe.seedFailure(scoped[k]).Some? && Qualified(scoped[k]) == name
  }

  /** Row-level and structural-only split the scoped relations: a relation is structural-only exactly
      when some scoped relation of its qualified name could not be seeded. */
  lemma GatePartition(rels: seq<Relation>, probe: Probe, r: Relation)
    requires GateVerdict(rels, probe).Proven?
    ensures var g, scoped := GateVerdict(rels, probe), ScopedOf(rels, |rels|);
            && multiset(g.rowLevel)[r] + multiset(g.structuralOnly)[r] == multiset(scoped)[r]
            && (r in g.structuralOnly <==> r in scoped && NameSkipped(scoped, probe, Qualified(r)))
            && (r in g.rowLevel <==> r in scoped && !NameSkipped(scoped, probe, Qualified(r)))
  {
    var scoped := ScopedOf(rels, |rels|);
    var names := SkippedNames(scoped, |scoped|, probe);
    ProvenParts(rels, probe);
    hide *;
    AmongPartition(scoped, names, r);
    PartHas(scoped, probe, r, false);
    PartHas(scoped, probe, r, true);
  }

  lemma ProvenParts(rels: seq<Relation>, probe: Probe)
    requires GateVerdict(rels, probe).Proven?
    ensures var g, scoped := GateVerdict(rels, probe), ScopedOf(rels, |rels|);
            var names := SkippedNames(scoped, |scoped|, probe);
            g.rowLevel == Among(scoped, |scoped|, names, false) && g.structuralOnly == Among(scoped, |scoped|, names, true)
  {
  }

  lemma PartHas(scoped: seq<Relation>, probe: Probe, r: Relation, member: bool)
    ensures r in Among(scoped, |scoped|, SkippedNames(scoped, |scoped|, probe), member)
            <==> r in scoped && NameSkipped(scoped, probe, Qualified(r)) == member
  {
    var names := SkippedNames(scoped, |scoped|, probe);
    AmongHas(scoped, |scoped|, names, member, r);
    SkippedNamesHas(scoped, |scoped|, probe, Qualified(r));
    hide Among, SkippedNames, Qualified;
    assert NameSkipped(scoped, probe, Qualified(r)) <==> Qualified(r) in names;
    hide NameSkipped;
    assert r in scoped <==> exists k :: 0 <= k < |scoped| && scoped[k] == r;
  }

  /** No relation that was seeded shares its qualified name with one that was not. */
  ghost predicate NamesApart(scoped: seq<Relation>, probe: Probe) {
    forall r, t :: r in scoped && t in scoped && probe.seedFailure(r).Some? && probe.seedFailure(t).None? ==>
                     Qualified(r) != Qualified(t)
  }

  /** The split follows each relation's own seeding. */
  ghost predicate FollowsSeeding(g: GateResult, scoped: seq<Relation>, probe: Probe)
    requires g.Proven?
  {
    forall r :: r in scoped ==> (r in g.structuralOnly <==> probe.seedFailure(r).Some?)
  }

  /** It does exactly when no seeded and unseeded relation share a qualified name. */
  lemma SplitFollowsSeeding(rels: seq<Relation>, probe: Probe)
    requires GateVerdict(rels, probe).Proven?
    ensures var scoped := ScopedOf(rels, |rels|);
            FollowsSeeding(GateVerdict(rels, probe), scoped, probe) <==> NamesApart(scoped, probe)
  {
    var g, scoped := GateVerdict(rels, probe), ScopedOf(rels, |rels|);
    forall r | r in scoped
      ensures r in g.structuralOnly <==> NameSkipped(scoped, probe, Qualified(r))
    {
      GatePartition(rels, probe, r);
    }
    hide GateVerdict, ScopedOf, Qualified;
    forall r, k | r in scoped && 0 <= k < |scoped| && Qualified(scoped[k]) == Qualified(r) && probe.seedFailure(scoped[k]).Some?
      ensures NameSkipped(scoped, probe, Qualified(r))
    {
    }
    if NamesApart(scoped, probe) {
      forall r | r in scoped
        ensures r in g.structuralOnly <==> probe.seedFailure(r).Some?
      {
        SkippedItself(scoped, probe, r);
      }
    } else {
      var r, t :| r in scoped && t in scoped && probe.seedFailure(r).Some? && probe.seedFailure(t).None?
                  && Qualified(r) == Qualified(t);
      var k :| 0 <= k < |scoped| && scoped[k] == r;
      assert NameSkipped(scoped, probe, Qualified(t));
    }
  }

  lemma SkippedItself(scoped: seq<Relation>, probe: Probe, r: Relation)
    requires NamesApart(scoped, probe) && r in scoped
    ensures NameSkipped(scoped, probe, Qualified(r)) <==> probe.seedFailure(r).Some?
  {
    hide Qualified;
    var i :| 0 <= i < |scoped| && scoped[i] == r;
    if NameSkipped(scoped, probe, Qualified(r)) {
      var k :| 0 <= k < |scoped| && probe.seedFailure(scoped[k]).Some? && Qualified(scoped[k]) == Qualified(r);
      assert scoped[k] in scoped;
    }
  }

  /** Qualified names are joined with a bare dot, so two relations can share one: then the failure
      to seed the first keeps the second, which was seeded, out of the row-level set. */
  lemma DottedNamesCollide(probe: Probe)
    requires probe.seedFailure(Relation("a.b", "c", Scoped, "t")).Some?
    requires probe.seedFailure(Relation("a", "b.c", Scoped, "t")).None?
    ensures var rels := [Relation("a.b", "c", Scoped, "t"), Relation("a", "b.c", Scoped, "t")];
            RowLevelOf(rels, probe) == []
  {
    var first, second := Relation("a.b", "c", Scoped, "t"), Relation("a", "b.c", Scoped, "t");
    var rels := [first, second];
    assert Qualified(first) == Qualified(second);
    hide Qualified;
    assert ScopedOf(rels, 1) == [first];
    assert ScopedOf(rels, 2) == [first] + [second] == rels;
    assert Qualified(first) in SkippedNames(rels, 1, probe);
    var names := SkippedNames(rels, 2, probe);
    assert SkippedNames(rels, 1, probe) <= names;
    assert Among(rels, 1, names, false) == [];
    assert Among(rels, 2, names, false) == [];
  }

  function ExitCodeFor(e: GateError): nat {
    match e
    case Unproven(Failed(control)) =>
      if control == 1 then 10 else if control == 2 then 11 else if control == 3 then 12
      else if control == 4 then 13 else 2
    case _ => 2
  }

  /** The exit code names the first control that failed; a run with nothing to prove exits with the
      usage code, and a control that was never run never decides. */
  lemma ExitCodeMeaning(rels: seq<Relation>, probe: Probe)
    requires GateVerdict(rels, probe).Refused?
    ensures var code, rowLevel := ExitCodeFor(GateVerdict(rels, probe).error), RowLevelOf(rels, probe);
            var usable := rowLevel != [] && !SomeMissingKey(rowLevel, probe);
            && (code == 2 <==> !usable)
            && (code == 10 <==> usable && !AllPassA1(rowLevel, probe))
            && (code == 11 <==> usable && AllPassA1(rowLevel, probe) && !probe.a2)
            && (code == 12 <==> usable && AllPassA1(rowLevel, probe) && probe.a2 && !probe.a3)
            && (code == 13 <==> usable && AllPassA1(rowLevel, probe) && probe.a2 && probe.a3 && !AllPassA4(rowLevel, probe))
  {
    hide Among, AllPassA1, AllPassA4, SomeMissingKey, SkippedNames;
    var scoped := ScopedOf(rels, |rels|);
    if scoped == [] {
      assert RowLevelOf(rels, probe) == Among(scoped, 0, SkippedNames(scoped, 0, probe), false);
      NoneAmong(scoped, SkippedNames(scoped, 0, probe));
    }
  }

  lemma NoneAmong(relations: seq<Relation>, names: set<string>)
    ensures Among(relations, 0, names, false) == []
  {
  }
}
