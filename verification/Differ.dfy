/** The verdict on one captured statement: claim, replay without and with the policy, compare. */
module Differ {
  import opened Text
  import opened Cells
  import opened WithClause
  import opened Messages
  import opened Attribution
  import opened RowDiff
  import opened Verdicts
  import Policy
  import Rls
  import Conflict
  import IV = InsertVerdict
  import WriteReplay

  /** The two databases' answers to the statement: its result rows, unless it fails, and what it does
      as a write; under the policy, by the session's tenant. */
  datatype Answers = Answers(
    read: Option<seq<Row>>,
    readAs: string -> Option<seq<Row>>,
    write: WriteReplay.Statement,
    writeAs: string -> WriteReplay.Statement)

  /** The tenant the session is given: the claimed one, or the empty text for no claim. */
  function TenantOf(claim: Claim): string {
    if claim.Resolved? then claim.value else ""
  }

  ghost function ReadOutcome(tenant: string, a: Answers): Result {
    match a.read
    case None => UNATTRIBUTABLE
    case Some(u) =>
      match a.readAs(tenant)
      case None => UNATTRIBUTABLE
      case Some(r) => ReadVerdict(tenant, RowTexts(u, |u|), RowTexts(r, |r|))
  }

  ghost function DiffVerdict(t: WriteReplay.Table, q: Sql, resolved: bool, relations: seq<Policy.Relation>,
                             params: seq<Param>, a: Answers): Result
  {
    var claim := Attribute(q, relations, params);
    if !resolved || claim.Unclaimable? then UNATTRIBUTABLE
    else if ContainsWrite(StripComments(q.text)) then
      WriteReplay.WriteVerdict(t, TenantOf(claim), a.write, a.writeAs(TenantOf(claim)))
    else ReadOutcome(TenantOf(claim), a)
  }

  method Diff(server: WriteReplay.Server, q: Sql, resolved: bool, relations: seq<Policy.Relation>, params: seq<Param>,
              a: Answers)
    returns (r: Result)
    modifies server
    ensures server.table == old(server.table)
    ensures r == DiffVerdict(server.table, q, resolved, relations, params, a)
  {
    if !resolved {
      return UNATTRIBUTABLE;
    }
    var claim := ExtractTenant(q, relations, params);
    if claim.Unclaimable? {
      return UNATTRIBUTABLE;
    }
    var tenant := TenantOf(claim);
    var write := IsWriteStatement(q.text);
    hide Attribute, ContainsWrite, StripComments, WriteReplay.WriteVerdict, ReadVerdict, RowTexts;
    if write {
      r := WriteReplay.DiffWrite(server, tenant, a.write, a.writeAs(tenant));
      return;
    }
    if a.read.None? {
      return UNATTRIBUTABLE;
    }
    var restricted := a.readAs(tenant);
    if restricted.None? {
      return UNATTRIBUTABLE;
    }
    r := DiffRead(tenant, a.read.value, restricted.value);
  }

  /** The regular expression for relation names also matches the target of an INSERT. */
  predicate TargetNamed(q: Sql) {
    q.insertHead.Some? ==> q.insertHead.value.table in q.tables
  }

  ghost predicate NamesScoped(q: Sql, relations: seq<Policy.Relation>, k: int) {
    0 <= k < |relations| && relations[k].class_ == Policy.Scoped && Policy.Key(relations[k]) in q.tables
  }

  lemma {:induction false} FirstScopedFound(relations: seq<Policy.Relation>, i: nat, table: string) returns (k: nat)
    requires i <= |relations| && FirstScoped(relations, i, table).Some?
    ensures k < |relations| && relations[k].class_ == Policy.Scoped && Policy.Key(relations[k]) == table
    decreases |relations| - i
  {
    if relations[i].class_ == Policy.Scoped && Policy.Key(relations[i]) == table {
      k := i;
    } else {
      k := FirstScopedFound(relations, i + 1, table);
    }
  }

  lemma {:induction false} ReferencedFound(q: Sql, relations: seq<Policy.Relation>, n: nat) returns (k: nat)
    requires n <= |relations| && ScopedReferenced(q, relations, n) != []
    ensures NamesScoped(q, relations, k)
    decreases n
  {
    if NamesScoped(q, relations, n - 1) {
      k := n - 1;
    } else {
      k := ReferencedFound(q, relations, n - 1);
    }
  }

  /** A claim is only made for a statement that names a scoped relation, by table, alias or as the
      target of an INSERT. */
  lemma ClaimNamesScoped(q: Sql, relations: seq<Policy.Relation>, params: seq<Param>) returns (k: nat)
    requires !Attribute(q, relations, params).Unclaimable? && TargetNamed(q)
    ensures NamesScoped(q, relations, k)
  {
    if FromInsert(q, relations, params).Some? {
      k := FirstScopedFound(relations, 0, q.insertHead.value.table);
    } else {
      k := ReferencedFound(q, relations, |relations|);
    }
  }

  /** The claim is this tenant, or no tenant and the setting empty. */
  predicate ClaimIs(claim: Claim, tenant: string) {
    claim == Resolved(tenant) || (claim == NoPredicate && tenant == "")
  }

  /** SAFE and LEAK are reported only for a resolved statement with every parameter known and a tenant
      claim over a named scoped relation, and for the tenant claimed. */
  lemma VerdictAttributed(t: WriteReplay.Table, q: Sql, resolved: bool, relations: seq<Policy.Relation>,
                          params: seq<Param>, a: Answers)
    requires TargetNamed(q)
    ensures var v := DiffVerdict(t, q, resolved, relations, params, a);
            v.verdict != Unattributable ==>
              && resolved && (forall i :: 0 <= i < |params| ==> params[i].isNull || params[i].known)
              && ClaimIs(Attribute(q, relations, params), v.tenant)
              && exists k :: NamesScoped(q, relations, k)
  {
    hide FromInsert, ScopedReferenced, ScanFrom, Comparisons, ContainsWrite, StripComments, RowTexts;
    if DiffVerdict(t, q, resolved, relations, params, a).verdict != Unattributable {
      var k := ClaimNamesScoped(q, relations, params);
    }
  }

  /** A claimed statement is replayed as its tenant: a write by the write comparison, anything else by the
      two results; everything else goes unjudged. */
  lemma Branches(t: WriteReplay.Table, q: Sql, resolved: bool, relations: seq<Policy.Relation>, params: seq<Param>,
                 a: Answers, tenant: string)
    ensures var v, claim := DiffVerdict(t, q, resolved, relations, params, a), Attribute(q, relations, params);
            && (!resolved || claim.Unclaimable? ==> v == UNATTRIBUTABLE)
            && (resolved && ClaimIs(claim, tenant) ==>
                  v == if ContainsWrite(StripComments(q.text)) then
                         WriteReplay.WriteVerdict(t, tenant, a.write, a.writeAs(tenant))
                       else if a.read.None? || a.readAs(tenant).None? then UNATTRIBUTABLE
                       else
                         var u, r := a.read.value, a.readAs(tenant).value;
                         ReadVerdict(tenant, RowTexts(u, |u|), RowTexts(r, |r|)))
  {
    hide Attribute, ContainsWrite, StripComments, RowTexts, ReadVerdict, WriteReplay.WriteVerdict;
  }

  /** End to end for reads: a SELECT with a claim is SAFE exactly when none of its results was derived
      from a row of another tenant, and a LEAK of exactly as many rows as were. */
  lemma ReadMeaning(t: WriteReplay.Table, q: Sql, relations: seq<Policy.Relation>, params: seq<Param>, a: Answers,
                    tenant: string, query: Rls.Query, db: Rls.Database, u: seq<Row>, r: seq<Row>)
    requires ClaimIs(Attribute(q, relations, params), tenant) && !ContainsWrite(StripComments(q.text))
    requires a.read == Some(u) && a.readAs(tenant) == Some(r)
    requires Rls.Renders(RowTexts(u, |u|), Rls.Derive(query, db))
    requires Rls.Renders(RowTexts(r, |r|), Rls.Derive(query, Rls.Restrict(db, tenant)))
    ensures var v, ds := DiffVerdict(t, q, true, relations, params, a), Rls.Derive(query, db);
            && v.tenant == tenant
            && (v.verdict == Safe <==> forall i :: 0 <= i < |ds| ==> Rls.Own(db, tenant, ds[i]))
            && (v.verdict == Leak <==> v.verdict != Safe)
            && v.withheldRows == |ds| - |Rls.OwnOnly(ds, db, tenant)|
            && (v.vacuous <==> ds == [])
  {
    Branches(t, q, true, relations, params, a, tenant);
    ReadVerdictTenant(tenant, RowTexts(u, |u|), RowTexts(r, |r|));
    Rls.ReadVerdictMeaning(query, db, tenant, RowTexts(u, |u|), RowTexts(r, |r|));
    hide *;
  }

  lemma ReadVerdictTenant(tenant: string, u: seq<string>, r: seq<string>)
    ensures ReadVerdict(tenant, u, r).tenant == tenant
  {
  }

  /** End to end for INSERT .. VALUES and INSERT .. SELECT under a claim. */
  lemma InsertMeaning(t: WriteReplay.Table, q: Sql, relations: seq<Policy.Relation>, params: seq<Param>, a: Answers,
                      tenant: string, rows: seq<WriteReplay.NewRow>)
    requires ClaimIs(Attribute(q, relations, params), tenant) && ContainsWrite(StripComments(q.text))
    requires a.write == IV.Insert(rows) && a.writeAs(tenant) == IV.InsertAs(rows, tenant)
    ensures var last := IV.LastCollision(rows, |rows|, t);
            var left := if last.Some? then t - {last.value} else t;
            var foreign, taken := IV.FirstForeign(rows, 0, tenant), IV.FirstCollision(rows, 0, left);
            DiffVerdict(t, q, true, relations, params, a) ==
            if !IV.Resolvable(rows, t) || (last.Some? && t[last.value].tenant != tenant) then UNATTRIBUTABLE
            else if foreign == taken == |rows| then Result(Safe, tenant, 0, rows == [])
            else if foreign <= taken then Result(Leak, tenant, 1, false)
            else UNATTRIBUTABLE
  {
    Branches(t, q, true, relations, params, a, tenant);
    IV.InsertVerdictExact(rows, t, tenant);
    hide *;
    IV.VerdictOnMeans(rows, t, tenant);
  }

  /** End to end for UPDATE under a claim. */
  lemma UpdateMeaning(t: WriteReplay.Table, q: Sql, relations: seq<Policy.Relation>, params: seq<Param>, a: Answers,
                      tenant: string, matched: (Conflict.Key, WriteReplay.Stored) -> bool,
                      change: (Conflict.Key, WriteReplay.Stored) -> WriteReplay.Stored)
    requires ClaimIs(Attribute(q, relations, params), tenant) && ContainsWrite(StripComments(q.text))
    requires a.write == IV.UpdateWhere(matched, change) && a.writeAs(tenant) == IV.UpdateWhereAs(matched, change, tenant)
    ensures DiffVerdict(t, q, true, relations, params, a)
            == if exists k :: k in t && t[k].tenant == tenant && matched(k, t[k]) && change(k, t[k]).tenant != tenant
               then Result(Leak, tenant, 1, false)
               else Result(Safe, tenant, 0, forall k :: k in t ==> !matched(k, t[k]))
  {
    Branches(t, q, true, relations, params, a, tenant);
    IV.UpdateVerdict(t, tenant, matched, change);
    hide Attribute, ContainsWrite, DiffVerdict, WriteReplay.WriteVerdict, IV.UpdateWhere, IV.UpdateWhereAs;
  }

  /** End to end for DELETE under a claim: SAFE whatever it reaches. */
  lemma DeleteMeaning(t: WriteReplay.Table, q: Sql, relations: seq<Policy.Relation>, params: seq<Param>, a: Answers,
                      tenant: string, doomed: (Conflict.Key, WriteReplay.Stored) -> bool)
    requires ClaimIs(Attribute(q, relations, params), tenant) && ContainsWrite(StripComments(q.text))
    requires a.write == IV.DeleteWhere(doomed) && a.writeAs(tenant) == IV.DeleteWhereAs(doomed, tenant)
    ensures DiffVerdict(t, q, true, relations, params, a)
            == Result(Safe, tenant, 0, forall k :: k in t ==> !doomed(k, t[k]))
  {
    Branches(t, q, true, relations, params, a, tenant);
    IV.DeleteAlwaysSafe(t, tenant, doomed);
    hide Attribute, ContainsWrite, DiffVerdict, WriteReplay.WriteVerdict, IV.DeleteWhere, IV.DeleteWhereAs;
  }
}
