/** Select-project-product-union queries under the synthesised policy: what the restricted
    re-execution returns, and what the read verdict therefore means. */
module Rls {
  import opened Cells
  import opened Verdicts
  import opened ResultRows
  import opened RowDiff

  /** A table with its tenant column when it is scoped, or without policy. */
  datatype Table = Unscoped(rows: seq<Row>) | Scoped(tenantColumn: nat, rows: seq<Row>)

  type Database = map<string, Table>

  datatype Query =
    | Scan(table: string)
    | Where(from: Query, keep: Row -> bool)
    | Project(from: Query, columns: Row -> Row)
    | Product(left: Query, right: Query)
    | UnionAll(left: Query, right: Query)

  /** A stored row that a result was derived from. */
  datatype Source = Source(table: string, row: Row)

  /** One result row and the stored rows it was derived from. */
  datatype Derivation = Derivation(row: Row, sources: seq<Source>)

  // ----- queries

  function ScanRows(table: string, rows: seq<Row>): seq<Derivation> {
    if rows == [] then []
    else ScanRows(table, rows[..|rows| - 1]) + [Derivation(rows[|rows| - 1], [Source(table, rows[|rows| - 1])])]
  }

  function Keep(ds: seq<Derivation>, keep: Row -> bool): seq<Derivation> {
    if ds == [] then []
    else Keep(ds[..|ds| - 1], keep) + if keep(ds[|ds| - 1].row) then [ds[|ds| - 1]] else []
  }

  function Map(ds: seq<Derivation>, columns: Row -> Row): seq<Derivation> {
    if ds == [] then []
    else Map(ds[..|ds| - 1], columns) + [ds[|ds| - 1].(row := columns(ds[|ds| - 1].row))]
  }

  function Pair(l: Derivation, r: Derivation): Derivation {
    Derivation(l.row + r.row, l.sources + r.sources)
  }

  function PairWith(l: Derivation, rs: seq<Derivation>): seq<Derivation> {
    if rs == [] then [] else PairWith(l, rs[..|rs| - 1]) + [Pair(l, rs[|rs| - 1])]
  }

  function Pairs(ls: seq<Derivation>, rs: seq<Derivation>): seq<Derivation> {
    if ls == [] then [] else Pairs(ls[..|ls| - 1], rs) + PairWith(ls[|ls| - 1], rs)
  }

  /** The result of a query, each row with its sources. */
  function Derive(q: Query, db: Database): seq<Derivation> {
    match q
    case Scan(table) => if table in db then ScanRows(table, db[table].rows) else []
    case Where(from, keep) => Keep(Derive(from, db), keep)
    case Project(from, columns) => Map(Derive(from, db), columns)
    case Product(left, right) => Pairs(Derive(left, db), Derive(right, db))
    case UnionAll(left, right) => Derive(left, db) + Derive(right, db)
  }

  // ----- the policy

  /** The synthesised policy: the tenant column, as text, equals the session's setting. */
  predicate Visible(row: Row, tenantColumn: nat, setting: string) {
    tenantColumn < |row| && row[tenantColumn] == Value(setting)
  }

  function VisibleRows(rows: seq<Row>, tenantColumn: nat, setting: string): seq<Row> {
    if rows == [] then []
    else VisibleRows(rows[..|rows| - 1], tenantColumn, setting)
         + if Visible(rows[|rows| - 1], tenantColumn, setting) then [rows[|rows| - 1]] else []
  }

  /** The database as the restricted role sees it. */
  function Restrict(db: Database, setting: string): Database {
    map t | t in db :: match db[t]
                       case Unscoped(rows) => db[t]
                       case Scoped(column, rows) => Scoped(column, VisibleRows(rows, column, setting))
  }

  predicate Admits(db: Database, setting: string, s: Source) {
    s.table in db && db[s.table].Scoped? ==> Visible(s.row, db[s.table].tenantColumn, setting)
  }

  /** Every source of the derivation belongs to the tenant or to no tenant's table. */
  predicate Own(db: Database, setting: string, d: Derivation) {
    forall i :: 0 <= i < |d.sources| ==> Admits(db, setting, d.sources[i])
  }

  function OwnOnly(ds: seq<Derivation>, db: Database, setting: string): (r: seq<Derivation>)
    ensures |r| <= |ds|
  {
    if ds == [] then []
    else OwnOnly(ds[..|ds| - 1], db, setting) + if Own(db, setting, ds[|ds| - 1]) then [ds[|ds| - 1]] else []
  }

  // ----- the restricted result

  lemma OwnOnlySnoc(ds: seq<Derivation>, d: Derivation, db: Database, setting: string)
    ensures OwnOnly(ds + [d], db, setting) == OwnOnly(ds, db, setting) + if Own(db, setting, d) then [d] else []
  {
    assert (ds + [d])[..|ds|] == ds;
  }

  lemma Regroup(a: seq<Derivation>, b: seq<Derivation>, c: seq<Derivation>)
    ensures (a + b) + c == a + (b + c)
  {
  }

  lemma {:induction false} OwnOnlyConcat(a: seq<Derivation>, b: seq<Derivation>, db: Database, setting: string)
    ensures OwnOnly(a + b, db, setting) == OwnOnly(a, db, setting) + OwnOnly(b, db, setting)
    decreases |b|
  {
    if b == [] {
      assert a + b == a && OwnOnly(a, db, setting) + [] == OwnOnly(a, db, setting);
    } else {
      hide *;
      var init, last := b[..|b| - 1], b[|b| - 1];
      OwnOnlyConcat(a, init, db, setting);
      assert a + b == (a + init) + [last] && b == init + [last];
      OwnOnlySnoc(a + init, last, db, setting);
      OwnOnlySnoc(init, last, db, setting);
      Regroup(OwnOnly(a, db, setting), OwnOnly(init, db, setting), if Own(db, setting, last) then [last] else []);
    }
  }

  lemma OwnPair(l: Derivation, r: Derivation, db: Database, setting: string)
    ensures Own(db, setting, Pair(l, r)) <==> Own(db, setting, l) && Own(db, setting, r)
  {
    var all := l.sources + r.sources;
    assert forall i :: 0 <= i < |l.sources| ==> all[i] == l.sources[i];
    assert forall i :: 0 <= i < |r.sources| ==> all[|l.sources| + i] == r.sources[i];
  }

  lemma ScanRowsSnoc(table: string, rows: seq<Row>, row: Row)
    ensures ScanRows(table, rows + [row]) == ScanRows(table, rows) + [Derivation(row, [Source(table, row)])]
  {
    assert (rows + [row])[..|rows|] == rows;
  }

  lemma {:induction false} ScanRestricted(table: string, rows: seq<Row>, column: nat, db: Database, setting: string)
    requires table in db && db[table].Scoped? && db[table].tenantColumn == column
    ensures ScanRows(table, VisibleRows(rows, column, setting)) == OwnOnly(ScanRows(table, rows), db, setting)
    decreases |rows|
  {
    if rows != [] {
      var init, last := rows[..|rows| - 1], rows[|rows| - 1];
      var d := Derivation(last, [Source(table, last)]);
      ScanRestricted(table, init, column, db, setting);
      assert d.sources[0] == Source(table, last);
      assert Own(db, setting, d) <==> Visible(last, column, setting);
      hide Own, Visible;
      var own, shown := OwnOnly(ScanRows(table, init), db, setting), VisibleRows(init, column, setting);
      OwnOnlySnoc(ScanRows(table, init), d, db, setting);
      ScanRowsSnoc(table, shown, last);
      assert shown + [] == shown && own + [] == own;
    }
  }

  lemma {:induction false} ScanUnrestricted(table: string, rows: seq<Row>, db: Database, setting: string)
    requires table in db && db[table].Unscoped?
    ensures OwnOnly(ScanRows(table, rows), db, setting) == ScanRows(table, rows)
    decreases |rows|
  {
    if rows != [] {
      var init, last := rows[..|rows| - 1], rows[|rows| - 1];
      ScanUnrestricted(table, init, db, setting);
      OwnOnlySnoc(ScanRows(table, init), Derivation(last, [Source(table, last)]), db, setting);
    }
  }

  lemma KeepSnoc(ds: seq<Derivation>, d: Derivation, keep: Row -> bool)
    ensures Keep(ds + [d], keep) == Keep(ds, keep) + if keep(d.row) then [d] else []
  {
    assert (ds + [d])[..|ds|] == ds;
  }

  lemma {:induction false} KeepOwn(ds: seq<Derivation>, keep: Row -> bool, db: Database, setting: string)
    ensures Keep(OwnOnly(ds, db, setting), keep) == OwnOnly(Keep(ds, keep), db, setting)
    decreases |ds|
  {
    if ds != [] {
      var init, last := ds[..|ds| - 1], ds[|ds| - 1];
      KeepOwn(init, keep, db, setting);
      KeepSnoc(OwnOnly(init, db, setting), last, keep);
      OwnOnlySnoc(Keep(init, keep), last, db, setting);
      hide Own;
      assert Keep(init, keep) + [] == Keep(init, keep) && OwnOnly(init, db, setting) + [] == OwnOnly(init, db, setting);
    }
  }

  lemma MapSnoc(ds: seq<Derivation>, d: Derivation, columns: Row -> Row)
    ensures Map(ds + [d], columns) == Map(ds, columns) + [d.(row := columns(d.row))]
  {
    assert (ds + [d])[..|ds|] == ds;
  }

  lemma {:induction false} MapOwn(ds: seq<Derivation>, columns: Row -> Row, db: Database, setting: string)
    ensures Map(OwnOnly(ds, db, setting), columns) == OwnOnly(Map(ds, columns), db, setting)
    decreases |ds|
  {
    if ds != [] {
      var init, last := ds[..|ds| - 1], ds[|ds| - 1];
      MapOwn(init, columns, db, setting);
      MapSnoc(OwnOnly(init, db, setting), last, columns);
      OwnOnlySnoc(Map(init, columns), last.(row := columns(last.row)), db, setting);
      assert OwnOnly(init, db, setting) + [] == OwnOnly(init, db, setting);
    }
  }

  lemma PairWithSnoc(l: Derivation, rs: seq<Derivation>, r: Derivation)
    ensures PairWith(l, rs + [r]) == PairWith(l, rs) + [Pair(l, r)]
  {
    assert (rs + [r])[..|rs|] == rs;
  }

  lemma {:induction false} PairWithOwn(l: Derivation, rs: seq<Derivation>, db: Database, setting: string)
    ensures OwnOnly(PairWith(l, rs), db, setting)
            == if Own(db, setting, l) then PairWith(l, OwnOnly(rs, db, setting)) else []
    decreases |rs|
  {
    if rs != [] {
      var init, last := rs[..|rs| - 1], rs[|rs| - 1];
      PairWithOwn(l, init, db, setting);
      OwnPair(l, last, db, setting);
      OwnOnlySnoc(PairWith(l, init), Pair(l, last), db, setting);
      PairWithSnoc(l, OwnOnly(init, db, setting), last);
      hide Own, Pair;
      assert OwnOnly(init, db, setting) + [] == OwnOnly(init, db, setting);
    }
  }

  lemma PairsSnoc(ls: seq<Derivation>, l: Derivation, rs: seq<Derivation>)
    ensures Pairs(ls + [l], rs) == Pairs(ls, rs) + PairWith(l, rs)
  {
    assert (ls + [l])[..|ls|] == ls;
  }

  lemma {:induction false} PairsOwn(ls: seq<Derivation>, rs: seq<Derivation>, db: Database, setting: string)
    ensures Pairs(OwnOnly(ls, db, setting), OwnOnly(rs, db, setting)) == OwnOnly(Pairs(ls, rs), db, setting)
    decreases |ls|
  {
    if ls != [] {
      var init, last := ls[..|ls| - 1], ls[|ls| - 1];
      var own := OwnOnly(rs, db, setting);
      PairsOwn(init, rs, db, setting);
      PairWithOwn(last, rs, db, setting);
      OwnOnlyConcat(Pairs(init, rs), PairWith(last, rs), db, setting);
      PairsSnoc(OwnOnly(init, db, setting), last, own);
      hide Own, PairWith;
      assert OwnOnly(init, db, setting) + [] == OwnOnly(init, db, setting);
      assert Pairs(OwnOnly(init, db, setting), own) + [] == Pairs(OwnOnly(init, db, setting), own);
    }
  }

  /** Under the policy a query returns exactly the derivations that read only the tenant's
      rows and rows of unscoped tables. */
  lemma {:induction false} RestrictedResult(q: Query, db: Database, setting: string)
    ensures Derive(q, Restrict(db, setting)) == OwnOnly(Derive(q, db), db, setting)
  {
    match q
    case Scan(table) =>
      if table in db {
        match db[table]
        case Unscoped(rows) => ScanUnrestricted(table, rows, db, setting);
        case Scoped(column, rows) => ScanRestricted(table, rows, column, db, setting);
      }
    case Where(from, keep) =>
      RestrictedResult(from, db, setting);
      KeepOwn(Derive(from, db), keep, db, setting);
    case Project(from, columns) =>
      RestrictedResult(from, db, setting);
      MapOwn(Derive(from, db), columns, db, setting);
    case Product(left, right) =>
      RestrictedResult(left, db, setting);
      RestrictedResult(right, db, setting);
      PairsOwn(Derive(left, db), Derive(right, db), db, setting);
    case UnionAll(left, right) =>
      RestrictedResult(left, db, setting);
      RestrictedResult(right, db, setting);
      OwnOnlyConcat(Derive(left, db), Derive(right, db), db, setting);
  }

  // ----- what the verdict means

  function Texts(ds: seq<Derivation>): (r: seq<string>)
    ensures |r| == |ds|
  {
    if ds == [] then [] else Texts(ds[..|ds| - 1]) + [ResultText(ds[|ds| - 1].row)]
  }

  /** How many derivations render to the text. */
  function TextCount(ds: seq<Derivation>, text: string): nat {
    if ds == [] then 0
    else TextCount(ds[..|ds| - 1], text) + if ResultText(ds[|ds| - 1].row) == text then 1 else 0
  }

  lemma {:induction false} TextsBag(ds: seq<Derivation>, text: string)
    ensures multiset(Texts(ds))[text] == TextCount(ds, text)
    decreases |ds|
  {
    if ds != [] {
      var init, last := ds[..|ds| - 1], ds[|ds| - 1];
      TextsBag(init, text);
      assert Texts(ds) == Texts(init) + [ResultText(last.row)];
      hide Texts, ResultText;
      SnocCount(Texts(init), ResultText(last.row), text);
    }
  }

  lemma TextCountSnoc(ds: seq<Derivation>, d: Derivation, text: string)
    ensures TextCount(ds + [d], text) == TextCount(ds, text) + if ResultText(d.row) == text then 1 else 0
  {
    hide ResultText;
    assert (ds + [d])[..|ds|] == ds;
  }

  lemma {:induction false} OwnTextCount(ds: seq<Derivation>, db: Database, setting: string, text: string)
    ensures TextCount(OwnOnly(ds, db, setting), text) <= TextCount(ds, text)
    decreases |ds|
  {
    if ds != [] {
      hide ResultText, Own;
      var own, last := OwnOnly(ds[..|ds| - 1], db, setting), ds[|ds| - 1];
      OwnTextCount(ds[..|ds| - 1], db, setting, text);
      TextCountSnoc(own, last, text);
      assert own + [] == own;
    }
  }

  lemma OwnTextsIncluded(ds: seq<Derivation>, db: Database, setting: string)
    ensures multiset(Texts(OwnOnly(ds, db, setting))) <= multiset(Texts(ds))
  {
    forall text
      ensures multiset(Texts(OwnOnly(ds, db, setting)))[text] <= multiset(Texts(ds))[text]
    {
      OwnTextCount(ds, db, setting, text);
      TextsBag(ds, text);
      TextsBag(OwnOnly(ds, db, setting), text);
    }
  }

  ghost predicate AllOwn(ds: seq<Derivation>, db: Database, setting: string) {
    forall i :: 0 <= i < |ds| ==> Own(db, setting, ds[i])
  }

  lemma AllOwnSnoc(ds: seq<Derivation>, d: Derivation, db: Database, setting: string)
    ensures AllOwn(ds + [d], db, setting) <==> AllOwn(ds, db, setting) && Own(db, setting, d)
  {
    hide Own;
    var all := ds + [d];
    assert all[|ds|] == d && forall i :: 0 <= i < |ds| ==> all[i] == ds[i];
  }

  lemma {:induction false} OwnOnlySize(ds: seq<Derivation>, db: Database, setting: string)
    ensures |OwnOnly(ds, db, setting)| == |ds| <==> AllOwn(ds, db, setting)
    decreases |ds|
  {
    if ds != [] {
      var init, last := ds[..|ds| - 1], ds[|ds| - 1];
      OwnOnlySize(init, db, setting);
      assert ds == init + [last];
      OwnOnlySnoc(init, last, db, setting);
      AllOwnSnoc(init, last, db, setting);
      hide *;
    }
  }

  /** The rendered results of the two legs, in whatever order the server returns the rows. */
  predicate Renders(texts: seq<string>, ds: seq<Derivation>) {
    multiset(texts) == multiset(Texts(ds))
  }

  /** For every database, tenant and query: a read is SAFE exactly when no result was derived
      from a foreign row, otherwise it is a LEAK of exactly as many rows as were; and it is
      vacuous exactly when the query returns nothing. */
  lemma ReadVerdictMeaning(q: Query, db: Database, tenant: string, u: seq<string>, r: seq<string>)
    requires Renders(u, Derive(q, db)) && Renders(r, Derive(q, Restrict(db, tenant)))
    ensures var ds := Derive(q, db);
            var v := ReadVerdict(tenant, u, r);
            && multiset(r) <= multiset(u)
            && (v.verdict == Safe <==> forall i :: 0 <= i < |ds| ==> Own(db, tenant, ds[i]))
            && (v.verdict == Leak <==> v.verdict != Safe)
            && v.withheldRows == |ds| - |OwnOnly(ds, db, tenant)|
            && (v.vacuous <==> ds == [])
  {
    var ds := Derive(q, db);
    RestrictedResult(q, db, tenant);
    OwnTextsIncluded(ds, db, tenant);
    OwnOnlySize(ds, db, tenant);
    RenderedSize(u, ds);
    RenderedSize(r, OwnOnly(ds, db, tenant));
    WithheldExact(tenant, u, r);
    ReadVerdictExact(tenant, u, r);
  }

  lemma RenderedSize(texts: seq<string>, ds: seq<Derivation>)
    requires Renders(texts, ds)
    ensures |texts| == |ds|
  {
    assert |multiset(texts)| == |texts| && |multiset(Texts(ds))| == |Texts(ds)|;
  }

  /** No scoped table stores the empty text in its tenant column. */
  predicate NoEmptyTenant(db: Database) {
    forall t :: t in db && db[t].Scoped? ==>
                  forall i :: 0 <= i < |db[t].rows| ==> !Visible(db[t].rows[i], db[t].tenantColumn, "")
  }

  predicate FromScopedTable(db: Database, s: Source) {
    s.table in db && db[s.table].Scoped? && s.row in db[s.table].rows
  }

  /** With no tenant claimed, the setting is empty and a derivation survives exactly when it
      reads no row of a scoped table. */
  lemma NoTenantClaimed(db: Database, d: Derivation)
    requires NoEmptyTenant(db)
    requires forall i :: 0 <= i < |d.sources| ==> d.sources[i].table in db && d.sources[i].row in db[d.sources[i].table].rows
    ensures Own(db, "", d) <==> forall i :: 0 <= i < |d.sources| ==> !FromScopedTable(db, d.sources[i])
  {
    forall i | 0 <= i < |d.sources|
      ensures Admits(db, "", d.sources[i]) <==> !FromScopedTable(db, d.sources[i])
    {
      var t := db[d.sources[i].table];
      var k :| 0 <= k < |t.rows| && t.rows[k] == d.sources[i].row;
    }
  }
}
