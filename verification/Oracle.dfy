/** The oracle's controls A1 and A4 as statements about a policy, and the proof they add up to. */
module Oracle {
  import opened Cells
  import opened RowDiff
  import opened Text
  import Rls

  const KEY_SEPARATOR: char := '\U{1C}'
  const KEY_SENTINEL := "\U{1D}TGD-NULL\U{1D}"

  /** What row-level security decides about a row, from the row's contents alone. */
  type Rule = Row -> bool

  // ----- the rows a rule admits

  /** How many of the first n rows the rule admits. */
  function Admitted(rows: seq<Row>, n: nat, rule: Rule): (r: nat)
    requires n <= |rows|
    ensures r <= n
  {
    if n == 0 then 0 else Admitted(rows, n - 1, rule) + if rule(rows[n - 1]) then 1 else 0
  }

  ghost predicate AdmitsAll(rows: seq<Row>, n: nat, rule: Rule)
    requires n <= |rows|
  {
    forall i :: 0 <= i < n ==> rule(rows[i])
  }

  lemma {:induction false} AdmittedAll(rows: seq<Row>, n: nat, rule: Rule)
    requires n <= |rows|
    ensures Admitted(rows, n, rule) == n <==> AdmitsAll(rows, n, rule)
  {
    if n > 0 {
      AdmittedAll(rows, n - 1, rule);
    }
  }

  /** The negative control: passes exactly when the rule withholds some row. */
  method CheckA1(rows: seq<Row>, rule: Rule) returns (unrestrictedN: nat, restrictedN: nat, passed: bool)
    ensures unrestrictedN == |rows| && restrictedN == Admitted(rows, |rows|, rule)
    ensures passed <==> exists i :: 0 <= i < |rows| && !rule(rows[i])
  {
    unrestrictedN := |rows|;
    restrictedN := Admitted(rows, |rows|, rule);
    passed := !(restrictedN >= unrestrictedN);
    AdmittedAll(rows, |rows|, rule);
  }

  // ----- row keys

  /** The columns that identify a row: the primary key, else every column, else there are none. */
  function RowKeyColumns(primaryKey: seq<nat>, width: nat): Option<seq<nat>> {
    if |primaryKey| > 0 then Some(primaryKey)
    else if width == 0 then None
    else Some(seq(width, (i: nat) => i))
  }

  /** The cells of the key columns; a column past the row's end reads as NULL. */
  function KeyCells(row: Row, columns: seq<nat>): (r: Row)
    ensures |r| == |columns|
  {
    seq(|columns|, i requires 0 <= i < |columns| => if columns[i] < |row| then row[columns[i]] else Null)
  }

  /** The text that the key expression evaluates to on a row. */
  function RowKey(row: Row, columns: seq<nat>): string {
    RowText(KeyCells(row, columns), 0, KEY_SEPARATOR, KEY_SENTINEL)
  }

  predicate CleanKeys(rows: seq<Row>, columns: seq<nat>) {
    forall i :: 0 <= i < |rows| ==> CleanRow(KeyCells(rows[i], columns), KEY_SEPARATOR, KEY_SENTINEL)
  }

  /** Rows that agree on the key columns are the same row. */
  predicate KeyIdentifies(rows: seq<Row>, columns: seq<nat>) {
    forall i, j :: 0 <= i < |rows| && 0 <= j < |rows| && KeyCells(rows[i], columns) == KeyCells(rows[j], columns) ==>
                     rows[i] == rows[j]
  }

  predicate RowsOfWidth(rows: seq<Row>, width: nat) {
    forall i :: 0 <= i < |rows| ==> |rows[i]| == width
  }

  /** Without a primary key every column is in the key, which identifies rows whatever they hold. */
  lemma AllColumnsIdentify(rows: seq<Row>, width: nat)
    requires RowsOfWidth(rows, width) && width > 0
    ensures KeyIdentifies(rows, RowKeyColumns([], width).value)
  {
    var columns := RowKeyColumns([], width).value;
    forall i | 0 <= i < |rows|
      ensures KeyCells(rows[i], columns) == rows[i]
    {
      assert forall k :: 0 <= k < width ==> columns[k] == k;
    }
  }

  lemma RowKeyInjective(rows: seq<Row>, columns: seq<nat>, i: nat, j: nat)
    requires CleanKeys(rows, columns) && KeyIdentifies(rows, columns) && i < |rows| && j < |rows|
    ensures RowKey(rows[i], columns) == RowKey(rows[j], columns) <==> rows[i] == rows[j]
  {
    RowTextInjective(KeyCells(rows[i], columns), KeyCells(rows[j], columns), KEY_SEPARATOR, KEY_SENTINEL);
  }

  /** The keys of the admitted rows among the first n, in storage order. */
  function Keys(rows: seq<Row>, n: nat, rule: Rule, columns: seq<nat>): seq<string>
    requires n <= |rows|
  {
    if n == 0 then []
    else Keys(rows, n - 1, rule, columns) + if rule(rows[n - 1]) then [RowKey(rows[n - 1], columns)] else []
  }

  lemma KeysStep(rows: seq<Row>, n: nat, rule: Rule, columns: seq<nat>, key: string)
    requires 0 < n <= |rows|
    ensures multiset(Keys(rows, n, rule, columns))[key]
            == multiset(Keys(rows, n - 1, rule, columns))[key]
               + if rule(rows[n - 1]) && RowKey(rows[n - 1], columns) == key then 1 else 0
  {
    hide RowKey;
    var before := Keys(rows, n - 1, rule, columns);
    if rule(rows[n - 1]) {
      SnocCount(before, RowKey(rows[n - 1], columns), key);
    } else {
      assert before + [] == before;
    }
  }

  /** How many of the first n rows the rule admits under the key. */
  function KeyCount(rows: seq<Row>, n: nat, rule: Rule, columns: seq<nat>, key: string): nat
    requires n <= |rows|
  {
    if n == 0 then 0
    else KeyCount(rows, n - 1, rule, columns, key)
         + if rule(rows[n - 1]) && RowKey(rows[n - 1], columns) == key then 1 else 0
  }

  lemma {:induction false} KeysBag(rows: seq<Row>, n: nat, rule: Rule, columns: seq<nat>, key: string)
    requires n <= |rows|
    ensures multiset(Keys(rows, n, rule, columns))[key] == KeyCount(rows, n, rule, columns, key)
  {
    if n > 0 {
      KeysBag(rows, n - 1, rule, columns, key);
      KeysStep(rows, n, rule, columns, key);
      hide RowKey, Keys;
    }
  }

  /** A returned key is the key of an admitted row. */
  lemma {:induction false} KeyOrigin(rows: seq<Row>, n: nat, rule: Rule, columns: seq<nat>, key: string) returns (k: nat)
    requires n <= |rows| && KeyCount(rows, n, rule, columns, key) > 0
    ensures k < n && rule(rows[k]) && RowKey(rows[k], columns) == key
    decreases n
  {
    hide RowKey;
    if rule(rows[n - 1]) && RowKey(rows[n - 1], columns) == key {
      k := n - 1;
    } else {
      k := KeyOrigin(rows, n - 1, rule, columns, key);
    }
  }

  lemma {:induction false} KeyReturned(rows: seq<Row>, n: nat, rule: Rule, columns: seq<nat>, k: nat)
    requires k < n <= |rows| && rule(rows[k])
    ensures KeyCount(rows, n, rule, columns, RowKey(rows[k], columns)) > 0
    decreases n
  {
    hide RowKey;
    if k < n - 1 {
      KeyReturned(rows, n - 1, rule, columns, k);
    }
  }

  lemma {:induction false} KeysNumber(rows: seq<Row>, n: nat, rule: Rule, columns: seq<nat>)
    requires n <= |rows|
    ensures |Keys(rows, n, rule, columns)| == Admitted(rows, n, rule)
  {
    hide RowKey;
    if n > 0 {
      KeysNumber(rows, n - 1, rule, columns);
    }
  }

  // ----- when equal keys mean equal rows

  ghost predicate SameRule(rows: seq<Row>, a: Rule, b: Rule) {
    forall i :: 0 <= i < |rows| ==> (a(rows[i]) <==> b(rows[i]))
  }

  ghost predicate SameKeys(rows: seq<Row>, a: Rule, b: Rule, columns: seq<nat>) {
    multiset(Keys(rows, |rows|, a, columns)) == multiset(Keys(rows, |rows|, b, columns))
  }

  /** No admitted row shares its key text with a row the rule withholds. */
  ghost predicate Apart(rows: seq<Row>, rule: Rule, columns: seq<nat>) {
    forall i, j :: 0 <= i < |rows| && 0 <= j < |rows| && rule(rows[i]) && !rule(rows[j]) ==>
                     RowKey(rows[i], columns) != RowKey(rows[j], columns)
  }

  /** Clean keys that identify rows keep every rule's rows apart. */
  lemma CleanApart(rows: seq<Row>, rule: Rule, columns: seq<nat>)
    requires CleanKeys(rows, columns) && KeyIdentifies(rows, columns)
    ensures Apart(rows, rule, columns)
  {
    hide CleanKeys, KeyIdentifies, RowKey;
    forall i, j | 0 <= i < |rows| && 0 <= j < |rows| && rule(rows[i]) && !rule(rows[j])
      ensures RowKey(rows[i], columns) != RowKey(rows[j], columns)
    {
      RowKeyInjective(rows, columns, i, j);
    }
  }

  lemma {:induction false} SameRuleKeys(rows: seq<Row>, n: nat, a: Rule, b: Rule, columns: seq<nat>)
    requires n <= |rows| && SameRule(rows, a, b)
    ensures Keys(rows, n, a, columns) == Keys(rows, n, b, columns)
  {
    hide RowKey;
    if n > 0 {
      SameRuleKeys(rows, n - 1, a, b, columns);
    }
  }

  /** A rule that admits no more rows than another and as many admits the same. */
  lemma {:induction false} AdmittedSame(rows: seq<Row>, n: nat, a: Rule, b: Rule)
    requires n <= |rows| && forall i :: 0 <= i < |rows| && b(rows[i]) ==> a(rows[i])
    ensures Admitted(rows, n, b) <= Admitted(rows, n, a)
    ensures Admitted(rows, n, b) == Admitted(rows, n, a) ==> forall i :: 0 <= i < n ==> (a(rows[i]) <==> b(rows[i]))
  {
    if n > 0 {
      AdmittedSame(rows, n - 1, a, b);
    }
  }

  /** Where the first rule's rows are apart, another rule returns the same keys equally often exactly
      when the two agree on every row. */
  lemma KeysAgree(rows: seq<Row>, a: Rule, b: Rule, columns: seq<nat>)
    requires Apart(rows, a, columns)
    ensures SameKeys(rows, a, b, columns) <==> SameRule(rows, a, b)
  {
    if SameRule(rows, a, b) {
      SameRuleKeys(rows, |rows|, a, b, columns);
    }
    if SameKeys(rows, a, b, columns) {
      forall j | 0 <= j < |rows| && b(rows[j])
        ensures a(rows[j])
      {
        KeptApart(rows, a, b, columns, j);
      }
      KeysNumber(rows, |rows|, a, columns);
      KeysNumber(rows, |rows|, b, columns);
      assert |multiset(Keys(rows, |rows|, a, columns))| == |multiset(Keys(rows, |rows|, b, columns))|;
      hide Keys, Apart, RowKey;
      AdmittedSame(rows, |rows|, a, b);
    }
  }

  lemma KeptApart(rows: seq<Row>, a: Rule, b: Rule, columns: seq<nat>, j: nat)
    requires Apart(rows, a, columns) && SameKeys(rows, a, b, columns) && j < |rows| && b(rows[j])
    ensures a(rows[j])
  {
    var key := RowKey(rows[j], columns);
    hide RowKey, Keys;
    KeyReturned(rows, |rows|, b, columns, j);
    KeysBag(rows, |rows|, a, columns, key);
    KeysBag(rows, |rows|, b, columns, key);
    var k := KeyOrigin(rows, |rows|, a, columns, key);
  }

  // ----- when they do not

  ghost predicate DistinctRows(rows: seq<Row>) {
    forall i, j :: 0 <= i < |rows| && 0 <= j < |rows| && rows[i] == rows[j] ==> i == j
  }

  /** The rule with one row traded for another. */
  function Traded(rule: Rule, lost: Row, gained: Row): Rule {
    row => row == gained || (row != lost && rule(row))
  }

  lemma {:induction false} TradedCount(rows: seq<Row>, n: nat, rule: Rule, columns: seq<nat>, key: string, i: nat, j: nat)
    requires n <= |rows| && DistinctRows(rows) && i < |rows| && j < |rows| && rule(rows[i]) && !rule(rows[j])
    requires RowKey(rows[i], columns) == RowKey(rows[j], columns)
    ensures KeyCount(rows, n, Traded(rule, rows[i], rows[j]), columns, key)
            == KeyCount(rows, n, rule, columns, key)
               + (if j < n && RowKey(rows[j], columns) == key then 1 else 0)
               - (if i < n && RowKey(rows[i], columns) == key then 1 else 0)
  {
    hide RowKey;
    if n > 0 {
      TradedCount(rows, n - 1, rule, columns, key, i, j);
      assert rows[n - 1] == rows[i] <==> n - 1 == i;
      assert rows[n - 1] == rows[j] <==> n - 1 == j;
    }
  }

  /** On distinct rows a shared key lets a wrong rule return the right keys. */
  lemma SharedKeyFools(rows: seq<Row>, rule: Rule, columns: seq<nat>, i: nat, j: nat)
    requires DistinctRows(rows) && i < |rows| && j < |rows| && rule(rows[i]) && !rule(rows[j])
    requires RowKey(rows[i], columns) == RowKey(rows[j], columns)
    ensures var wrong := Traded(rule, rows[i], rows[j]);
            SameKeys(rows, rule, wrong, columns) && !SameRule(rows, rule, wrong)
  {
    var wrong := Traded(rule, rows[i], rows[j]);
    assert wrong(rows[j]);
    forall key
      ensures multiset(Keys(rows, |rows|, rule, columns))[key] == multiset(Keys(rows, |rows|, wrong, columns))[key]
    {
      KeysBag(rows, |rows|, rule, columns, key);
      KeysBag(rows, |rows|, wrong, columns, key);
      TradedCount(rows, |rows|, rule, columns, key, i, j);
    }
  }

  /** Comparing keys is comparing rows, whatever the other rule, exactly when the rule's rows are
      apart from the others. */
  lemma KeysDecide(rows: seq<Row>, rule: Rule, columns: seq<nat>)
    requires DistinctRows(rows)
    ensures Apart(rows, rule, columns)
            <==> forall other: Rule :: SameKeys(rows, rule, other, columns) ==> SameRule(rows, rule, other)
  {
    hide SameKeys, SameRule, RowKey;
    if Apart(rows, rule, columns) {
      forall other: Rule | SameKeys(rows, rule, other, columns)
        ensures SameRule(rows, rule, other)
      {
        KeysAgree(rows, rule, other, columns);
      }
    } else {
      var i, j :| 0 <= i < |rows| && 0 <= j < |rows| && rule(rows[i]) && !rule(rows[j])
                  && RowKey(rows[i], columns) == RowKey(rows[j], columns);
      SharedKeyFools(rows, rule, columns, i, j);
    }
  }

  // ----- the order of the two answers

  /** A total order on texts, as the database sorts them. */
  ghost predicate TotalOrder(le: (string, string) -> bool) {
    && (forall a, b :: le(a, b) || le(b, a))
    && (forall a, b :: le(a, b) && le(b, a) ==> a == b)
    && (forall a, b, c :: le(a, b) && le(b, c) ==> le(a, c))
  }

  ghost predicate Ascending(s: seq<string>, le: (string, string) -> bool) {
    forall i, j :: 0 <= i <= j < |s| ==> le(s[i], s[j])
  }

  /** The least text comes first. */
  lemma SmallestFirst(a: seq<string>, b: seq<string>, le: (string, string) -> bool)
    requires Ascending(a, le) && Ascending(b, le) && TotalOrder(le)
    requires multiset(a) == multiset(b) && a != []
    ensures b != [] && a[0] == b[0]
  {
    assert a[0] in multiset(b) && |multiset(b)| == |b|;
    assert b[0] in multiset(a);
    var i :| 0 <= i < |a| && a[i] == b[0];
    var j :| 0 <= j < |b| && b[j] == a[0];
    assert le(a[0], b[0]) && le(b[0], a[0]);
  }

  lemma TailBag(a: seq<string>)
    requires a != []
    ensures multiset(a[1..]) == multiset(a) - multiset{a[0]}
  {
    assert a == [a[0]] + a[1..];
  }

  /** Two ascending lists of the same texts are the same list. */
  lemma {:induction false} AscendingUnique(a: seq<string>, b: seq<string>, le: (string, string) -> bool)
    requires Ascending(a, le) && Ascending(b, le) && TotalOrder(le) && multiset(a) == multiset(b)
    ensures a == b
    decreases |a|
  {
    assert |multiset(a)| == |a| && |multiset(b)| == |b|;
    if a != [] {
      SmallestFirst(a, b, le);
      TailBag(a);
      TailBag(b);
      assert Ascending(a[1..], le) && Ascending(b[1..], le);
      AscendingUnique(a[1..], b[1..], le);
      assert a == [a[0]] + a[1..] && b == [b[0]] + b[1..];
    }
  }

  method StringSlicesEqual(a: seq<string>, b: seq<string>) returns (equal: bool)
    ensures equal <==> a == b
  {
    if |a| != |b| {
      return false;
    }
    var i := 0;
    while i < |a|
      invariant 0 <= i <= |a|
      invariant forall k :: 0 <= k < i ==> a[k] == b[k]
    {
      if a[i] != b[i] {
        return false;
      }
      i := i + 1;
    }
    return true;
  }

  // ----- the positive control

  /** The reference predicate `tenant column = tenant`, the same test as the synthesised policy's. */
  predicate Owned(row: Row, tenantColumn: nat, tenant: string) {
    Rls.Visible(row, tenantColumn, tenant)
  }

  /** That test as a rule. */
  function TenantRule(tenantColumn: nat, tenant: string): Rule {
    row => Owned(row, tenantColumn, tenant)
  }

  /** The database's answer to `SELECT key .. ORDER BY key` over the rows the rule admits. */
  ghost predicate OrderedKeys(keys: seq<string>, rows: seq<Row>, rule: Rule, columns: seq<nat>, le: (string, string) -> bool) {
    multiset(keys) == multiset(Keys(rows, |rows|, rule, columns)) && Ascending(keys, le)
  }

  /** The rule admits exactly the tenant's rows. */
  ghost predicate Exact(rows: seq<Row>, rule: Rule, tenantColumn: nat, tenant: string) {
    forall i :: 0 <= i < |rows| ==> (rule(rows[i]) <==> Owned(rows[i], tenantColumn, tenant))
  }

  datatype ControlError = NoRowKey | WrongRows

  /** The positive control, on the two ordered answers. It never fails a rule that admits exactly the
      tenant's rows, and where no row of the tenant shares its key text with a foreign row it passes no
      other. */
  method CheckA4(rows: seq<Row>, width: nat, primaryKey: seq<nat>, tenantColumn: nat, tenant: string, ghost rule: Rule,
                 reference: seq<string>, got: seq<string>, ghost le: (string, string) -> bool)
    returns (failure: Option<ControlError>)
    requires TotalOrder(le)
    requires RowKeyColumns(primaryKey, width).Some? ==>
               var columns := RowKeyColumns(primaryKey, width).value;
               && OrderedKeys(reference, rows, TenantRule(tenantColumn, tenant), columns, le)
               && OrderedKeys(got, rows, rule, columns, le)
    ensures failure == Some(NoRowKey) <==> primaryKey == [] && width == 0
    ensures failure != Some(NoRowKey) ==>
              var own, columns := TenantRule(tenantColumn, tenant), RowKeyColumns(primaryKey, width).value;
              && (failure == None <==> SameKeys(rows, own, rule, columns))
              && (Exact(rows, rule, tenantColumn, tenant) ==> failure == None)
              && (Apart(rows, own, columns) ==> (failure == None <==> Exact(rows, rule, tenantColumn, tenant)))
  {
    var keyColumns := RowKeyColumns(primaryKey, width);
    if keyColumns.None? {
      return Some(NoRowKey);
    }
    var equal := StringSlicesEqual(reference, got);
    A4Meaning(rows, keyColumns.value, tenantColumn, tenant, rule, reference, got, le);
    hide *;
    return if equal then None else Some(WrongRows);
  }

  lemma A4Meaning(rows: seq<Row>, columns: seq<nat>, tenantColumn: nat, tenant: string, rule: Rule,
                  reference: seq<string>, got: seq<string>, le: (string, string) -> bool)
    requires TotalOrder(le)
    requires OrderedKeys(reference, rows, TenantRule(tenantColumn, tenant), columns, le)
    requires OrderedKeys(got, rows, rule, columns, le)
    ensures var own := TenantRule(tenantColumn, tenant);
            && (reference == got <==> SameKeys(rows, own, rule, columns))
            && (Exact(rows, rule, tenantColumn, tenant) ==> reference == got)
            && (Apart(rows, own, columns) ==> (reference == got <==> Exact(rows, rule, tenantColumn, tenant)))
  {
    var own := TenantRule(tenantColumn, tenant);
    ExactRule(rows, rule, tenantColumn, tenant);
    hide Keys, TenantRule, SameRule, Exact, TotalOrder, Ascending, Apart;
    if multiset(reference) == multiset(got) {
      AscendingUnique(reference, got, le);
    }
    if Apart(rows, own, columns) {
      KeysAgree(rows, own, rule, columns);
    }
    if SameRule(rows, own, rule) {
      SameRuleKeys(rows, |rows|, own, rule, columns);
    }
  }

  lemma ExactRule(rows: seq<Row>, rule: Rule, tenantColumn: nat, tenant: string)
    ensures SameRule(rows, TenantRule(tenantColumn, tenant), rule) <==> Exact(rows, rule, tenantColumn, tenant)
  {
    var own := TenantRule(tenantColumn, tenant);
    assert forall i :: 0 <= i < |rows| ==> own(rows[i]) == Owned(rows[i], tenantColumn, tenant);
  }

  /** On distinct rows the positive control's pass means an exact rule, whatever the rule, exactly when
      no row of the tenant shares its key text with a foreign row. */
  lemma A4Decides(rows: seq<Row>, columns: seq<nat>, tenantColumn: nat, tenant: string)
    requires DistinctRows(rows)
    ensures var own := TenantRule(tenantColumn, tenant);
            Apart(rows, own, columns)
            <==> forall rule: Rule :: SameKeys(rows, own, rule, columns) ==> Exact(rows, rule, tenantColumn, tenant)
  {
    KeysDecide(rows, TenantRule(tenantColumn, tenant), columns);
    forall rule: Rule
      ensures SameRule(rows, TenantRule(tenantColumn, tenant), rule) <==> Exact(rows, rule, tenantColumn, tenant)
    {
      ExactRule(rows, rule, tenantColumn, tenant);
    }
    hide TenantRule, SameRule, Exact, SameKeys, Apart;
  }

  lemma TwoColumnKey(row: Row)
    requires |row| == 3
    ensures RowKey(row, [0, 1])
            == CellText(row[0], KEY_SENTINEL) + ([KEY_SEPARATOR] + CellText(row[1], KEY_SENTINEL))
  {
    var cells := KeyCells(row, [0, 1]);
    assert cells[0] == row[0] && cells[1] == row[1];
    assert RowText(cells, 1, KEY_SEPARATOR, KEY_SENTINEL) == CellText(row[1], KEY_SENTINEL);
  }

  /** The separator's absence from the key columns is needed: with it, a foreign row and an own row
      can share a key, and showing the one for the other passes the positive control. */
  lemma SeparatorHidesWrongRow(tenant: string, other: string)
    requires tenant != other
    ensures var own := [Value("a\U{1C}"), Value("b"), Value(tenant)];
            var foreign := [Value("a"), Value("\U{1C}b"), Value(other)];
            var wrong := TenantRule(2, other);
            && KeyIdentifies([own, foreign], [0, 1])
            && Keys([own, foreign], 2, wrong, [0, 1]) == Keys([own, foreign], 2, TenantRule(2, tenant), [0, 1])
            && !Exact([own, foreign], wrong, 2, tenant)
  {
    var own := [Value("a" + [KEY_SEPARATOR]), Value("b"), Value(tenant)];
    var foreign := [Value("a"), Value([KEY_SEPARATOR] + "b"), Value(other)];
    assert "a" + [KEY_SEPARATOR] == "a\U{1C}" && [KEY_SEPARATOR] + "b" == "\U{1C}b";
    var rows := [own, foreign];
    TwoColumnKey(own);
    TwoColumnKey(foreign);
    assert RowKey(own, [0, 1]) == RowKey(foreign, [0, 1]);
    hide RowKey;
    assert KeyCells(own, [0, 1])[0] != KeyCells(foreign, [0, 1])[0];
    assert Keys(rows, 1, TenantRule(2, tenant), [0, 1]) == [RowKey(own, [0, 1])];
    assert Keys(rows, 1, TenantRule(2, other), [0, 1]) == [];
    assert !TenantRule(2, other)(rows[0]);
  }

  /** A text that is the sentinel reads as NULL: the two rows have one key. */
  lemma SentinelReadsAsNull()
    ensures RowKey([Null], [0]) == RowKey([Value("\U{1D}TGD-NULL\U{1D}")], [0])
  {
    var row, text := [Null], [Value(KEY_SENTINEL)];
    assert KeyCells(row, [0]) == row && KeyCells(text, [0]) == text;
  }

  // ----- the two controls together

  ghost predicate A1Passes(rows: seq<Row>, rule: Rule) {
    exists i :: 0 <= i < |rows| && !rule(rows[i])
  }

  ghost predicate ForeignRow(rows: seq<Row>, tenantColumn: nat, tenant: string) {
    exists i :: 0 <= i < |rows| && !Owned(rows[i], tenantColumn, tenant)
  }

  /** Among rules that pass the positive control, the negative one passes exactly where a foreign
      row exists, so with a single tenant the positive control alone proves nothing. */
  lemma BothControls(rows: seq<Row>, rule: Rule, tenantColumn: nat, tenant: string)
    requires Exact(rows, rule, tenantColumn, tenant)
    ensures A1Passes(rows, rule) <==> ForeignRow(rows, tenantColumn, tenant)
  {
    if ForeignRow(rows, tenantColumn, tenant) {
      var i :| 0 <= i < |rows| && !Owned(rows[i], tenantColumn, tenant);
      assert !rule(rows[i]);
    }
    if A1Passes(rows, rule) {
      var i :| 0 <= i < |rows| && !rule(rows[i]);
      assert !Owned(rows[i], tenantColumn, tenant);
    }
  }

  /** On a probe holding only one tenant's rows, `USING (true)` passes the positive control and
      fails the negative one. */
  lemma SingleTenant(rows: seq<Row>, tenantColumn: nat, tenant: string)
    requires !ForeignRow(rows, tenantColumn, tenant)
    ensures var everything := (row: Row) => true;
            Exact(rows, everything, tenantColumn, tenant) && !A1Passes(rows, everything)
  {
  }

  /** Where a canary of each tenant was seeded, the synthesised policy passes both controls, and a
      rule that passes both admits the first canary and withholds the second. */
  lemma TwoCanaries(rows: seq<Row>, tenantColumn: nat, first: string, second: string, a: nat, b: nat, rule: Rule)
    requires first != second && a < |rows| && b < |rows|
    requires Owned(rows[a], tenantColumn, first) && Owned(rows[b], tenantColumn, second)
    ensures Exact(rows, TenantRule(tenantColumn, first), tenantColumn, first)
    ensures A1Passes(rows, TenantRule(tenantColumn, first))
    ensures Exact(rows, rule, tenantColumn, first) ==> A1Passes(rows, rule) && rule(rows[a]) && !rule(rows[b])
  {
    ExactRule(rows, TenantRule(tenantColumn, first), tenantColumn, first);
    assert !Owned(rows[b], tenantColumn, first);
    BothControls(rows, TenantRule(tenantColumn, first), tenantColumn, first);
    if Exact(rows, rule, tenantColumn, first) {
      BothControls(rows, rule, tenantColumn, first);
    }
  }

  /** What a passing negative control alone leaves open: a rule that withholds the tenant's own
      rows and shows the others passes it. */
  lemma NegativeControlAlone(rows: seq<Row>, tenantColumn: nat, tenant: string, k: nat)
    requires k < |rows| && Owned(rows[k], tenantColumn, tenant)
    ensures var inverted := (row: Row) => !Owned(row, tenantColumn, tenant);
            A1Passes(rows, inverted) && !Exact(rows, inverted, tenantColumn, tenant)
  {
    var inverted := (row: Row) => !Owned(row, tenantColumn, tenant);
    assert !inverted(rows[k]);
  }

  // ----- the state of the proof

  datatype ProofState = ProofState(
    a1Checked: bool, a1Passed: bool, a2Checked: bool, a2Passed: bool,
    a3Checked: bool, a3Passed: bool, a4Checked: bool, a4Passed: bool)

  datatype ProofError = NotRun(control: nat) | Failed(control: nat)

  predicate Checked(p: ProofState, control: nat) {
    if control == 1 then p.a1Checked else if control == 2 then p.a2Checked
    else if control == 3 then p.a3Checked else p.a4Checked
  }

  predicate Passed(p: ProofState, control: nat) {
    if control == 1 then p.a1Passed else if control == 2 then p.a2Passed
    else if control == 3 then p.a3Passed else p.a4Passed
  }

  /** Every control in front of this one was run and passed. */
  predicate ProvenBefore(p: ProofState, control: nat) {
    forall k :: 1 <= k < control ==> Checked(p, k) && Passed(p, k)
  }

  /** The first control that was not run or did not pass; nothing when the policy is proven. */
  function PolicyProven(p: ProofState): (r: Option<ProofError>)
    ensures match r
            case None => ProvenBefore(p, 5)
            case Some(NotRun(k)) => 1 <= k <= 4 && ProvenBefore(p, k) && !Checked(p, k)
            case Some(Failed(k)) => 1 <= k <= 4 && ProvenBefore(p, k) && Checked(p, k) && !Passed(p, k)
  {
    if !p.a1Checked then Some(NotRun(1))
    else if !p.a1Passed then Some(Failed(1))
    else if !p.a2Checked then Some(NotRun(2))
    else if !p.a2Passed then Some(Failed(2))
    else if !p.a3Checked then Some(NotRun(3))
    else if !p.a3Passed then Some(Failed(3))
    else if !p.a4Checked then Some(NotRun(4))
    else if !p.a4Passed then Some(Failed(4))
    else None
  }
}
