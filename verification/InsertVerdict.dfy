/** Multi-row INSERTs on one unique key: when the replay succeeds, and which verdict the
    comparison with the restricted replay gives. */
module InsertVerdict {
  import opened Text
  import opened Conflict
  import opened Verdicts
  import opened WriteReplay

  // ----- the statement

  /** Inserts rows i, i+1, .. one by one; the first whose key is taken fails the statement. */
  function InsertFrom(rows: seq<NewRow>, i: nat, t: Table): Outcome
    requires i <= |rows|
    decreases |rows| - i
  {
    if i == |rows| then Done(t, |rows|)
    else if rows[i].key in t then Failed(UniqueViolation(Some(rows[i].key)))
    else InsertFrom(rows, i + 1, t[rows[i].key := Stored(rows[i].tenant, rows[i].body)])
  }

  function Insert(rows: seq<NewRow>): Statement {
    (t: Table) => InsertFrom(rows, 0, t)
  }

  /** Under the policy `tenant = setting` each row is checked before its key is, and the
      violated key is withheld. */
  function InsertAsFrom(rows: seq<NewRow>, tenant: string, i: nat, t: Table): Outcome
    requires i <= |rows|
    decreases |rows| - i
  {
    if i == |rows| then Done(t, |rows|)
    else if rows[i].tenant != tenant then Failed(RowSecurity)
    else if rows[i].key in t then Failed(UniqueViolation(None))
    else InsertAsFrom(rows, tenant, i + 1, t[rows[i].key := Stored(rows[i].tenant, rows[i].body)])
  }

  function InsertAs(rows: seq<NewRow>, tenant: string): Statement {
    (t: Table) => InsertAsFrom(rows, tenant, 0, t)
  }

  // ----- collisions

  predicate DistinctKeys(rows: seq<NewRow>) {
    forall i, j :: 0 <= i < j < |rows| ==> rows[i].key != rows[j].key
  }

  /** How many of the first n rows meet an existing row. */
  function Collisions(rows: seq<NewRow>, n: nat, t: Table): nat
    requires n <= |rows|
  {
    if n == 0 then 0 else Collisions(rows, n - 1, t) + if rows[n - 1].key in t then 1 else 0
  }

  /** The last of the first n rows that meets an existing row. */
  function LastCollision(rows: seq<NewRow>, n: nat, t: Table): (r: Option<Key>)
    requires n <= |rows|
    ensures r.Some? ==> r.value in t
  {
    if n == 0 then None
    else if rows[n - 1].key in t then Some(rows[n - 1].key)
    else LastCollision(rows, n - 1, t)
  }

  predicate AllRecoverable(rows: seq<NewRow>, t: Table) {
    forall i :: 0 <= i < |rows| && rows[i].key in t ==> Recoverable(rows[i].key)
  }

  /** The first row from i on that meets an existing row; |rows| when none does. */
  function FirstCollision(rows: seq<NewRow>, i: nat, t: Table): (r: nat)
    requires i <= |rows|
    ensures i <= r <= |rows| && (r < |rows| ==> rows[r].key in t)
    ensures forall j :: i <= j < r ==> rows[j].key !in t
    decreases |rows| - i
  {
    if i == |rows| || rows[i].key in t then i else FirstCollision(rows, i + 1, t)
  }

  /** The rows stored on top of a table. */
  function WithRows(rows: seq<NewRow>, n: nat, t: Table): Table
    requires n <= |rows|
  {
    if n == 0 then t
    else WithRows(rows, n - 1, t)[rows[n - 1].key := Stored(rows[n - 1].tenant, rows[n - 1].body)]
  }

  lemma {:induction false} WithRowsKeys(rows: seq<NewRow>, n: nat, t: Table, key: Key)
    requires n <= |rows|
    ensures key in WithRows(rows, n, t) <==> key in t || exists j :: 0 <= j < n && rows[j].key == key
  {
    if n > 0 {
      WithRowsKeys(rows, n - 1, t, key);
    }
  }

  predicate AgreeExcept(a: Table, b: Table, key: Key) {
    a - {key} == b - {key}
  }

  /** Rows overwrite what was stored under their keys. */
  lemma {:induction false} WithRowsOver(rows: seq<NewRow>, n: nat, t: Table, c: nat)
    requires n <= |rows| && c < |rows|
    ensures AgreeExcept(WithRows(rows, n, t - {rows[c].key}), WithRows(rows, n, t), rows[c].key)
    ensures c < n ==> WithRows(rows, n, t - {rows[c].key}) == WithRows(rows, n, t)
  {
    var key := rows[c].key;
    if n > 0 {
      WithRowsOver(rows, n - 1, t, c);
      var a, b := WithRows(rows, n - 1, t - {key}), WithRows(rows, n - 1, t);
      SameElsewhere(a, b, key, rows[n - 1].key, Stored(rows[n - 1].tenant, rows[n - 1].body));
    } else {
      assert (t - {key}) - {key} == t - {key};
    }
  }

  lemma SameElsewhere(a: Table, b: Table, key: Key, k: Key, v: Stored)
    requires AgreeExcept(a, b, key)
    ensures AgreeExcept(a[k := v], b[k := v], key)
    ensures k == key ==> a[k := v] == b[k := v]
  {
    assert forall x :: x in a && x != key ==> x in a - {key};
    assert forall x :: x in b && x != key ==> x in b - {key};
    assert a.Keys - {key} == (a - {key}).Keys == (b - {key}).Keys == b.Keys - {key};
    assert forall x :: x in a && x != key ==> a[x] == (a - {key})[x] == (b - {key})[x] == b[x];
  }

  /** Without repeated keys an INSERT fails exactly at the first row that meets an existing one. */
  lemma {:induction false} InsertDistinct(rows: seq<NewRow>, i: nat, t: Table)
    requires i <= |rows| && DistinctKeys(rows)
    requires forall j :: 0 <= j < i ==> rows[j].key !in t
    ensures var first := FirstCollision(rows, i, t);
            InsertFrom(rows, i, WithRows(rows, i, t)) ==
            if first == |rows| then Done(WithRows(rows, |rows|, t), |rows|)
            else Failed(UniqueViolation(Some(rows[first].key)))
    decreases |rows| - i
  {
    if i < |rows| {
      WithRowsKeys(rows, i, t, rows[i].key);
      if rows[i].key !in t {
        InsertDistinct(rows, i + 1, t);
      }
    }
  }

  /** With repeated keys it always fails. */
  lemma {:induction false} InsertRepeated(rows: seq<NewRow>, i: nat, t: Table, a: nat, b: nat)
    requires i <= b < |rows| && a < b && rows[a].key == rows[b].key
    requires a < i ==> rows[a].key in t
    ensures InsertFrom(rows, i, t).Failed?
    decreases |rows| - i
  {
    if rows[i].key !in t {
      InsertRepeated(rows, i + 1, t[rows[i].key := Stored(rows[i].tenant, rows[i].body)], a, b);
    }
  }

  // ----- one turn of the loop removes one collision

  lemma {:induction false} CollisionsNone(rows: seq<NewRow>, n: nat, t: Table)
    requires n <= |rows|
    ensures Collisions(rows, n, t) == 0 <==> forall i :: 0 <= i < n ==> rows[i].key !in t
    ensures LastCollision(rows, n, t) == None <==> Collisions(rows, n, t) == 0
  {
    if n > 0 {
      CollisionsNone(rows, n - 1, t);
    }
  }

  lemma {:induction false} CollisionRemoved(rows: seq<NewRow>, n: nat, t: Table, c: nat)
    requires n <= |rows| && c < |rows| && DistinctKeys(rows) && rows[c].key in t
    ensures Collisions(rows, n, t - {rows[c].key}) == Collisions(rows, n, t) - if c < n then 1 else 0
  {
    if n > 0 {
      CollisionRemoved(rows, n - 1, t, c);
      assert n - 1 != c ==> rows[n - 1].key != rows[c].key;
    }
  }

  /** Removing the first collision leaves the last one, unless it was the only one. */
  lemma {:induction false} LastCollisionKept(rows: seq<NewRow>, n: nat, t: Table, c: nat)
    requires c < n <= |rows| && DistinctKeys(rows) && c == FirstCollision(rows, 0, t)
    ensures var left := LastCollision(rows, n, t - {rows[c].key});
            LastCollision(rows, n, t) == if left == None then Some(rows[c].key) else left
  {
    assert n - 1 != c ==> rows[n - 1].key != rows[c].key;
    if n - 1 > c {
      LastCollisionKept(rows, n - 1, t, c);
    } else {
      CollisionsNone(rows, c, t - {rows[c].key});
      CollisionsNone(rows, c, t);
    }
  }

  /** The replay of an INSERT succeeds exactly when its keys are distinct, every collision is
      recoverable from the error's detail, and the attempts left cover the collisions. It then
      inserts all rows into the table without the colliding rows, and reports the last collision. */
  lemma {:induction false} ReplayInsert(rows: seq<NewRow>, t: Table, attempt: nat, resolved: Option<Key>)
    requires attempt <= MAX_CONFLICT_RETRIES
    ensures var r := Replay(t, Insert(rows), attempt, resolved);
            && (r.Success? <==> DistinctKeys(rows) && AllRecoverable(rows, t)
                                && Collisions(rows, |rows|, t) <= MAX_CONFLICT_RETRIES - 1 - attempt)
            && (r.Success? ==> r.resolved == (var last := LastCollision(rows, |rows|, t);
                                              if last == None then resolved else last))
            && (r.Success? ==> r.affected == |rows| && r.table == WithRows(rows, |rows|, t))
    decreases MAX_CONFLICT_RETRIES - attempt
  {
    hide ConflictKey;
    if !DistinctKeys(rows) {
      ReplayRepeated(rows, t, attempt, resolved);
    } else if attempt < MAX_CONFLICT_RETRIES {
      var c := FirstCollision(rows, 0, t);
      InsertDistinct(rows, 0, t);
      CollisionsNone(rows, |rows|, t);
      if c < |rows| {
        var key := rows[c].key;
        if Recoverable(key) {
          ReplayInsert(rows, t - {key}, attempt + 1, Some(key));
          CollisionRemoved(rows, |rows|, t, c);
          LastCollisionKept(rows, |rows|, t, c);
          WithRowsOver(rows, |rows|, t, c);
        } else {
          ReplayUnrecoverable(rows, t, attempt, resolved, c);
        }
      }
    }
  }

  lemma {:induction false} ReplayRepeated(rows: seq<NewRow>, t: Table, attempt: nat, resolved: Option<Key>)
    requires attempt <= MAX_CONFLICT_RETRIES && !DistinctKeys(rows)
    ensures Replay(t, Insert(rows), attempt, resolved).Failure?
    decreases MAX_CONFLICT_RETRIES - attempt
  {
    hide ConflictKey;
    hide ConflictKey;
    if attempt < MAX_CONFLICT_RETRIES {
      var a, b :| 0 <= a < b < |rows| && rows[a].key == rows[b].key;
      InsertRepeated(rows, 0, t, a, b);
      var e := InsertFrom(rows, 0, t).error;
      if AsConflictKey(e).Some? && AsConflictKey(e).value in t {
        ReplayRepeated(rows, t - {AsConflictKey(e).value}, attempt + 1, AsConflictKey(e));
      }
    }
  }

  lemma ReplayStep(t: Table, stmt: Statement, attempt: nat, resolved: Option<Key>)
    requires attempt < MAX_CONFLICT_RETRIES && stmt(t).Failed?
    ensures var key := AsConflictKey(stmt(t).error);
            Replay(t, stmt, attempt, resolved)
            == if key == None || key.value !in t then Failure(stmt(t).error, resolved)
               else Replay(t - {key.value}, stmt, attempt + 1, key)
  {
    hide AsConflictKey;
  }

  lemma ReplayGivesUp(t: Table, stmt: Statement, resolved: Option<Key>)
    ensures Replay(t, stmt, MAX_CONFLICT_RETRIES, resolved).Failure?
  {
  }

  /** Inserting fails on the first collision, with its key in the detail. */
  lemma CollisionFails(rows: seq<NewRow>, t: Table, c: nat)
    requires DistinctKeys(rows) && c < |rows| && c == FirstCollision(rows, 0, t)
    ensures Insert(rows)(t).Failed? && AsConflictKey(Insert(rows)(t).error) == ConflictKey(rows[c].key)
  {
    hide ConflictKey;
    InsertDistinct(rows, 0, t);
  }

  lemma NotRecovered(key: Key)
    ensures Recoverable(key) <==> ConflictKey(key) == Some(key)
  {
    hide ConflictKey;
  }

  /** When the first collision cannot be recovered the loop removes at most one other row
      and then fails on the same collision. */
  lemma {:induction false} ReplayUnrecoverable(rows: seq<NewRow>, t: Table, attempt: nat, resolved: Option<Key>, c: nat)
    requires attempt <= MAX_CONFLICT_RETRIES && DistinctKeys(rows)
    requires c < |rows| && c == FirstCollision(rows, 0, t) && !Recoverable(rows[c].key)
    ensures Replay(t, Insert(rows), attempt, resolved).Failure?
    decreases MAX_CONFLICT_RETRIES - attempt
  {
    hide *;
    var other := ConflictKey(rows[c].key);
    NotRecovered(rows[c].key);
    if attempt == MAX_CONFLICT_RETRIES {
      ReplayGivesUp(t, Insert(rows), resolved);
    } else {
      CollisionFails(rows, t, c);
      ReplayStep(t, Insert(rows), attempt, resolved);
      if other.Some? && other.value in t {
        FirstCollisionSame(rows, 0, t, t - {other.value});
        ReplayUnrecoverable(rows, t - {other.value}, attempt + 1, other, c);
      }
    }
  }

  lemma {:induction false} FirstCollisionSame(rows: seq<NewRow>, i: nat, t: Table, rest: Table)
    requires i <= |rows| && rest.Keys <= t.Keys
    requires FirstCollision(rows, i, t) < |rows| && rows[FirstCollision(rows, i, t)].key in rest
    ensures FirstCollision(rows, i, rest) == FirstCollision(rows, i, t)
    decreases |rows| - i
  {
    if rows[i].key !in t {
      FirstCollisionSame(rows, i + 1, t, rest);
    }
  }

  // ----- the restricted leg

  /** The first row from i on whose tenant the policy does not admit; |rows| when all are admitted. */
  function FirstForeign(rows: seq<NewRow>, i: nat, tenant: string): (r: nat)
    requires i <= |rows|
    ensures i <= r <= |rows| && (r < |rows| ==> rows[r].tenant != tenant)
    ensures forall j :: i <= j < r ==> rows[j].tenant == tenant
    decreases |rows| - i
  {
    if i == |rows| || rows[i].tenant != tenant then i else FirstForeign(rows, i + 1, tenant)
  }

  lemma {:induction false} InsertAsDistinct(rows: seq<NewRow>, tenant: string, i: nat, t: Table)
    requires i <= |rows| && DistinctKeys(rows)
    requires forall j :: 0 <= j < i ==> rows[j].key !in t
    ensures var foreign, taken := FirstForeign(rows, i, tenant), FirstCollision(rows, i, t);
            var r := InsertAsFrom(rows, tenant, i, WithRows(rows, i, t));
            if foreign == taken == |rows| then r == Done(WithRows(rows, |rows|, t), |rows|)
            else r == Failed(if foreign <= taken then RowSecurity else UniqueViolation(None))
    decreases |rows| - i
  {
    if i < |rows| {
      WithRowsKeys(rows, i, t, rows[i].key);
      if rows[i].key !in t && rows[i].tenant == tenant {
        InsertAsDistinct(rows, tenant, i + 1, t);
      }
    }
  }

  function VerdictOn(rows: seq<NewRow>, t: Table, tenant: string): Result {
    WriteVerdict(t, tenant, Insert(rows), InsertAs(rows, tenant))
  }

  predicate Resolvable(rows: seq<NewRow>, t: Table) {
    DistinctKeys(rows) && AllRecoverable(rows, t) && Collisions(rows, |rows|, t) < MAX_CONFLICT_RETRIES
  }

  /** The verdict on every INSERT. The unrestricted leg must be resolvable and the last
      colliding row must belong to the claimed tenant; then the first row that is foreign or
      still collides decides, the policy being checked before the key. */
  lemma InsertVerdictExact(rows: seq<NewRow>, t: Table, tenant: string)
    ensures var last := LastCollision(rows, |rows|, t);
            var left := if last.Some? then t - {last.value} else t;
            var foreign, taken := FirstForeign(rows, 0, tenant), FirstCollision(rows, 0, left);
            VerdictOn(rows, t, tenant) ==
            if !Resolvable(rows, t) || (last.Some? && t[last.value].tenant != tenant) then UNATTRIBUTABLE
            else if foreign == taken == |rows| then Result(Safe, tenant, 0, rows == [])
            else if foreign <= taken then Result(Leak, tenant, 1, false)
            else UNATTRIBUTABLE
  {
    ReplayInsert(rows, t, 0, None);
    LastCollisionIn(rows, |rows|, t);
    VerdictCases(rows, t, tenant);
    if Resolvable(rows, t) {
      var last := LastCollision(rows, |rows|, t);
      RestrictedCases(rows, if last.Some? then t - {last.value} else t, tenant);
    }
    hide Replay, VerdictOn, InsertAs, AllRecoverable, DistinctKeys, Collisions, LastCollision, IsRowSecurityViolation;
    JudgeCases(tenant);
  }

  lemma VerdictOnMeans(rows: seq<NewRow>, t: Table, tenant: string)
    ensures VerdictOn(rows, t, tenant) == WriteVerdict(t, tenant, Insert(rows), InsertAs(rows, tenant))
  {
    hide WriteVerdict;
  }

  lemma VerdictCases(rows: seq<NewRow>, t: Table, tenant: string)
    ensures var r := Replay(t, Insert(rows), 0, None);
            VerdictOn(rows, t, tenant)
            == if r.Failure? then UNATTRIBUTABLE
               else Judge(tenant, r.affected, ReplayAs(t, tenant, InsertAs(rows, tenant), r.resolved))
  {
    hide Replay, Judge, ReplayAs, Insert, InsertAs;
  }

  lemma RestrictedCases(rows: seq<NewRow>, left: Table, tenant: string)
    requires DistinctKeys(rows)
    ensures var foreign, taken := FirstForeign(rows, 0, tenant), FirstCollision(rows, 0, left);
            var r := InsertAs(rows, tenant)(left);
            if foreign == taken == |rows| then r.Done? && r.affected == |rows|
            else r == Failed(if foreign <= taken then RowSecurity else UniqueViolation(None))
  {
    InsertAsDistinct(rows, tenant, 0, left);
  }

  lemma JudgeCases(tenant: string)
    ensures IsRowSecurityViolation(RowSecurity) && !IsRowSecurityViolation(UniqueViolation(None))
            && !IsRowSecurityViolation(NotAdmitted)
  {
  }

  lemma {:induction false} LastCollisionIn(rows: seq<NewRow>, n: nat, t: Table)
    requires n <= |rows|
    ensures var last := LastCollision(rows, n, t);
            last.Some? ==> exists i :: 0 <= i < n && rows[i].key == last.value
  {
    if n > 0 {
      LastCollisionIn(rows, n - 1, t);
    }
  }

  /** SAFE means both legs succeeded, every inserted row carries the claimed tenant, and the
      row removed to make room, if any, was that tenant's and the only one in the way. */
  lemma SafeInsert(rows: seq<NewRow>, t: Table, tenant: string)
    requires VerdictOn(rows, t, tenant).verdict == Safe
    ensures DistinctKeys(rows) && Collisions(rows, |rows|, t) <= 1
    ensures forall i :: 0 <= i < |rows| ==> rows[i].tenant == tenant
    ensures forall i :: 0 <= i < |rows| && rows[i].key in t ==> t[rows[i].key].tenant == tenant
  {
    InsertVerdictExact(rows, t, tenant);
    hide VerdictOn, AllRecoverable, LastCollision;
    var last := LastCollision(rows, |rows|, t);
    var left := if last.Some? then t - {last.value} else t;
    CollisionsNone(rows, |rows|, t);
    CollisionsNone(rows, |rows|, left);
    if last.Some? {
      LastCollisionIn(rows, |rows|, t);
      var c :| 0 <= c < |rows| && rows[c].key == last.value;
      CollisionRemoved(rows, |rows|, t, c);
    }
  }

  /** Two or more collisions never give SAFE. */
  lemma TwoCollisionsNotSafe(rows: seq<NewRow>, t: Table, tenant: string)
    requires Collisions(rows, |rows|, t) >= 2
    ensures VerdictOn(rows, t, tenant).verdict != Safe
  {
    if VerdictOn(rows, t, tenant).verdict == Safe {
      SafeInsert(rows, t, tenant);
    }
  }

  /** LEAK means the restricted INSERT ran, on the table without the resolved conflict, and
      the policy rejected one of its rows. */
  lemma LeakInsert(rows: seq<NewRow>, t: Table, tenant: string)
    requires VerdictOn(rows, t, tenant).verdict == Leak
    ensures Replay(t, Insert(rows), 0, None).Success?
    ensures var known := Replay(t, Insert(rows), 0, None).resolved;
            ReplayAs(t, tenant, InsertAs(rows, tenant), known) == Rejected(RowSecurity)
    ensures exists i :: 0 <= i < |rows| && rows[i].tenant != tenant
  {
    InsertVerdictExact(rows, t, tenant);
    ReplayInsert(rows, t, 0, None);
    LastCollisionIn(rows, |rows|, t);
    var last := LastCollision(rows, |rows|, t);
    InsertAsDistinct(rows, tenant, 0, if last.Some? then t - {last.value} else t);
  }

  /** With two collisions the tenant of the first one is never looked at: a foreign conflicting
      row does not prevent a LEAK. */
  lemma ForeignConflictCanLeak()
    ensures var t: Table := map[Id("1") := Stored("b", ""), Id("2") := Stored("a", "")];
            var rows := [NewRow(Id("4"), "a", ""), NewRow(Id("3"), "b", ""),
                         NewRow(Id("1"), "a", ""), NewRow(Id("2"), "a", "")];
            VerdictOn(rows, t, "a").verdict == Leak && t[rows[2].key].tenant != "a"
  {
    var t: Table := map[Id("1") := Stored("b", ""), Id("2") := Stored("a", "")];
    var rows := [NewRow(Id("4"), "a", ""), NewRow(Id("3"), "b", ""),
                 NewRow(Id("1"), "a", ""), NewRow(Id("2"), "a", "")];
    IdRecoverable('1');
    IdRecoverable('2');
    DistinctIds();
    assert "a" != "b" by {
      assert "a"[0] != "b"[0];
    }
    hide Recoverable, Id, ConflictKey, VerdictOn;
    TwoConflicts(rows, t, rows[0].key, rows[1].key, rows[2].key, rows[3].key);
    assert t[rows[2].key].tenant == "b" && t[rows[3].key].tenant == "a" && rows[1].tenant == "b";
    ForeignConflictExact(rows, t, "a", 2);
  }

  /** Four rows with their own keys of which the last two collide. */
  lemma TwoConflicts(rows: seq<NewRow>, t: Table, a: Key, b: Key, c: Key, d: Key)
    requires |rows| == 4 && rows[0].key == a && rows[1].key == b && rows[2].key == c && rows[3].key == d
    requires a != b && a != c && a != d && b != c && b != d && c != d
    requires a !in t && b !in t && c in t && d in t && Recoverable(c) && Recoverable(d)
    ensures Resolvable(rows, t) && LastCollision(rows, 4, t) == Some(d)
  {
    hide Recoverable;
    assert Collisions(rows, 1, t) == 0 && Collisions(rows, 2, t) == 0;
    assert Collisions(rows, 3, t) == 1 && Collisions(rows, 4, t) == 2;
  }

  function Id(value: string): Key {
    [Part("id", value)]
  }

  lemma DistinctIds()
    ensures Id("1") != Id("2") && Id("1") != Id("3") && Id("1") != Id("4")
    ensures Id("2") != Id("3") && Id("2") != Id("4") && Id("3") != Id("4")
  {
    assert "1"[0] != "2"[0] && "1"[0] != "3"[0] && "1"[0] != "4"[0];
    assert "2"[0] != "3"[0] && "2"[0] != "4"[0] && "3"[0] != "4"[0];
    assert Id("1")[0].value == "1" && Id("2")[0].value == "2" && Id("3")[0].value == "3" && Id("4")[0].value == "4";
  }

  lemma IdRecoverable(digit: char)
    requires '0' <= digit <= '9'
    ensures Recoverable(Id([digit]))
  {
    RecoverableExact(Id([digit]));
    hide Recoverable;
    assert Simple("id");
  }

  /** Once the last conflict is out of the way, the foreign one is the only one left. */
  lemma OnlyConflictLeft(rows: seq<NewRow>, t: Table, c: nat, d: nat)
    requires c < |rows| && d < |rows| && c != d && rows[c].key in t && rows[d].key in t
    requires DistinctKeys(rows) && Collisions(rows, |rows|, t) <= 2
    ensures FirstCollision(rows, 0, t - {rows[d].key}) == c
  {
    var left := t - {rows[d].key};
    CollisionRemoved(rows, |rows|, t, d);
    assert rows[c].key != rows[d].key;
    CollisionRemoved(rows, |rows|, left, c);
    CollisionsNone(rows, |rows|, left - {rows[c].key});
    var first := FirstCollision(rows, 0, left);
    assert first <= c;
    assert rows[first].key !in left - {rows[c].key};
  }

  /** When a row meets a stored row of another tenant, the INSERT goes unjudged unless that conflict is
      hidden behind a later one of the claimed tenant's own and a foreign row stands at or before it:
      then, and only then, it is a LEAK. */
  lemma ForeignConflictExact(rows: seq<NewRow>, t: Table, tenant: string, c: nat)
    requires c < |rows| && rows[c].key in t && t[rows[c].key].tenant != tenant
    ensures var last := LastCollision(rows, |rows|, t);
            var hidden := Resolvable(rows, t) && last.Some? && t[last.value].tenant == tenant
                          && exists i :: 0 <= i <= c && rows[i].tenant != tenant;
            VerdictOn(rows, t, tenant) == if hidden then Result(Leak, tenant, 1, false) else UNATTRIBUTABLE
  {
    var last := LastCollision(rows, |rows|, t);
    InsertVerdictExact(rows, t, tenant);
    CollisionsNone(rows, |rows|, t);
    if Resolvable(rows, t) && t[last.value].tenant == tenant {
      LastCollisionIn(rows, |rows|, t);
      var d :| 0 <= d < |rows| && rows[d].key == last.value;
      OnlyConflictLeft(rows, t, c, d);
      hide VerdictOn, Resolvable, Collisions, LastCollision;
      var foreign := FirstForeign(rows, 0, tenant);
      assert foreign <= c <==> exists i :: 0 <= i <= c && rows[i].tenant != tenant;
    }
  }

  /** A single conflicting row of another tenant is never judged. */
  lemma ForeignConflict(rows: seq<NewRow>, t: Table, tenant: string, c: nat)
    requires c < |rows| && rows[c].key in t && t[rows[c].key].tenant != tenant
    requires Collisions(rows, |rows|, t) == 1
    ensures VerdictOn(rows, t, tenant) == UNATTRIBUTABLE
  {
    ForeignConflictExact(rows, t, tenant, c);
    LastCollisionIn(rows, |rows|, t);
    var last := LastCollision(rows, |rows|, t);
    hide VerdictOn, AllRecoverable, LastCollision;
    if Resolvable(rows, t) && last.Some? {
      var d :| 0 <= d < |rows| && rows[d].key == last.value;
      CollisionRemoved(rows, |rows|, t, d);
      CollisionsNone(rows, |rows|, t - {last.value});
      assert rows[c].key !in t - {last.value};
    }
  }

  // ----- DELETE

  function DeleteWhere(doomed: (Key, Stored) -> bool): Statement {
    (t: Table) =>
      var gone := set k | k in t && doomed(k, t[k]);
      Done(t - gone, |gone|)
  }

  /** Under the policy a DELETE reaches only the tenant's own rows. */
  function DeleteWhereAs(doomed: (Key, Stored) -> bool, tenant: string): Statement {
    DeleteWhere((k: Key, row: Stored) => row.tenant == tenant && doomed(k, row))
  }

  /** A DELETE is always judged SAFE, whatever rows of other tenants it removes: only success
      under the policy is compared, not what was affected. It is vacuous exactly when it
      matches no row at all. */
  lemma DeleteAlwaysSafe(t: Table, tenant: string, doomed: (Key, Stored) -> bool)
    ensures var r := WriteVerdict(t, tenant, DeleteWhere(doomed), DeleteWhereAs(doomed, tenant));
            r == Result(Safe, tenant, 0, forall k :: k in t ==> !doomed(k, t[k]))
  {
    var all := set k | k in t && doomed(k, t[k]);
    var own := set k | k in t && t[k].tenant == tenant && doomed(k, t[k]);
    assert |all| == 0 <==> all == {};
    assert own <= all;
    assert all == {} ==> own == {};
    assert Replay(t, DeleteWhere(doomed), 0, None) == Success(t - all, |all|, None);
    var ownDoomed := (k: Key, row: Stored) => row.tenant == tenant && doomed(k, row);
    assert own == set k | k in t && ownDoomed(k, t[k]);
    if exists k :: k in t && doomed(k, t[k]) {
      var k :| k in t && doomed(k, t[k]);
      assert k in all;
    }
  }

  // ----- UPDATE

  function MatchedKeys(t: Table, matched: (Key, Stored) -> bool): set<Key> {
    set k | k in t && matched(k, t[k])
  }

  /** Rewrites the matched rows in place; their keys stay. */
  function Update(t: Table, matched: (Key, Stored) -> bool, change: (Key, Stored) -> Stored): Outcome {
    Done(map k | k in t :: if matched(k, t[k]) then change(k, t[k]) else t[k], |MatchedKeys(t, matched)|)
  }

  function UpdateWhere(matched: (Key, Stored) -> bool, change: (Key, Stored) -> Stored): Statement {
    (t: Table) => Update(t, matched, change)
  }

  /** An own row that is matched would leave the tenant. */
  predicate MovesOwnRow(t: Table, matched: (Key, Stored) -> bool, change: (Key, Stored) -> Stored, tenant: string) {
    exists k :: k in t && t[k].tenant == tenant && matched(k, t[k]) && change(k, t[k]).tenant != tenant
  }

  function OwnMatched(matched: (Key, Stored) -> bool, tenant: string): (Key, Stored) -> bool {
    (k: Key, row: Stored) => row.tenant == tenant && matched(k, row)
  }

  /** Under the policy an UPDATE reaches only the tenant's own rows, and may not move one away. */
  function UpdateWhereAs(matched: (Key, Stored) -> bool, change: (Key, Stored) -> Stored, tenant: string): Statement {
    (t: Table) =>
      if MovesOwnRow(t, matched, change, tenant) then Failed(RowSecurity)
      else Update(t, OwnMatched(matched, tenant), change)
  }

  lemma NoneMatched(t: Table, matched: (Key, Stored) -> bool, tenant: string)
    ensures |MatchedKeys(t, matched)| == 0 <==> forall k :: k in t ==> !matched(k, t[k])
    ensures |MatchedKeys(t, matched)| == 0 ==> |MatchedKeys(t, OwnMatched(matched, tenant))| == 0
  {
    var all, own := MatchedKeys(t, matched), MatchedKeys(t, OwnMatched(matched, tenant));
    assert forall k :: k in all <==> k in t && matched(k, t[k]);
    assert forall k :: k in own ==> k in all;
    if |all| == 0 {
      assert all == {};
      assert own == {};
    }
    if forall k :: k in t ==> !matched(k, t[k]) {
      assert all == {};
    }
  }

  /** The verdict on every UPDATE that leaves keys alone: LEAK exactly when it would move an own row to
      another tenant, and otherwise SAFE, whatever foreign rows it changes; vacuous exactly when it
      matches no row at all. */
  lemma UpdateVerdict(t: Table, tenant: string, matched: (Key, Stored) -> bool, change: (Key, Stored) -> Stored)
    ensures WriteVerdict(t, tenant, UpdateWhere(matched, change), UpdateWhereAs(matched, change, tenant))
            == if MovesOwnRow(t, matched, change, tenant) then Result(Leak, tenant, 1, false)
               else Result(Safe, tenant, 0, forall k :: k in t ==> !matched(k, t[k]))
  {
    hide ConflictKey, Contains, MatchedKeys, OwnMatched, MovesOwnRow;
    NoneMatched(t, matched, tenant);
  }
}
