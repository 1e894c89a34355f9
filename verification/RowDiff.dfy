/** Comparing the row sets of the two re-executions of a read. */
module RowDiff {
  import opened Cells
  import opened ResultRows
  import opened Verdicts

  function RowTexts(rows: seq<Row>, n: nat): (r: seq<string>)
    requires n <= |rows|
    ensures |r| == n
  {
    if n == 0 then [] else RowTexts(rows, n - 1) + [ResultText(rows[n - 1])]
  }

  method JoinRow(row: Row) returns (s: string)
    ensures s == ResultText(row)
  {
    s := "";
    var i := |row|;
    while i > 0
      invariant 0 <= i <= |row|
      invariant s == RowText(row, i, SEPARATOR, NULL_MARK)
    {
      i := i - 1;
      var part := CellText(row[i], NULL_MARK);
      s := if i == |row| - 1 then part else part + ([SEPARATOR] + s);
    }
  }

  /** Renders every row, in ascending order: the server's order of rows is lost on purpose. */
  method CollectRows(rows: seq<Row>) returns (out: seq<string>)
    ensures multiset(out) == multiset(RowTexts(rows, |rows|)) && Ascending(out)
  {
    var texts: seq<string> := [];
    var i := 0;
    while i < |rows|
      invariant 0 <= i <= |rows|
      invariant texts == RowTexts(rows, i)
    {
      var text := JoinRow(rows[i]);
      texts := texts + [text];
      i := i + 1;
    }
    out := SortStrings(texts);
  }

  // ----- sorting

  /** Lexicographic order. */
  predicate TextLe(a: string, b: string) {
    a == "" || (b != "" && (a[0] < b[0] || (a[0] == b[0] && TextLe(a[1..], b[1..]))))
  }

  lemma {:induction false} TextLeTotal(a: string, b: string)
    ensures TextLe(a, b) || TextLe(b, a)
  {
    if a != "" && b != "" && a[0] == b[0] {
      TextLeTotal(a[1..], b[1..]);
    }
  }

  predicate Ascending(s: seq<string>) {
    forall i :: 0 < i < |s| ==> TextLe(s[i - 1], s[i])
  }

  method InsertSorted(s: seq<string>, x: string) returns (out: seq<string>)
    requires Ascending(s)
    ensures Ascending(out) && multiset(out) == multiset(s) + multiset{x}
  {
    hide TextLe, Ascending;
    var k := 0;
    while k < |s| && TextLe(s[k], x)
      invariant 0 <= k <= |s|
      invariant k > 0 ==> TextLe(s[k - 1], x)
    {
      k := k + 1;
    }
    if k < |s| {
      TextLeTotal(s[k], x);
    }
    out := s[..k] + [x] + s[k..];
    InsertedBag(s, k, x);
    InsertedAscends(s, k, x);
  }

  lemma InsertedBag(s: seq<string>, k: nat, x: string)
    requires k <= |s|
    ensures multiset(s[..k] + [x] + s[k..]) == multiset(s) + multiset{x}
  {
    assert s == s[..k] + s[k..];
  }

  lemma InsertedAscends(s: seq<string>, k: nat, x: string)
    requires k <= |s| && Ascending(s)
    requires (k > 0 ==> TextLe(s[k - 1], x)) && (k < |s| ==> TextLe(x, s[k]))
    ensures Ascending(s[..k] + [x] + s[k..])
  {
    hide TextLe;
    var out := s[..k] + [x] + s[k..];
    forall i | 0 < i < |out|
      ensures TextLe(out[i - 1], out[i])
    {
      assert out[i] == if i < k then s[i] else if i == k then x else s[i - 1];
      assert out[i - 1] == if i - 1 < k then s[i - 1] else if i - 1 == k then x else s[i - 2];
    }
  }

  method SortStrings(s: seq<string>) returns (out: seq<string>)
    ensures Ascending(out) && multiset(out) == multiset(s)
  {
    out := [];
    hide Ascending;
    EmptyAscending();
    for i := 0 to |s|
      invariant Ascending(out) && multiset(out) == multiset(s[..i])
    {
      assert s[..i + 1] == s[..i] + [s[i]];
      out := InsertSorted(out, s[i]);
    }
    assert s[..|s|] == s;
  }

  lemma EmptyAscending()
    ensures Ascending([])
  {
  }

  // ----- multiset shortfall

  /** Entries of `have` that `want` does not match, duplicates counted. */
  ghost function Shortfall(have: seq<string>, want: seq<string>): nat {
    |multiset(have) - multiset(want)|
  }

  function Count(m: map<string, nat>, key: string): nat {
    if key in m then m[key] else 0
  }

  /** `remaining` counts what is left of `w` once the entries `p` have been matched. */
  ghost predicate Remaining(remaining: map<string, nat>, w: multiset<string>, p: multiset<string>) {
    forall s :: Count(remaining, s) == if w[s] > p[s] then w[s] - p[s] else 0
  }

  lemma CountedStep(remaining: map<string, nat>, p: multiset<string>, x: string)
    requires Remaining(remaining, p, multiset{})
    ensures Remaining(remaining[x := Count(remaining, x) + 1], p + multiset{x}, multiset{})
  {
  }

  lemma ShortfallStep(remaining: map<string, nat>, w: multiset<string>, p: multiset<string>, h: string)
    requires Remaining(remaining, w, p)
    ensures if Count(remaining, h) > 0 then
              Remaining(remaining[h := Count(remaining, h) - 1], w, p + multiset{h})
              && |(p + multiset{h}) - w| == |p - w|
            else Remaining(remaining, w, p + multiset{h}) && |(p + multiset{h}) - w| == |p - w| + 1
  {
    var q := p + multiset{h};
    if Count(remaining, h) > 0 {
      assert q - w == p - w;
    } else {
      assert q - w == (p - w) + multiset{h};
    }
  }

  /** The first n entries as a multiset. */
  ghost function Bag(s: seq<string>, n: nat): multiset<string>
    requires n <= |s|
  {
    if n == 0 then multiset{} else Bag(s, n - 1) + multiset{s[n - 1]}
  }

  lemma {:induction false} BagPrefix(s: seq<string>, n: nat)
    requires n <= |s|
    ensures Bag(s, n) == multiset(s[..n])
  {
    if n > 0 {
      BagPrefix(s, n - 1);
      assert s[..n] == s[..n - 1] + [s[n - 1]];
    }
  }

  lemma BagAll(s: seq<string>)
    ensures Bag(s, |s|) == multiset(s)
  {
    BagPrefix(s, |s|);
    assert s[..|s|] == s;
  }

  lemma WantStep(remaining: map<string, nat>, want: seq<string>, i: nat)
    requires i < |want| && Remaining(remaining, Bag(want, i), multiset{})
    ensures Remaining(remaining[want[i] := Count(remaining, want[i]) + 1], Bag(want, i + 1), multiset{})
  {
    CountedStep(remaining, Bag(want, i), want[i]);
  }

  lemma HaveStep(remaining: map<string, nat>, w: multiset<string>, have: seq<string>, i: nat)
    requires i < |have| && Remaining(remaining, w, Bag(have, i))
    ensures var h, matched := have[i], |Bag(have, i) - w|;
            if Count(remaining, h) > 0 then
              h in remaining && remaining[h] > 0
              && Remaining(remaining[h := remaining[h] - 1], w, Bag(have, i + 1))
              && |Bag(have, i + 1) - w| == matched
            else Remaining(remaining, w, Bag(have, i + 1)) && |Bag(have, i + 1) - w| == matched + 1
  {
    ShortfallStep(remaining, w, Bag(have, i), have[i]);
  }

  lemma StartRemaining(want: seq<string>, have: seq<string>)
    ensures Remaining(map[], Bag(want, 0), multiset{})
    ensures Bag(have, 0) == multiset{} && forall w: multiset<string> :: |Bag(have, 0) - w| == 0
  {
    forall w: multiset<string>
      ensures |Bag(have, 0) - w| == 0
    {
      assert multiset{} - w == multiset{};
    }
  }

  method MultisetShortfall(have: seq<string>, want: seq<string>) returns (shortfall: nat)
    ensures shortfall == Shortfall(have, want)
  {
    var remaining: map<string, nat> := map[];
    var i := 0;
    StartRemaining(want, have);
    hide *;
    while i < |want|
      invariant 0 <= i <= |want|
      invariant Remaining(remaining, Bag(want, i), multiset{})
    {
      WantStep(remaining, want, i);
      remaining := remaining[want[i] := Count(remaining, want[i]) + 1];
      i := i + 1;
    }
    ghost var w := Bag(want, |want|);
    shortfall := 0;
    i := 0;
    while i < |have|
      invariant 0 <= i <= |have|
      invariant Remaining(remaining, w, Bag(have, i))
      invariant shortfall == |Bag(have, i) - w|
    {
      var h := have[i];
      HaveStep(remaining, w, have, i);
      i := i + 1;
      if Count(remaining, h) > 0 {
        remaining := remaining[h := remaining[h] - 1];
        continue;
      }
      shortfall := shortfall + 1;
    }
    ShortfallBags(have, want);
  }

  lemma ShortfallBags(have: seq<string>, want: seq<string>)
    ensures Shortfall(have, want) == |Bag(have, |have|) - Bag(want, |want|)|
  {
    BagAll(want);
    BagAll(have);
  }

  // ----- the verdict

  /** The verdict on a read, given the two rendered results. */
  ghost function ReadVerdict(tenant: string, unrestricted: seq<string>, restricted: seq<string>): Result {
    var withheld := Shortfall(unrestricted, restricted);
    if withheld > 0 || |unrestricted| != |restricted| then
      Result(Leak, tenant,
             if withheld == 0 then Abs(|unrestricted| - |restricted|) else withheld, false)
    else Result(Safe, tenant, 0, |unrestricted| == 0)
  }

  function Abs(n: int): nat {
    if n < 0 then -n else n
  }

  /** The order of the rendered rows does not matter. */
  lemma VerdictIgnoresOrder(tenant: string, u: seq<string>, r: seq<string>, v: seq<string>, s: seq<string>)
    requires multiset(u) == multiset(v) && multiset(r) == multiset(s)
    ensures ReadVerdict(tenant, u, r) == ReadVerdict(tenant, v, s)
  {
    assert |multiset(u)| == |u| && |multiset(v)| == |v| && |multiset(r)| == |r| && |multiset(s)| == |s|;
    assert v == [] <==> u == [];
  }

  method DiffRead(tenant: string, unrestricted: seq<Row>, restricted: seq<Row>) returns (r: Result)
    ensures r == ReadVerdict(tenant, RowTexts(unrestricted, |unrestricted|), RowTexts(restricted, |restricted|))
  {
    var unrestrictedRows := CollectRows(unrestricted);
    var restrictedRows := CollectRows(restricted);
    VerdictIgnoresOrder(tenant, unrestrictedRows, restrictedRows,
                        RowTexts(unrestricted, |unrestricted|), RowTexts(restricted, |restricted|));
    hide RowTexts, Ascending;
    var withheld := MultisetShortfall(unrestrictedRows, restrictedRows);
    if withheld > 0 || |unrestrictedRows| != |restrictedRows| {
      if withheld == 0 {
        withheld := Abs(|unrestrictedRows| - |restrictedRows|);
      }
      return Result(Leak, tenant, withheld, false);
    }
    return Result(Safe, tenant, 0, |unrestrictedRows| == 0);
  }

  lemma SubmultisetSize(a: multiset<string>, b: multiset<string>)
    requires a <= b
    ensures |b - a| == |b| - |a| && |a - b| == 0
    ensures |a| == |b| ==> a == b
  {
    assert b == (b - a) + a;
    assert a - b == multiset{};
    if |a| == |b| {
      assert |b - a| == 0;
      assert b - a == multiset{};
    }
  }

  lemma EmptyDifference(a: multiset<string>, b: multiset<string>)
    ensures |a - b| == 0 <==> a <= b
  {
    if |a - b| == 0 {
      assert a - b == multiset{};
      forall x | x in a
        ensures a[x] <= b[x]
      {
        assert (a - b)[x] == 0;
      }
    } else {
      var x :| x in a - b;
      assert a[x] > b[x];
    }
  }

  /** SAFE means the two results are the same multiset, whatever the order of their rows. */
  lemma ReadVerdictExact(tenant: string, u: seq<string>, r: seq<string>)
    ensures var v := ReadVerdict(tenant, u, r);
            && (v.verdict == Safe <==> multiset(u) == multiset(r))
            && (v.verdict == Safe || v.verdict == Leak)
            && (v.vacuous <==> u == [] && r == [])
            && (v.verdict == Leak ==> v.withheldRows > 0)
  {
    EmptyDifference(multiset(u), multiset(r));
    if multiset(u) <= multiset(r) {
      SubmultisetSize(multiset(u), multiset(r));
    }
  }

  /** When the restricted result is part of the unrestricted one, `withheldRows` is exactly
      how many rows it lacks. */
  lemma WithheldExact(tenant: string, u: seq<string>, r: seq<string>)
    requires multiset(r) <= multiset(u)
    ensures var v := ReadVerdict(tenant, u, r);
            v.withheldRows == |u| - |r| && (v.verdict == Safe <==> |u| == |r|)
  {
    SubmultisetSize(multiset(r), multiset(u));
  }

  // ----- what the rendering tells apart

  predicate StoredTable(rows: seq<Row>, width: nat) {
    forall i :: 0 <= i < |rows| ==> Stored(rows[i]) && |rows[i]| == width
  }

  predicate AllUnmistakable(rows: seq<Row>) {
    forall i :: 0 <= i < |rows| ==> Unmistakable(rows[i])
  }

  lemma SnocCount<T>(s: seq<T>, x: T, y: T)
    ensures multiset(s + [x])[y] == multiset(s)[y] + if x == y then 1 else 0
  {
  }

  lemma SameText(row: Row, other: Row)
    requires Stored(row) && Stored(other) && |row| == |other| && Unmistakable(row)
    ensures ResultText(other) == ResultText(row) <==> other == row
  {
    TextIdentifies(row);
  }

  lemma {:induction false} RowTextsCount(rows: seq<Row>, n: nat, width: nat, row: Row)
    requires n <= |rows| && StoredTable(rows, width) && Stored(row) && |row| == width && Unmistakable(row)
    ensures multiset(RowTexts(rows, n))[ResultText(row)] == multiset(rows[..n])[row]
  {
    if n > 0 {
      RowTextsCount(rows, n - 1, width, row);
      SameText(row, rows[n - 1]);
      assert rows[..n] == rows[..n - 1] + [rows[n - 1]];
      hide StoredTable, Stored, Unmistakable, ResultText;
      SnocCount(rows[..n - 1], rows[n - 1], row);
      SnocCount(RowTexts(rows, n - 1), ResultText(rows[n - 1]), ResultText(row));
    }
  }

  /** Every rendered text comes from a row. */
  lemma {:induction false} RowTextsOrigin(rows: seq<Row>, n: nat, s: string) returns (i: nat)
    requires n <= |rows| && s in RowTexts(rows, n)
    ensures i < n && ResultText(rows[i]) == s
  {
    if s in RowTexts(rows, n - 1) {
      i := RowTextsOrigin(rows, n - 1, s);
    } else {
      i := n - 1;
    }
  }

  lemma WholeTextsCount(rows: seq<Row>, width: nat, row: Row)
    requires StoredTable(rows, width) && Stored(row) && |row| == width && Unmistakable(row)
    ensures multiset(RowTexts(rows, |rows|))[ResultText(row)] == multiset(rows)[row]
  {
    RowTextsCount(rows, |rows|, width, row);
    assert rows[..|rows|] == rows;
  }

  lemma SameRowCount(u: seq<Row>, r: seq<Row>, width: nat, i: nat)
    requires StoredTable(u, width) && StoredTable(r, width) && i < |u| && Unmistakable(u[i])
    ensures multiset(RowTexts(u, |u|))[ResultText(u[i])] == multiset(u)[u[i]]
    ensures multiset(RowTexts(r, |r|))[ResultText(u[i])] == multiset(r)[u[i]]
  {
    hide Unmistakable, Stored;
    WholeTextsCount(u, width, u[i]);
    WholeTextsCount(r, width, u[i]);
  }

  lemma TextIn(rows: seq<Row>, n: nat, i: nat)
    requires i < n <= |rows|
    ensures RowTexts(rows, n)[i] == ResultText(rows[i])
    decreases n
  {
    if i < n - 1 {
      TextIn(rows, n - 1, i);
    }
  }

  /** A row whose text is among the texts of unmistakable rows is one of them. */
  lemma RowFound(u: seq<Row>, width: nat, row: Row) returns (i: nat)
    requires StoredTable(u, width) && AllUnmistakable(u) && Stored(row) && |row| == width
    requires ResultText(row) in multiset(RowTexts(u, |u|))
    ensures i < |u| && u[i] == row
  {
    i := RowTextsOrigin(u, |u|, ResultText(row));
    SameText(u[i], row);
  }

  lemma SameTextsSameRows(u: seq<Row>, r: seq<Row>, width: nat)
    requires StoredTable(u, width) && StoredTable(r, width) && AllUnmistakable(u)
    requires multiset(RowTexts(u, |u|)) == multiset(RowTexts(r, |r|))
    ensures multiset(u) == multiset(r)
  {
    hide Unmistakable, Stored, ResultText, RowTexts;
    forall row | row in u
      ensures multiset(u)[row] == multiset(r)[row]
    {
      var i :| 0 <= i < |u| && u[i] == row;
      SameRowCount(u, r, width, i);
    }
    forall row | row in r
      ensures multiset(u)[row] == multiset(r)[row]
    {
      var k :| 0 <= k < |r| && r[k] == row;
      TextIn(r, |r|, k);
      assert ResultText(row) in RowTexts(r, |r|);
      var i := RowFound(u, width, row);
      SameRowCount(u, r, width, i);
    }
    SameCounts(u, r);
  }

  lemma SameRowsSameTexts(u: seq<Row>, r: seq<Row>, width: nat)
    requires StoredTable(u, width) && StoredTable(r, width) && AllUnmistakable(u) && multiset(u) == multiset(r)
    ensures multiset(RowTexts(u, |u|)) == multiset(RowTexts(r, |r|))
  {
    hide Unmistakable, Stored, ResultText, RowTexts;
    var us, rs := RowTexts(u, |u|), RowTexts(r, |r|);
    forall s | s in us
      ensures multiset(us)[s] == multiset(rs)[s]
    {
      var i := RowTextsOrigin(u, |u|, s);
      SameRowCount(u, r, width, i);
    }
    forall s | s in rs
      ensures multiset(us)[s] == multiset(rs)[s]
    {
      var k := RowTextsOrigin(r, |r|, s);
      assert r[k] in multiset(u);
      var i :| 0 <= i < |u| && u[i] == r[k];
      SameRowCount(u, r, width, i);
    }
    SameCounts(us, rs);
  }

  /** The verdict on a read is the verdict on its rows. */
  ghost predicate ExactFor(u: seq<Row>, r: seq<Row>) {
    ReadVerdict("", RowTexts(u, |u|), RowTexts(r, |r|)).verdict == Safe <==> multiset(u) == multiset(r)
  }

  /** When one of the two results has only unmistakable rows, the read is SAFE exactly when both hold
      the same rows equally often. */
  lemma CleanReadVerdict(tenant: string, u: seq<Row>, r: seq<Row>, width: nat)
    requires StoredTable(u, width) && StoredTable(r, width) && (AllUnmistakable(u) || AllUnmistakable(r))
    ensures ReadVerdict(tenant, RowTexts(u, |u|), RowTexts(r, |r|)).verdict == Safe <==> multiset(u) == multiset(r)
  {
    ReadVerdictExact(tenant, RowTexts(u, |u|), RowTexts(r, |r|));
    hide *;
    if AllUnmistakable(u) {
      if multiset(u) == multiset(r) {
        SameRowsSameTexts(u, r, width);
      } else if multiset(RowTexts(u, |u|)) == multiset(RowTexts(r, |r|)) {
        SameTextsSameRows(u, r, width);
      }
    } else {
      if multiset(u) == multiset(r) {
        SameRowsSameTexts(r, u, width);
      } else if multiset(RowTexts(u, |u|)) == multiset(RowTexts(r, |r|)) {
        SameTextsSameRows(r, u, width);
      }
    }
  }

  lemma {:induction false} SameTextsAt(u: seq<Row>, r: seq<Row>, n: nat)
    requires n <= |u| == |r| && forall i :: 0 <= i < n ==> ResultText(u[i]) == ResultText(r[i])
    ensures RowTexts(u, n) == RowTexts(r, n)
  {
    hide ResultText;
    if n > 0 {
      SameTextsAt(u, r, n - 1);
    }
  }

  lemma Replaced(u: seq<Row>, width: nat, i: nat, other: Row)
    requires StoredTable(u, width) && i < |u| && Stored(other) && |other| == width && other != u[i]
    ensures StoredTable(u[i := other], width) && multiset(u[i := other]) != multiset(u)
  {
    hide Stored;
    assert multiset(u[i := other])[u[i]] == multiset(u)[u[i]] - 1;
  }

  /** A mistakable row makes the verdict wrong for some other result. */
  lemma MistakableMatters(u: seq<Row>, width: nat, i: nat) returns (r: seq<Row>)
    requires StoredTable(u, width) && i < |u| && !Unmistakable(u[i])
    ensures StoredTable(r, width) && !ExactFor(u, r)
  {
    var other := MistakenRow(u[i]);
    r := u[i := other];
    Replaced(u, width, i, other);
    hide Unmistakable, Stored, ResultText, StoredTable, RowTexts, ReadVerdict;
    SameTextsAt(u, r, |u|);
    ReadVerdictExact("", RowTexts(u, |u|), RowTexts(r, |r|));
  }

  lemma MistakenRow(row: Row) returns (other: Row)
    requires Stored(row) && !Unmistakable(row)
    ensures Stored(other) && |other| == |row| && ResultText(other) == ResultText(row) && other != row
  {
    TextIdentifies(row);
    hide Unmistakable, Stored, ResultText;
    other :| Stored(other) && |other| == |row| && ResultText(other) == ResultText(row) && other != row;
  }

  /** Comparing texts is comparing rows, whatever the other result, exactly when every row of the
      first is unmistakable. */
  lemma ComparisonExact(u: seq<Row>, width: nat)
    requires StoredTable(u, width)
    ensures AllUnmistakable(u) <==> forall r :: StoredTable(r, width) ==> ExactFor(u, r)
  {
    hide Unmistakable, Stored, ResultText, ReadVerdict, RowTexts;
    if AllUnmistakable(u) {
      forall r | StoredTable(r, width)
        ensures ExactFor(u, r)
      {
        CleanReadVerdict("", u, r, width);
      }
    } else {
      var i :| 0 <= i < |u| && !Unmistakable(u[i]);
      var r := MistakableMatters(u, width, i);
    }
  }

  lemma SameCounts<T>(a: seq<T>, b: seq<T>)
    requires forall x :: x in a ==> multiset(a)[x] == multiset(b)[x]
    requires forall x :: x in b ==> multiset(a)[x] == multiset(b)[x]
    ensures multiset(a) == multiset(b)
  {
    assert forall x :: x in multiset(a) ==> x in a;
    assert forall x :: x in multiset(b) ==> x in b;
  }

  /** A separator inside a value can make different results look the same. */
  lemma SeparatorHidesDifference()
    ensures var a := [Value("\U{1F}"), Value("")];
            var b := [Value(""), Value("\U{1F}")];
            a != b && ReadVerdict("t", RowTexts([a], 1), RowTexts([b], 1)).verdict == Safe
  {
    var a := [Value("\U{1F}"), Value("")];
    var b := [Value(""), Value("\U{1F}")];
    assert "\U{1F}" == [SEPARATOR];
    assert RowText(a, 1, SEPARATOR, NULL_MARK) == "" && RowText(b, 1, SEPARATOR, NULL_MARK) == [SEPARATOR];
    assert ResultText(a) == [SEPARATOR] + ([SEPARATOR] + "") == "" + ([SEPARATOR] + [SEPARATOR]) == ResultText(b);
    assert RowTexts([a], 0) == [] && RowTexts([b], 0) == [];
    assert RowTexts([a], 1) == [ResultText(a)] == RowTexts([b], 1);
    assert |a[0].text| == 1 && |b[0].text| == 0;
  }
}
