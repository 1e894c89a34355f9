/** What a tenant claim means: the comparison path decided by a condition on the comparisons,
    the INSERT path by position. */
module AttributionFacts {
  import opened Text
  import opened Parens
  import opened Messages
  import opened Policy
  import opened Attribution
  import opened Writing

  // ----- the comparison path

  /** A comparison that decides nothing safely: a subquery, or a parameter never captured. */
  predicate Blocks(m: Rhs, params: seq<Param>) {
    m.Subquery? || (m.ParamRef? && !(0 < m.number <= |params|))
  }

  predicate Claims(m: Rhs, params: seq<Param>, value: string) {
    m.ParamRef? && 0 < m.number <= |params| && params[m.number - 1].text == value
  }

  /** From i on nothing blocks and every resolving comparison has this value. */
  predicate AllClaim(all: seq<Rhs>, i: nat, params: seq<Param>, value: string) {
    forall j :: i <= j < |all| ==> !Blocks(all[j], params) && (all[j].ParamRef? ==> Claims(all[j], params, value))
  }

  predicate NoneResolves(all: seq<Rhs>, i: nat) {
    forall j :: i <= j < |all| ==> all[j].OtherText?
  }

  lemma {:induction false} ScanResolved(all: seq<Rhs>, i: nat, have: string, params: seq<Param>)
    requires i <= |all|
    ensures ScanFrom(all, i, Some(have), params)
            == if AllClaim(all, i, params, have) then Resolved(have) else Unclaimable
    decreases |all| - i
  {
    if i < |all| {
      ScanResolved(all, i + 1, have, params);
      assert AllClaim(all, i, params, have) <==>
             !Blocks(all[i], params) && (all[i].ParamRef? ==> Claims(all[i], params, have))
             && AllClaim(all, i + 1, params, have);
    }
  }

  lemma {:induction false} ScanUnresolved(all: seq<Rhs>, i: nat, params: seq<Param>)
    requires i <= |all|
    ensures var r := ScanFrom(all, i, None, params);
            && (r == NoPredicate <==> NoneResolves(all, i))
            && (r.Resolved? ==> AllClaim(all, i, params, r.value) && !NoneResolves(all, i))
            && (forall v :: AllClaim(all, i, params, v) && !NoneResolves(all, i) ==> r == Resolved(v))
    decreases |all| - i
  {
    if i < |all| {
      match all[i]
      case Subquery =>
        assert Blocks(all[i], params);
      case OtherText =>
        ScanUnresolved(all, i + 1, params);
        assert NoneResolves(all, i) <==> NoneResolves(all, i + 1);
        forall v
          ensures AllClaim(all, i, params, v) <==> AllClaim(all, i + 1, params, v)
        {
        }
      case ParamRef(number) =>
        if Blocks(all[i], params) {
        } else {
          var value := params[number - 1].text;
          ScanResolved(all, i + 1, value, params);
          assert AllClaim(all, i + 1, params, value) ==> AllClaim(all, i, params, value);
          assert forall v :: AllClaim(all, i, params, v) ==> v == value && AllClaim(all, i + 1, params, v);
        }
    }
  }

  /** The comparisons that count, as a set. */
  ghost predicate Among(m: Rhs, q: Sql, scoped: seq<Relation>) {
    exists k :: 0 <= k < |scoped| && m in q.comparisons(scoped[k].tenantColumn)
  }

  lemma {:induction false} ComparisonsAmong(q: Sql, scoped: seq<Relation>, n: nat, m: Rhs)
    requires n <= |scoped|
    ensures m in Comparisons(q, scoped, n) <==> exists k :: 0 <= k < n && m in q.comparisons(scoped[k].tenantColumn)
  {
    if n > 0 {
      ComparisonsAmong(q, scoped, n - 1, m);
    }
  }

  lemma {:induction false} ScopedReferencedHas(q: Sql, relations: seq<Relation>, n: nat, r: Relation)
    requires n <= |relations|
    ensures r in ScopedReferenced(q, relations, n) <==>
              r.class_ == Scoped && Key(r) in q.tables && exists k :: 0 <= k < n && relations[k] == r
  {
    if n > 0 {
      ScopedReferencedHas(q, relations, n - 1, r);
    }
  }

  /** The claim's meaning off the INSERT path: a value is resolved exactly when nothing blocks,
      some comparison resolves, and all that resolve agree on it. */
  lemma ComparisonClaim(q: Sql, relations: seq<Relation>, params: seq<Param>, value: string)
    requires forall i :: 0 <= i < |params| ==> params[i].isNull || params[i].known
    requires FromInsert(q, relations, params) == None
    ensures var scoped := ScopedReferenced(q, relations, |relations|);
            var all := Comparisons(q, scoped, |scoped|);
            && (Attribute(q, relations, params) == Resolved(value) <==>
                  scoped != [] && AllClaim(all, 0, params, value) && !NoneResolves(all, 0))
            && (Attribute(q, relations, params) == NoPredicate <==> scoped != [] && NoneResolves(all, 0))
  {
    var scoped := ScopedReferenced(q, relations, |relations|);
    ScanUnresolved(Comparisons(q, scoped, |scoped|), 0, params);
  }

  /** The k-th relation is scoped and named by the query. */
  predicate Concerns(q: Sql, relations: seq<Relation>, k: int) {
    0 <= k < |relations| && relations[k].class_ == Scoped && Key(relations[k]) in q.tables
  }

  /** A comparison with the tenant column of a relation the query concerns. */
  ghost predicate Counts(m: Rhs, q: Sql, relations: seq<Relation>) {
    exists k :: Concerns(q, relations, k) && m in q.comparisons(relations[k].tenantColumn)
  }

  lemma CountsAmong(q: Sql, relations: seq<Relation>, m: Rhs)
    ensures var scoped := ScopedReferenced(q, relations, |relations|);
            m in Comparisons(q, scoped, |scoped|) <==> Counts(m, q, relations)
  {
    var scoped := ScopedReferenced(q, relations, |relations|);
    ComparisonsAmong(q, scoped, |scoped|, m);
    hide Comparisons, ScopedReferenced;
    if m in Comparisons(q, scoped, |scoped|) {
      var i :| 0 <= i < |scoped| && m in q.comparisons(scoped[i].tenantColumn);
      ScopedReferencedHas(q, relations, |relations|, scoped[i]);
      var k :| 0 <= k < |relations| && relations[k] == scoped[i];
      assert Concerns(q, relations, k);
    }
    if Counts(m, q, relations) {
      var k :| Concerns(q, relations, k) && m in q.comparisons(relations[k].tenantColumn);
      ScopedReferencedHas(q, relations, |relations|, relations[k]);
      assert relations[k] in scoped;
      var i :| 0 <= i < |scoped| && scoped[i] == relations[k];
    }
  }

  lemma ConcernsSome(q: Sql, relations: seq<Relation>)
    ensures ScopedReferenced(q, relations, |relations|) != [] <==> exists k :: Concerns(q, relations, k)
  {
    var scoped := ScopedReferenced(q, relations, |relations|);
    if scoped != [] {
      ScopedReferencedHas(q, relations, |relations|, scoped[0]);
      var k :| 0 <= k < |relations| && relations[k] == scoped[0];
      assert Concerns(q, relations, k);
    }
    if k :| Concerns(q, relations, k) {
      ScopedReferencedHas(q, relations, |relations|, relations[k]);
      assert relations[k] in scoped;
    }
  }

  /** Off the INSERT path, on the statement and the policy alone: a value is claimed exactly when a scoped
      relation is named, every comparison with a named one's tenant column is neither a subquery nor a
      parameter never captured, some is a parameter, and all parameters have this value; no tenant is
      claimed exactly when a scoped relation is named and no comparison is either. */
  lemma ComparisonMeaning(q: Sql, relations: seq<Relation>, params: seq<Param>, value: string)
    requires forall i :: 0 <= i < |params| ==> params[i].isNull || params[i].known
    requires FromInsert(q, relations, params) == None
    ensures Attribute(q, relations, params) == Resolved(value) <==>
              && (exists m :: Counts(m, q, relations) && m.ParamRef?)
              && forall m :: Counts(m, q, relations) ==>
                   m.OtherText? || (m.ParamRef? && 1 <= m.number <= |params| && params[m.number - 1].text == value)
    ensures Attribute(q, relations, params) == NoPredicate <==>
              (exists k :: Concerns(q, relations, k)) && forall m :: Counts(m, q, relations) ==> m.OtherText?
  {
    ComparisonClaim(q, relations, params, value);
    var scoped := ScopedReferenced(q, relations, |relations|);
    var all := Comparisons(q, scoped, |scoped|);
    forall m
      ensures m in all <==> Counts(m, q, relations)
    {
      CountsAmong(q, relations, m);
    }
    ConcernsSome(q, relations);
    hide Attribute, FromInsert, ScopedReferenced, Comparisons, Counts, Concerns;
    InSequence(all, params, value);
    if m :| Counts(m, q, relations) && m.ParamRef? {
      CountsConcern(m, q, relations);
    }
  }

  lemma CountsConcern(m: Rhs, q: Sql, relations: seq<Relation>)
    requires Counts(m, q, relations)
    ensures exists k :: Concerns(q, relations, k)
  {
  }

  lemma InSequence(all: seq<Rhs>, params: seq<Param>, value: string)
    ensures AllClaim(all, 0, params, value) <==>
              forall m :: m in all ==>
                m.OtherText? || (m.ParamRef? && 1 <= m.number <= |params| && params[m.number - 1].text == value)
    ensures NoneResolves(all, 0) <==> forall m :: m in all ==> m.OtherText?
    ensures AllClaim(all, 0, params, value) && !NoneResolves(all, 0) ==> exists m :: m in all && m.ParamRef?
  {
    forall j | 0 <= j < |all|
      ensures all[j] in all
    {
    }
  }

  /** A statement falls through to its comparisons exactly when it is no INSERT into a scoped relation with
      two parenthesised lists. */
  lemma FallsThrough(q: Sql, relations: seq<Relation>, params: seq<Param>)
    ensures FromInsert(q, relations, params) == None <==>
              || q.insertHead.None?
              || (forall k :: 0 <= k < |relations| ==>
                    !(relations[k].class_ == Scoped && Key(relations[k]) == q.insertHead.value.table))
              || SpanAt(q.text, q.insertHead.value.openIdx).NoSpan?
              || var open := q.valuesOpen(SpanAt(q.text, q.insertHead.value.openIdx).after);
                 open == None || SpanAt(q.text, open.value).NoSpan?
  {
    if q.insertHead.Some? {
      FirstScopedHas(relations, 0, q.insertHead.value.table);
      hide FirstScoped, SpanAt, FromLists;
    }
  }

  /** A parameter that is neither known nor NULL leaves the statement without a claim. */
  lemma UnknownParameter(q: Sql, relations: seq<Relation>, params: seq<Param>, i: nat)
    requires i < |params| && !params[i].isNull && !params[i].known
    ensures Attribute(q, relations, params) == Unclaimable
  {
  }

  // ----- the order of the policy does not matter

  lemma ScanSameSet(a: seq<Rhs>, b: seq<Rhs>, params: seq<Param>)
    requires forall m :: m in a <==> m in b
    ensures ScanFrom(a, 0, None, params) == ScanFrom(b, 0, None, params)
  {
    ScanUnresolved(a, 0, params);
    ScanUnresolved(b, 0, params);
    ClaimSameSet(a, b, params);
    ClaimSameSet(b, a, params);
    hide ScanFrom, AllClaim, NoneResolves;
    var r, s := ScanFrom(a, 0, None, params), ScanFrom(b, 0, None, params);
    if r.Resolved? {
      assert s == Resolved(r.value);
    } else if s.Resolved? {
      assert r == Resolved(s.value);
    }
  }

  lemma ClaimSameSet(a: seq<Rhs>, b: seq<Rhs>, params: seq<Param>)
    requires forall m :: m in a <==> m in b
    ensures NoneResolves(a, 0) ==> NoneResolves(b, 0)
    ensures forall v :: AllClaim(a, 0, params, v) ==> AllClaim(b, 0, params, v)
  {
    forall j | 0 <= j < |b|
      ensures exists k :: 0 <= k < |a| && a[k] == b[j]
    {
      assert b[j] in b;
    }
  }

  lemma {:induction false} FirstScopedHas(relations: seq<Relation>, i: nat, table: string)
    requires i <= |relations|
    ensures var r := FirstScoped(relations, i, table);
            && (r.Some? ==> r.value in relations && r.value.class_ == Scoped && Key(r.value) == table)
            && (r.Some? ==> exists k :: i <= k < |relations| && relations[k] == r.value
                                       && forall j :: i <= j < k ==> !(relations[j].class_ == Scoped && Key(relations[j]) == table))
            && (r.None? ==> forall k :: i <= k < |relations| ==> !(relations[k].class_ == Scoped && Key(relations[k]) == table))
    decreases |relations| - i
  {
    if i < |relations| {
      FirstScopedHas(relations, i + 1, table);
    }
  }

  lemma FirstScopedSame(a: seq<Relation>, b: seq<Relation>, table: string)
    requires SameRelations(a, b) && DistinctNames(a)
    ensures FirstScoped(a, 0, table) == FirstScoped(b, 0, table)
  {
    FirstScopedHas(a, 0, table);
    FirstScopedHas(b, 0, table);
    var r, s := FirstScoped(a, 0, table), FirstScoped(b, 0, table);
    if r.Some? {
      assert r.value in b;
    }
    if s.Some? {
      assert s.value in a;
    }
    if r.Some? && s.Some? {
      var i :| 0 <= i < |a| && a[i] == r.value;
      var j :| 0 <= j < |a| && a[j] == s.value;
    }
  }

  lemma AmongSame(q: Sql, a: seq<Relation>, b: seq<Relation>, m: Rhs)
    requires SameRelations(a, b)
    ensures var x, y := ScopedReferenced(q, a, |a|), ScopedReferenced(q, b, |b|);
            m in Comparisons(q, x, |x|) ==> m in Comparisons(q, y, |y|)
  {
    var x, y := ScopedReferenced(q, a, |a|), ScopedReferenced(q, b, |b|);
    ComparisonsAmong(q, x, |x|, m);
    ComparisonsAmong(q, y, |y|, m);
    if m in Comparisons(q, x, |x|) {
      var k :| 0 <= k < |x| && m in q.comparisons(x[k].tenantColumn);
      var r := x[k];
      ScopedReferencedHas(q, a, |a|, r);
      ScopedReferencedHas(q, b, |b|, r);
      assert r in a && r in b;
      assert r in y;
    }
  }

  /** Two policies that list the same relations, with distinct names, in any order give every
      statement the same claim. */
  lemma PolicyOrderIrrelevant(q: Sql, a: seq<Relation>, b: seq<Relation>, params: seq<Param>)
    requires SameRelations(a, b) && DistinctNames(a)
    ensures Attribute(q, a, params) == Attribute(q, b, params)
  {
    if q.insertHead.Some? {
      FirstScopedSame(a, b, q.insertHead.value.table);
    }
    var x, y := ScopedReferenced(q, a, |a|), ScopedReferenced(q, b, |b|);
    var all, others := Comparisons(q, x, |x|), Comparisons(q, y, |y|);
    forall m
      ensures m in all <==> m in others
    {
      AmongSame(q, a, b, m);
      AmongSame(q, b, a, m);
    }
    ScanSameSet(all, others, params);
    NonemptySame(q, a, b);
    NonemptySame(q, b, a);
    hide ScopedReferenced, Comparisons, ScanFrom, FirstScoped;
  }

  lemma NonemptySame(q: Sql, a: seq<Relation>, b: seq<Relation>)
    requires SameRelations(a, b)
    ensures ScopedReferenced(q, a, |a|) != [] ==> ScopedReferenced(q, b, |b|) != []
  {
    var x := ScopedReferenced(q, a, |a|);
    if x != [] {
      ScopedReferencedHas(q, a, |a|, x[0]);
      ScopedReferencedHas(q, b, |b|, x[0]);
      assert x[0] in a && x[0] in b;
    }
  }

  // ----- the INSERT path

  /** One entry of a printed list: parentheses match within it and no comma is at the top level. */
  predicate ListEntry(p: string) {
    Balanced(p) && Piece(p)
  }

  lemma BalancedConcat(a: string, b: string)
    requires Balanced(a) && Balanced(b)
    ensures Balanced(a + b)
  {
    NetDepthConcat(a, b);
    forall j | 0 <= j <= |a + b|
      ensures NetDepth((a + b)[..j]) >= 0
    {
      if j <= |a| {
        assert (a + b)[..j] == a[..j];
      } else {
        assert (a + b)[..j] == a + b[..j - |a|];
        NetDepthConcat(a, b[..j - |a|]);
      }
    }
  }

  lemma {:induction false} JoinBalanced(parts: seq<string>)
    requires |parts| >= 1 && forall i :: 0 <= i < |parts| ==> ListEntry(parts[i])
    ensures Balanced(Join(parts))
  {
    assert ListEntry(parts[0]);
    if |parts| > 1 {
      JoinBalanced(parts[1..]);
      assert NetDepth(",") == 0 && Balanced(",") by {
        assert forall j :: 0 <= j <= 1 ==> ","[..j] == "" || ","[..j] == ",";
      }
      BalancedConcat(",", Join(parts[1..]));
      BalancedConcat(parts[0], "," + Join(parts[1..]));
    }
  }

  lemma SpanOfPrinted(before: string, content: string, rest: string)
    requires Balanced(content)
    ensures SpanAt(before + ("(" + (content + ")" + rest)), |before|) == Span(content, |before| + |content| + 2)
  {
    var s := before + ("(" + (content + ")" + rest));
    assert s[|before| + 1..] == content + ")" + rest;
    CloseIndexBalanced(content, rest);
  }

  lemma {:induction false} ClaimAtPosition(q: Sql, cols: seq<string>, vals: seq<string>, i: nat, t: nat,
                                           column: string, params: seq<Param>)
    requires i <= t < |cols| == |vals| && NamesColumn(cols[t], column)
    requires forall j :: i <= j < t ==> !NamesColumn(cols[j], column)
    ensures ClaimAt(q, cols, vals, i, column, params) == ClaimOfValue(q, vals[t], params)
    decreases |cols| - i
  {
    hide NamesColumn, ClaimOfValue;
    if i < t {
      ClaimAtPosition(q, cols, vals, i + 1, t, column, params);
    }
  }

  lemma {:induction false} ClaimAtNone(q: Sql, cols: seq<string>, vals: seq<string>, i: nat, column: string, params: seq<Param>)
    requires i <= |cols| == |vals| && forall j :: i <= j < |cols| ==> !NamesColumn(cols[j], column)
    ensures ClaimAt(q, cols, vals, i, column, params) == NoPredicate
    decreases |cols| - i
  {
    if i < |cols| {
      ClaimAtNone(q, cols, vals, i + 1, column, params);
    }
  }

  /** A printed INSERT with `before` up to the column list and `mid` up to the VALUES list. */
  function InsertText(before: string, cols: string, mid: string, vals: string, rest: string): string {
    before + ("(" + (cols + ")" + (mid + ("(" + (vals + ")" + rest)))))
  }

  /** `q` is a printed INSERT into `rel`, and the regular expressions point at its two lists. */
  predicate IsInsert(q: Sql, relations: seq<Relation>, before: string, cols: seq<string>,
                     mid: string, vals: seq<string>, rest: string, rel: Relation)
  {
    && cols != [] && (forall i :: 0 <= i < |cols| ==> ListEntry(cols[i]))
    && vals != [] && (forall i :: 0 <= i < |vals| ==> ListEntry(vals[i]))
    && q.text == InsertText(before, Join(cols), mid, Join(vals), rest)
    && q.insertHead.Some? && q.insertHead.value.openIdx == |before|
    && FirstScoped(relations, 0, q.insertHead.value.table) == Some(rel)
    && var after := |before| + |Join(cols)| + 2; q.valuesOpen(after) == Some(after + |mid|)
  }

  /** From a printed INSERT into a scoped table the claim is that of the value standing at the
      tenant column's position, whatever surrounds the lists. */
  lemma InsertClaim(q: Sql, relations: seq<Relation>, params: seq<Param>, before: string, cols: seq<string>,
                    mid: string, vals: seq<string>, rest: string, rel: Relation)
    requires IsInsert(q, relations, before, cols, mid, vals, rest, rel)
    ensures FromInsert(q, relations, params)
            == Some(if |cols| != |vals| then Unclaimable else ClaimAt(q, cols, vals, 0, rel.tenantColumn, params))
  {
    InsertParts(q, relations, before, cols, mid, vals, rest, rel);
    hide *;
    JoinBalanced(cols);
    JoinBalanced(vals);
    InsertSpans(q, relations, params, before, Join(cols), mid, Join(vals), rest, rel);
    PiecesOf(cols);
    PiecesOf(vals);
    FromListsOf(q, cols, vals, rel.tenantColumn, params);
  }

  lemma InsertSpans(q: Sql, relations: seq<Relation>, params: seq<Param>, before: string, c: string,
                    mid: string, v: string, rest: string, rel: Relation)
    requires Balanced(c) && Balanced(v) && q.text == InsertText(before, c, mid, v, rest)
    requires q.insertHead.Some? && q.insertHead.value.openIdx == |before|
    requires FirstScoped(relations, 0, q.insertHead.value.table) == Some(rel)
    requires q.valuesOpen(|before| + |c| + 2) == Some(|before| + |c| + 2 + |mid|)
    ensures FromInsert(q, relations, params) == Some(FromLists(q, c, v, rel.tenantColumn, params))
  {
    hide *;
    var after := |before| + |c| + 2;
    PrintedLists(before, c, mid, v, rest);
    FromInsertOf(q, relations, params, rel, c, after, after + |mid|, SpanAt(q.text, after + |mid|));
  }

  lemma InsertParts(q: Sql, relations: seq<Relation>, before: string, cols: seq<string>,
                    mid: string, vals: seq<string>, rest: string, rel: Relation)
    requires IsInsert(q, relations, before, cols, mid, vals, rest, rel)
    ensures cols != [] && forall i :: 0 <= i < |cols| ==> ListEntry(cols[i])
    ensures vals != [] && forall i :: 0 <= i < |vals| ==> ListEntry(vals[i])
    ensures q.text == InsertText(before, Join(cols), mid, Join(vals), rest)
    ensures q.insertHead.Some? && q.insertHead.value.openIdx == |before|
    ensures FirstScoped(relations, 0, q.insertHead.value.table) == Some(rel)
    ensures var after := |before| + |Join(cols)| + 2; q.valuesOpen(after) == Some(after + |mid|)
  {
    hide ListEntry, FirstScoped, Join, InsertText;
  }

  lemma FromListsOf(q: Sql, cols: seq<string>, vals: seq<string>, column: string, params: seq<Param>)
    requires cols != [] && forall i :: 0 <= i < |cols| ==> Piece(cols[i])
    requires vals != [] && forall i :: 0 <= i < |vals| ==> Piece(vals[i])
    ensures FromLists(q, Join(cols), Join(vals), column, params)
            == if |cols| != |vals| then Unclaimable else ClaimAt(q, cols, vals, 0, column, params)
  {
    SplitJoin(cols);
    SplitJoin(vals);
    hide Split, Join, ClaimAt;
  }

  lemma PiecesOf(parts: seq<string>)
    requires forall i :: 0 <= i < |parts| ==> ListEntry(parts[i])
    ensures forall i :: 0 <= i < |parts| ==> Piece(parts[i])
  {
    forall i | 0 <= i < |parts|
      ensures Piece(parts[i])
    {
      assert ListEntry(parts[i]);
    }
  }

  lemma FromInsertOf(q: Sql, relations: seq<Relation>, params: seq<Param>, rel: Relation,
                     colsText: string, after: nat, open: nat, vals: Span)
    requires q.insertHead.Some? && FirstScoped(relations, 0, q.insertHead.value.table) == Some(rel)
    requires SpanAt(q.text, q.insertHead.value.openIdx) == Span(colsText, after)
    requires q.valuesOpen(after) == Some(open) && SpanAt(q.text, open) == vals && vals.Span?
    ensures FromInsert(q, relations, params) == Some(FromLists(q, colsText, vals.content, rel.tenantColumn, params))
  {
  }

  lemma ColumnNamed(written: string, column: string)
    ensures NamesColumn(written, column) <==> Folded(Trim(written)) == Folded(column)
  {
    FoldedLower(Trim(written));
    FoldedLower(column);
  }

  /** What the deciding value claims: a parameter that was captured its text, one that was not nothing that
      can be trusted, nor does a value in parentheses; any other value names no tenant. */
  lemma ValueClaim(q: Sql, value: string, params: seq<Param>)
    ensures var rhs := Trim(value);
            ClaimOfValue(q, value, params)
            == if rhs != "" && rhs[0] == '(' then Unclaimable
               else if q.paramOf(rhs) == None then NoPredicate
               else
                 var n := q.paramOf(rhs).value;
                 if 1 <= n <= |params| then Resolved(params[n - 1].text) else Unclaimable
  {
  }

  /** The value that decides is the one at the first column whose name, case and blanks around it aside,
      is the tenant column; when no column is, no tenant is claimed. */
  lemma InsertPosition(q: Sql, relations: seq<Relation>, params: seq<Param>, before: string, cols: seq<string>,
                       mid: string, vals: seq<string>, rest: string, rel: Relation, t: nat)
    requires IsInsert(q, relations, before, cols, mid, vals, rest, rel) && |cols| == |vals| && t <= |cols|
    requires forall i :: 0 <= i < |params| ==> params[i].isNull || params[i].known
    requires forall j :: 0 <= j < t ==> Folded(Trim(cols[j])) != Folded(rel.tenantColumn)
    requires t < |cols| ==> Folded(Trim(cols[t])) == Folded(rel.tenantColumn)
    ensures Attribute(q, relations, params)
            == if t == |cols| then NoPredicate
               else
                 var rhs := Trim(vals[t]);
                 if rhs != "" && rhs[0] == '(' then Unclaimable
                 else if q.paramOf(rhs) == None then NoPredicate
                 else
                   var n := q.paramOf(rhs).value;
                   if 1 <= n <= |params| then Resolved(params[n - 1].text) else Unclaimable
  {
    InsertClaim(q, relations, params, before, cols, mid, vals, rest, rel);
    forall j | 0 <= j < |cols|
      ensures NamesColumn(cols[j], rel.tenantColumn) <==> Folded(Trim(cols[j])) == Folded(rel.tenantColumn)
    {
      ColumnNamed(cols[j], rel.tenantColumn);
    }
    InsertAttribute(q, relations, params);
    hide *;
    if t < |cols| {
      ClaimAtPosition(q, cols, vals, 0, t, rel.tenantColumn, params);
      ValueClaim(q, vals[t], params);
    } else {
      ClaimAtNone(q, cols, vals, 0, rel.tenantColumn, params);
    }
  }

  lemma InsertAttribute(q: Sql, relations: seq<Relation>, params: seq<Param>)
    requires forall i :: 0 <= i < |params| ==> params[i].isNull || params[i].known
    ensures FromInsert(q, relations, params).Some? ==>
              Attribute(q, relations, params) == FromInsert(q, relations, params).value
  {
    hide FromInsert;
  }

  /** The two parenthesised texts are found one after the other. */
  lemma PrintedLists(before: string, c: string, mid: string, v: string, rest: string)
    requires Balanced(c) && Balanced(v)
    ensures var text, after := InsertText(before, c, mid, v, rest), |before| + |c| + 2;
            SpanAt(text, |before|) == Span(c, after)
            && SpanAt(text, after + |mid|).Span? && SpanAt(text, after + |mid|).content == v
  {
    InsertTextParts(before, c, mid, v, rest);
    hide *;
    var tail := "(" + (v + ")" + rest);
    var front := before + ("(" + (c + ")" + mid));
    SpanOfPrinted(before, c, mid + tail);
    SpanOfPrinted(front, v, rest);
  }

  lemma InsertTextParts(before: string, c: string, mid: string, v: string, rest: string)
    ensures var tail := "(" + (v + ")" + rest);
            var front := before + ("(" + (c + ")" + mid));
            var text := before + ("(" + (c + ")" + (mid + tail)));
            text == InsertText(before, c, mid, v, rest) == front + tail && |front| == |before| + |c| + 2 + |mid|
  {
  }
}
