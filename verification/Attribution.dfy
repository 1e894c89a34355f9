/** Finding the tenant a captured query claims. */
module Attribution {
  import opened Text
  import opened Parens
  import opened Messages
  import opened Policy

  /** What stands on the right of a comparison with the tenant column. */
  datatype Rhs = Subquery | ParamRef(number: int) | OtherText

  /** Where a regular expression found INSERT INTO <table> and the parenthesis of its columns. */
  datatype InsertHead = InsertHead(table: string, openIdx: int)

  /** A statement with what the regular expressions find in it. */
  datatype Sql = Sql(text: string,
                     tables: set<string>,               // names and aliases after FROM, JOIN, INTO, UPDATE
                     relationNames: set<string>,        // the names alone
                     comparisons: string -> seq<Rhs>,   // by tenant column
                     insertHead: Option<InsertHead>,
                     valuesOpen: nat -> Option<nat>,    // the next VALUES parenthesis at or after an index
                     paramOf: string -> Option<int>)    // the parameter an expression refers to, casts aside

  datatype Claim = Resolved(value: string) | NoPredicate | Unclaimable

  // ----- the comparison path

  function ClaimOfParam(number: int, params: seq<Param>): Claim {
    if 0 < number <= |params| then Resolved(params[number - 1].text) else Unclaimable
  }

  /** The loop over the comparisons from i on, with the value resolved so far. */
  function ScanFrom(all: seq<Rhs>, i: nat, have: Option<string>, params: seq<Param>): Claim
    requires i <= |all|
    decreases |all| - i
  {
    if i == |all| then (if have.Some? then Resolved(have.value) else NoPredicate)
    else match all[i]
      case Subquery => Unclaimable
      case OtherText => ScanFrom(all, i + 1, have, params)
      case ParamRef(number) =>
        match ClaimOfParam(number, params)
        case Resolved(value) =>
          if have.None? then ScanFrom(all, i + 1, Some(value), params)
          else if value != have.value then Unclaimable
          else ScanFrom(all, i + 1, have, params)
        case _ => Unclaimable
  }

  /** The scoped relations the query names, in policy order. */
  function ScopedReferenced(q: Sql, relations: seq<Relation>, n: nat): (r: seq<Relation>)
    requires n <= |relations|
  {
    if n == 0 then []
    else
      var rel := relations[n - 1];
      ScopedReferenced(q, relations, n - 1)
      + if rel.class_ == Scoped && Key(rel) in q.tables then [rel] else []
  }

  /** The comparisons with the tenant columns of the first n relations. */
  function Comparisons(q: Sql, scoped: seq<Relation>, n: nat): seq<Rhs>
    requires n <= |scoped|
  {
    if n == 0 then [] else Comparisons(q, scoped, n - 1) + q.comparisons(scoped[n - 1].tenantColumn)
  }

  // ----- the INSERT path

  /** The first scoped relation of that name. */
  function FirstScoped(relations: seq<Relation>, i: nat, table: string): Option<Relation>
    requires i <= |relations|
    decreases |relations| - i
  {
    if i == |relations| then None
    else if relations[i].class_ == Scoped && Key(relations[i]) == table then Some(relations[i])
    else FirstScoped(relations, i + 1, table)
  }

  function ClaimOfValue(q: Sql, value: string, params: seq<Param>): Claim {
    var rhs := Trim(value);
    if HasPrefix(rhs, "(") then Unclaimable
    else match q.paramOf(rhs)
      case None => NoPredicate
      case Some(number) => ClaimOfParam(number, params)
  }

  predicate NamesColumn(written: string, column: string) {
    Lower(Trim(written)) == Lower(column)
  }

  /** The claim at the tenant column's position, looking from position i on. */
  function ClaimAt(q: Sql, cols: seq<string>, vals: seq<string>, i: nat, column: string, params: seq<Param>): Claim
    requires i <= |cols| == |vals|
    decreases |cols| - i
  {
    if i == |cols| then NoPredicate
    else if NamesColumn(cols[i], column) then ClaimOfValue(q, vals[i], params)
    else ClaimAt(q, cols, vals, i + 1, column, params)
  }

  /** The text between the parenthesis at `open` and its match, and the index behind it. */
  datatype Span = NoSpan | Span(content: string, after: nat)

  function SpanAt(s: string, open: int): (r: Span)
    ensures r.Span? ==> 0 <= open < r.after <= |s|
  {
    if !(0 <= open < |s|) || s[open] != '(' then NoSpan
    else match CloseIndex(s[open + 1..], 1)
      case None => NoSpan
      case Some(k) => Span(s[open + 1..open + 1 + k], open + k + 2)
  }

  function FromLists(q: Sql, colsText: string, valsText: string, column: string, params: seq<Param>): Claim {
    var cols, vals := Split(colsText, 0), Split(valsText, 0);
    if |cols| != |vals| then Unclaimable else ClaimAt(q, cols, vals, 0, column, params)
  }

  /** The claim of a recognisable INSERT into a scoped table; none for anything else. */
  function FromInsert(q: Sql, relations: seq<Relation>, params: seq<Param>): Option<Claim> {
    match q.insertHead
    case None => None
    case Some(head) =>
      match FirstScoped(relations, 0, head.table)
      case None => None
      case Some(rel) =>
        match SpanAt(q.text, head.openIdx)
        case NoSpan => None
        case Span(colsText, after) =>
          match q.valuesOpen(after)
          case None => None
          case Some(open) =>
            match SpanAt(q.text, open)
            case NoSpan => None
            case Span(valsText, _) => Some(FromLists(q, colsText, valsText, rel.tenantColumn, params))
  }

  /** Every parameter's value is known, or NULL. */
  predicate AllKnown(params: seq<Param>) {
    forall i :: 0 <= i < |params| ==> params[i].isNull || params[i].known
  }

  function Attribute(q: Sql, relations: seq<Relation>, params: seq<Param>): Claim {
    if !AllKnown(params) then Unclaimable
    else match FromInsert(q, relations, params)
      case Some(claim) => claim
      case None =>
        var scoped := ScopedReferenced(q, relations, |relations|);
        if scoped == [] then Unclaimable
        else ScanFrom(Comparisons(q, scoped, |scoped|), 0, None, params)
  }

  // ----- the code

  method ExtractFromInsert(q: Sql, relations: seq<Relation>, params: seq<Param>) returns (claim: Option<Claim>)
    ensures claim == FromInsert(q, relations, params)
  {
    if q.insertHead.None? {
      return None;
    }
    var head := q.insertHead.value;
    var rel: Option<Relation> := None;
    var i := 0;
    while i < |relations|
      invariant 0 <= i <= |relations| && rel == None
      invariant FirstScoped(relations, 0, head.table) == FirstScoped(relations, i, head.table)
    {
      if relations[i].class_ == Scoped && Key(relations[i]) == head.table {
        rel := Some(relations[i]);
        break;
      }
      i := i + 1;
    }
    if rel.None? {
      return None;
    }
    claim := ExtractFromColumns(q, rel.value, head.openIdx, params);
  }

  method ExtractFromColumns(q: Sql, rel: Relation, openIdx: int, params: seq<Param>) returns (claim: Option<Claim>)
    ensures claim == match SpanAt(q.text, openIdx)
                     case NoSpan => None
                     case Span(colsText, after) =>
                       match q.valuesOpen(after)
                       case None => None
                       case Some(open) =>
                         match SpanAt(q.text, open)
                         case NoSpan => None
                         case Span(valsText, _) => Some(FromLists(q, colsText, valsText, rel.tenantColumn, params))
  {
    hide SpanAt, FromLists;
    var cols := TakeSpan(q.text, openIdx);
    if cols.NoSpan? {
      return None;
    }
    var vm := q.valuesOpen(cols.after);
    if vm.None? {
      return None;
    }
    var vals := TakeSpan(q.text, vm.value);
    if vals.NoSpan? {
      return None;
    }
    var result := ExtractFromLists(q, cols.content, vals.content, rel.tenantColumn, params);
    claim := Some(result);
  }

  method TakeSpan(s: string, open: int) returns (r: Span)
    ensures r == SpanAt(s, open)
  {
    var content, after, ok := BalancedParenSpan(s, open);
    hide CloseIndex;
    if !ok {
      return NoSpan;
    }
    return Span(content, after);
  }

  method ExtractFromLists(q: Sql, colsText: string, valsText: string, column: string, params: seq<Param>)
    returns (claim: Claim)
    ensures claim == FromLists(q, colsText, valsText, column, params)
  {
    hide Split, ClaimOfValue, NamesColumn;
    var cols := SplitTopLevel(colsText);
    var vals := SplitTopLevel(valsText);
    if |cols| != |vals| {
      return Unclaimable;
    }
    var i := 0;
    while i < |cols|
      invariant 0 <= i <= |cols|
      invariant ClaimAt(q, cols, vals, 0, column, params) == ClaimAt(q, cols, vals, i, column, params)
    {
      if NamesColumn(cols[i], column) {
        return ClaimOfValue(q, vals[i], params);
      }
      i := i + 1;
    }
    return NoPredicate;
  }

  method ExtractTenant(q: Sql, relations: seq<Relation>, params: seq<Param>) returns (claim: Claim)
    ensures claim == Attribute(q, relations, params)
  {
    var i := 0;
    while i < |params|
      invariant 0 <= i <= |params|
      invariant forall k :: 0 <= k < i ==> params[k].isNull || params[k].known
    {
      if !params[i].isNull && !params[i].known {
        return Unclaimable;
      }
      i := i + 1;
    }
    var fromInsert := ExtractFromInsert(q, relations, params);
    if fromInsert.Some? {
      return fromInsert.value;
    }
    var scoped := [];
    i := 0;
    while i < |relations|
      invariant 0 <= i <= |relations|
      invariant scoped == ScopedReferenced(q, relations, i)
    {
      if relations[i].class_ == Scoped && Key(relations[i]) in q.tables {
        scoped := scoped + [relations[i]];
      }
      i := i + 1;
    }
    if |scoped| == 0 {
      return Unclaimable;
    }
    claim := CompareTenants(q, scoped, params);
  }

  method CompareTenants(q: Sql, scoped: seq<Relation>, params: seq<Param>) returns (claim: Claim)
    ensures claim == ScanFrom(Comparisons(q, scoped, |scoped|), 0, None, params)
  {
    ghost var all := Comparisons(q, scoped, |scoped|);
    var resolved: Option<string> := None;
    var i := 0;
    while i < |scoped|
      invariant 0 <= i <= |scoped| && |Comparisons(q, scoped, i)| <= |all|
      invariant ScanFrom(all, 0, None, params) == ScanFrom(all, |Comparisons(q, scoped, i)|, resolved, params)
    {
      var matches := q.comparisons(scoped[i].tenantColumn);
      ghost var start := |Comparisons(q, scoped, i)|;
      ComparisonsIndex(q, scoped, i, |scoped|);
      var j := 0;
      while j < |matches|
        invariant 0 <= j <= |matches|
        invariant ScanFrom(all, 0, None, params) == ScanFrom(all, start + j, resolved, params)
      {
        assert all[start + j] == matches[j];
        if matches[j].Subquery? {
          return Unclaimable;
        }
        if matches[j].ParamRef? {
          var idx := matches[j].number - 1;
          if idx < 0 || idx >= |params| {
            return Unclaimable;
          }
          var value := params[idx].text;
          if resolved.None? {
            resolved := Some(value);
          } else if value != resolved.value {
            return Unclaimable;
          }
        }
        j := j + 1;
      }
      i := i + 1;
    }
    return if resolved.Some? then Resolved(resolved.value) else NoPredicate;
  }

  lemma {:induction false} ComparisonsIndex(q: Sql, scoped: seq<Relation>, i: nat, n: nat)
    requires i < n <= |scoped|
    ensures var start, matches := |Comparisons(q, scoped, i)|, q.comparisons(scoped[i].tenantColumn);
            var all := Comparisons(q, scoped, n);
            && start + |matches| == |Comparisons(q, scoped, i + 1)| <= |all|
            && forall j :: start <= j < start + |matches| ==> all[j] == matches[j - start]
  {
    if n > i + 1 {
      ComparisonsIndex(q, scoped, i, n - 1);
    }
  }
}
