/** The runtime decision: does a statement's own tenant claim match the request's tenant. */
module Tier2 {
  import opened Text
  import opened WithClause
  import opened Messages
  import opened Policy
  import opened Attribution
  import opened AttributionFacts
  import opened Verdicts

  /** The policy by lower-cased name; a later relation replaces an earlier one of the same name. */
  function ByName(relations: seq<Relation>, n: nat): map<string, Relation>
    requires n <= |relations|
  {
    if n == 0 then map[] else ByName(relations, n - 1)[Key(relations[n - 1]) := relations[n - 1]]
  }

  function ClassOf(relations: seq<Relation>, name: string): Option<Class> {
    var byName := ByName(relations, |relations|);
    if name in byName then Some(byName[name].class_) else None
  }

  /** The relation names a statement mentions, apart from the CTEs it declares itself. */
  function Mentioned(q: Sql): set<string> {
    q.relationNames - DeclaredNames(StripComments(q.text))
  }

  /** A name the policy does not know, or could not classify. */
  predicate Unresolvable(relations: seq<Relation>, name: string) {
    ClassOf(relations, name) == None || ClassOf(relations, name) == Some(Unclassifiable)
  }

  predicate Blocked(q: Sql, relations: seq<Relation>) {
    exists name :: name in Mentioned(q) && Unresolvable(relations, name)
  }

  predicate MentionsScoped(q: Sql, relations: seq<Relation>) {
    exists name :: name in Mentioned(q) && ClassOf(relations, name) == Some(Scoped)
  }

  method IndexByName(relations: seq<Relation>) returns (byName: map<string, Relation>)
    ensures byName == ByName(relations, |relations|)
  {
    byName := map[];
    var i := 0;
    while i < |relations|
      invariant 0 <= i <= |relations| && byName == ByName(relations, i)
    {
      byName := byName[Key(relations[i]) := relations[i]];
      i := i + 1;
    }
  }

  /** Walks the mentioned names in an arbitrary order. */
  method ResolveReferences(q: Sql, relations: seq<Relation>) returns (blocked: bool, anyScoped: bool)
    ensures blocked <==> Blocked(q, relations)
    ensures !blocked ==> (anyScoped <==> MentionsScoped(q, relations))
  {
    hide ByName, DeclaredNames, StripComments;
    var byName := IndexByName(relations);
    var ctes := CteNames(q.text);
    blocked, anyScoped := false, false;
    var todo := q.relationNames;
    while todo != {}
      invariant todo <= q.relationNames
      invariant forall name :: name in Mentioned(q) && name !in todo ==> !Unresolvable(relations, name)
      invariant anyScoped <==> exists name :: name in Mentioned(q) && name !in todo && ClassOf(relations, name) == Some(Scoped)
      decreases todo
    {
      var name :| name in todo;
      todo := todo - {name};
      if name in ctes {
        continue;
      }
      assert name in Mentioned(q);
      if name !in byName || byName[name].class_ == Unclassifiable {
        return true, false;
      }
      if byName[name].class_ == Scoped {
        anyScoped := true;
      }
    }
  }

  function CheckVerdict(q: Sql, relations: seq<Relation>, params: seq<Param>, intended: string): Result {
    if Blocked(q, relations) then UNATTRIBUTABLE
    else if !MentionsScoped(q, relations) then Result(Safe, "", 0, false)
    else match Attribute(q, relations, params)
      case Unclaimable => UNATTRIBUTABLE
      case NoPredicate => Result(Leak, "", 0, false)
      case Resolved(value) => Result(if value == intended then Safe else Leak, value, 0, false)
  }

  method CheckTenant(q: Sql, relations: seq<Relation>, params: seq<Param>, intended: string) returns (r: Result)
    ensures r == CheckVerdict(q, relations, params, intended)
  {
    var blocked, anyScoped := ResolveReferences(q, relations);
    hide Blocked, MentionsScoped, Attribute;
    if blocked {
      return UNATTRIBUTABLE;
    }
    if !anyScoped {
      return Result(Safe, "", 0, false);
    }
    var claim := ExtractTenant(q, relations, params);
    match claim
    case Unclaimable => return UNATTRIBUTABLE;
    case NoPredicate => return Result(Leak, "", 0, false);
    case Resolved(value) =>
      if value != intended {
        return Result(Leak, value, 0, false);
      }
      return Result(Safe, value, 0, false);
  }

  /** The statement reads or writes the relation: it names it, and not as one of its own CTEs. */
  predicate Uses(q: Sql, name: string) {
    name in q.relationNames && name !in DeclaredNames(StripComments(q.text))
  }

  lemma ThreeClasses(relations: seq<Relation>, name: string)
    ensures Unresolvable(relations, name) <==>
              ClassOf(relations, name) != Some(Scoped) && ClassOf(relations, name) != Some(Unscoped)
  {
    hide ClassOf;
    match ClassOf(relations, name)
    case None =>
    case Some(c) => assert c == Scoped || c == Unscoped || c == Unclassifiable;
  }

  lemma BlockedMeans(q: Sql, relations: seq<Relation>)
    ensures Blocked(q, relations) <==>
              exists name :: Uses(q, name) && ClassOf(relations, name) != Some(Scoped)
                             && ClassOf(relations, name) != Some(Unscoped)
    ensures MentionsScoped(q, relations) <==> exists name :: Uses(q, name) && ClassOf(relations, name) == Some(Scoped)
  {
    hide ClassOf, DeclaredNames, StripComments;
    forall name
      ensures Unresolvable(relations, name) <==>
                ClassOf(relations, name) != Some(Scoped) && ClassOf(relations, name) != Some(Unscoped)
      ensures name in Mentioned(q) <==> Uses(q, name)
    {
      ThreeClasses(relations, name);
    }
  }

  /** A statement passes exactly when every relation it uses is one the policy declared scoped or unscoped,
      and either none is scoped or the statement's claim is the request's tenant. */
  lemma CheckTenantSafe(q: Sql, relations: seq<Relation>, params: seq<Param>, intended: string)
    ensures CheckVerdict(q, relations, params, intended).verdict == Safe <==>
              && (forall name :: Uses(q, name) ==>
                    ClassOf(relations, name) == Some(Scoped) || ClassOf(relations, name) == Some(Unscoped))
              && ((forall name :: Uses(q, name) ==> ClassOf(relations, name) != Some(Scoped))
                  || Attribute(q, relations, params) == Resolved(intended))
  {
    BlockedMeans(q, relations);
    hide Attribute, ClassOf, Uses, Blocked, MentionsScoped;
  }

  /** It is rejected exactly when every relation it uses is so declared, one of them is scoped, and its claim
      is no tenant or another one; and is then reported under what it claims. */
  lemma CheckTenantLeak(q: Sql, relations: seq<Relation>, params: seq<Param>, intended: string)
    ensures var v, claim := CheckVerdict(q, relations, params, intended), Attribute(q, relations, params);
            && (v.verdict == Leak <==>
                  && (forall name :: Uses(q, name) ==>
                        ClassOf(relations, name) == Some(Scoped) || ClassOf(relations, name) == Some(Unscoped))
                  && (exists name :: Uses(q, name) && ClassOf(relations, name) == Some(Scoped))
                  && !claim.Unclaimable? && claim != Resolved(intended))
            && (v.verdict == Leak ==> v.tenant == if claim.Resolved? then claim.value else "")
            && (v.verdict == Safe && v.tenant != "" ==> v.tenant == intended)
  {
    BlockedMeans(q, relations);
    hide Attribute, ClassOf, Uses, Blocked, MentionsScoped;
  }

  lemma {:induction false} ByNameHas(relations: seq<Relation>, n: nat, name: string)
    requires n <= |relations|
    ensures name in ByName(relations, n) <==> exists k :: 0 <= k < n && Key(relations[k]) == name
    ensures name in ByName(relations, n) ==>
              ByName(relations, n)[name] in relations[..n] && Key(ByName(relations, n)[name]) == name
  {
    if n > 0 {
      ByNameHas(relations, n - 1, name);
      assert relations[..n] == relations[..n - 1] + [relations[n - 1]];
    }
  }

  /** A name's class is that of the last relation of this name. */
  lemma ClassOfLast(relations: seq<Relation>, name: string, c: Class)
    ensures ClassOf(relations, name) == Some(c) <==>
              exists k :: 0 <= k < |relations| && Key(relations[k]) == name && relations[k].class_ == c
                          && forall j :: k < j < |relations| ==> Key(relations[j]) != name
    ensures ClassOf(relations, name) == None <==> forall k :: 0 <= k < |relations| ==> Key(relations[k]) != name
  {
    ByNameHas(relations, |relations|, name);
    if name in ByName(relations, |relations|) {
      var last := ByNameLast(relations, |relations|, name);
    }
  }

  lemma {:induction false} ByNameLast(relations: seq<Relation>, n: nat, name: string) returns (k: nat)
    requires n <= |relations| && name in ByName(relations, n)
    ensures k < n && relations[k] == ByName(relations, n)[name] && Key(relations[k]) == name
    ensures forall j :: k < j < n ==> Key(relations[j]) != name
  {
    if Key(relations[n - 1]) == name {
      k := n - 1;
    } else {
      k := ByNameLast(relations, n - 1, name);
    }
  }

  lemma ClassOfSame(a: seq<Relation>, b: seq<Relation>, name: string)
    requires SameRelations(a, b) && DistinctNames(a)
    ensures ClassOf(a, name) == ClassOf(b, name)
  {
    ByNameHas(a, |a|, name);
    ByNameHas(b, |b|, name);
    assert a[..|a|] == a && b[..|b|] == b;
    var x, y := ByName(a, |a|), ByName(b, |b|);
    hide ByName;
    if name in x {
      assert x[name] in b;
      var k :| 0 <= k < |b| && b[k] == x[name];
    }
    if name in y {
      assert y[name] in a;
      var k :| 0 <= k < |a| && a[k] == y[name];
    }
    if name in x && name in y {
      var i :| 0 <= i < |a| && a[i] == x[name];
      var j :| 0 <= j < |a| && a[j] == y[name];
    }
  }

  /** The decision on every statement is the same for two policies that list the same relations,
      with distinct names, in any order. */
  lemma DecisionOrderIrrelevant(q: Sql, a: seq<Relation>, b: seq<Relation>, params: seq<Param>, intended: string)
    requires SameRelations(a, b) && DistinctNames(a)
    ensures CheckVerdict(q, a, params, intended) == CheckVerdict(q, b, params, intended)
  {
    forall name
      ensures ClassOf(a, name) == ClassOf(b, name)
    {
      ClassOfSame(a, b, name);
    }
    PolicyOrderIrrelevant(q, a, b, params);
    hide ClassOf, Attribute, Mentioned;
  }
}
