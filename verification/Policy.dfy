/** Relations as the schema inference classified them. */
module Policy {
  import opened Text
  import opened Writing

  datatype Class = Scoped | Unscoped | Unclassifiable

  datatype Relation = Relation(schema: string, name: string, class_: Class, tenantColumn: string)

  function Key(r: Relation): string {
    Lower(r.name)
  }

  /** A relation goes by its name in small letters. */
  lemma KeyFolded(r: Relation)
    ensures Key(r) == Folded(r.name)
  {
    FoldedLower(r.name);
  }

  /** No two relations share a name, case aside. */
  predicate DistinctNames(relations: seq<Relation>) {
    forall i, j :: 0 <= i < j < |relations| ==> Key(relations[i]) != Key(relations[j])
  }

  ghost predicate SameRelations(a: seq<Relation>, b: seq<Relation>) {
    forall r :: r in a <==> r in b
  }
}
