/** The document store seen through `findById`: collections are sequences of
    records in natural order, each record carrying its identifier. */
module Store {
  import opened Base
  import opened Seqs

  /** Outcome of `Model.findById(id)`: the cast of a malformed id throws, an
      unknown id yields `null`, otherwise the position of the record. */
  datatype Lookup = CastError | Absent | Found(index: nat)

  function FindById<T>(records: seq<T>, idOf: T -> Id, id: Id): (r: Lookup)
    ensures r.CastError? <==> !ValidObjectId(id)
    ensures r.Found? ==> r.index < |records| && idOf(records[r.index]) == id
    ensures r.Found? ==> forall j | 0 <= j < r.index :: idOf(records[j]) != id
    ensures r.Absent? <==> ValidObjectId(id) && forall j | 0 <= j < |records| :: idOf(records[j]) != id
  {
    if !ValidObjectId(id) then CastError
    else match FirstIndex(records, (x: T) => idOf(x) == id)
      case None => Absent
      case Some(i) => Found(i)
  }

  /** Two collections whose records carry the same identifiers position by
      position answer every `findById` alike. */
  lemma FindByIdSameIds<T>(a: seq<T>, b: seq<T>, idOf: T -> Id, id: Id)
    requires |a| == |b|
    requires forall j | 0 <= j < |a| :: idOf(a[j]) == idOf(b[j])
    ensures FindById(a, idOf, id) == FindById(b, idOf, id)
  {
  }

  /** Identifiers are unique within a collection. */
  predicate IdsUnique<T>(records: seq<T>, idOf: T -> Id) {
    forall i, j | 0 <= i < j < |records| :: idOf(records[i]) != idOf(records[j])
  }

  /** With unique identifiers, the record at any position is the one found by its id. */
  lemma FindByIdUnique<T>(records: seq<T>, idOf: T -> Id, i: nat)
    requires i < |records| && ValidObjectId(idOf(records[i]))
    requires IdsUnique(records, idOf)
    ensures FindById(records, idOf, idOf(records[i])) == Found(i)
  {
  }
}
