/**
 * `SysValidityExtensions.OfModifiedAfter`: restricts a query of system-versioned
 * entities to those whose version started strictly after a given instant.
 * A `DateTime` is modelled as its tick count; `DateTime.MinValue` is tick 0.
 */
module SysValidityExtensions {
  import opened Common
  import opened Queries

  /** The tick count of `DateTime.MinValue`. */
  const MinValueTicks: int := 0

  /** The part of an `ISysValidityEntity` the filter reads. */
  datatype SysValidityEntity = SysValidityEntity(id: int, sysStartTime: int)

  /** The predicate of the `Where`: `_ => _.SysStartTime > changedAfter`. */
  function StartedAfter(changedAfter: int): SysValidityEntity -> bool
  {
    (e: SysValidityEntity) => e.sysStartTime > changedAfter
  }

  /**
   * `query.OfModifiedAfter(changedAfter)`: the query itself when no instant is
   * given or it is `DateTime.MinValue`, else the entities whose `SysStartTime`
   * is strictly later, in query order.
   */
  function OfModifiedAfter(query: seq<SysValidityEntity>, changedAfter: Option<int>): (r: seq<SysValidityEntity>)
    ensures changedAfter == None || changedAfter == Some(MinValueTicks) ==> r == query
    ensures changedAfter.Some? && changedAfter.value != MinValueTicks ==>
      && (forall i | 0 <= i < |r| :: r[i].sysStartTime > changedAfter.value)
      && (forall i | 0 <= i < |query| :: query[i].sysStartTime > changedAfter.value ==> query[i] in r)
    ensures IsSubsequence(r, query)
  {
    if changedAfter.None? || changedAfter.value == MinValueTicks then
      SubsequenceRefl(query);
      query
    else
      WhereIsSubsequence(query, StartedAfter(changedAfter.value));
      Where(query, StartedAfter(changedAfter.value))
  }

  /** Filtering twice with the same instant is filtering once. */
  lemma OfModifiedAfterIdempotent(query: seq<SysValidityEntity>, changedAfter: Option<int>)
    ensures OfModifiedAfter(OfModifiedAfter(query, changedAfter), changedAfter) == OfModifiedAfter(query, changedAfter)
  {
    if changedAfter.Some? && changedAfter.value != MinValueTicks {
      var once := OfModifiedAfter(query, changedAfter);
      WhereAll(once, StartedAfter(changedAfter.value));
    }
  }
}
