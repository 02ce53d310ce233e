/**
 * The bookkeeping of DiagBase (src/DiagBase.cpp): the rule that decides
 * whether a diagnostic runs at a step, the registration of the filters'
 * variables, and the lookup of field names in the list of available
 * variables. A missing name aborts in the source; here it is an error
 * value.
 */
module DiagBase {
  import opened Numerics

  /** A diagnostic filter, reduced to the variable it reads (m_filterVar). */
  datatype Filter = Filter(filterVar: string)

  datatype DiagError = FieldNotFound(field: string) // amrex::Abort("Field : ... wasn't found ...")

  /** The index of the first entry of list equal to field, if any. */
  function FieldIndex(field: string, list: seq<string>): (r: Option<nat>)
    ensures r.Some? ==> r.value < |list| && list[r.value] == field
    ensures r.Some? ==> forall j :: 0 <= j < r.value ==> list[j] != field
    ensures r.None? <==> field !in list
  {
    if |list| == 0 then None
    else if list[0] == field then Some(0)
    else
      var r := FieldIndex(field, list[1..]);
      assert forall j :: 0 < j < |list| ==> list[j] == list[1..][j - 1];
      if r.None? then None else Some(r.value + 1)
  }

  /** In a list without repeated names, looking up entry i gives i back. */
  lemma FieldIndexOfEntry(list: seq<string>, i: nat)
    requires i < |list|
    requires forall a, b :: 0 <= a < b < |list| ==> list[a] != list[b]
    ensures FieldIndex(list[i], list) == Some(i)
  {
    assert list[i] in list;
  }

  /** Looking a name up in a list extended at its end finds the same index when the name was already there. */
  lemma FieldIndexAppend(field: string, list: seq<string>, more: seq<string>)
    requires field in list
    ensures FieldIndex(field, list + more) == FieldIndex(field, list)
  {
    var r := FieldIndex(field, list);
    var q := FieldIndex(field, list + more);
    assert (list + more)[r.value] == field;
    assert forall j :: 0 <= j < |list| ==> (list + more)[j] == list[j];
    assert field in list + more;
  }

  /** getFieldIndex: the first index of the name, by a scan that stops at the first match. */
  method GetFieldIndex(field: string, list: seq<string>) returns (r: Result<nat, DiagError>)
    ensures r.Ok? <==> FieldIndex(field, list).Some?
    ensures r.Ok? ==> r.value == FieldIndex(field, list).value
    ensures r.Err? ==> r.error == FieldNotFound(field)
  {
    var index := -1;
    var n := 0;
    while n < |list|
      invariant 0 <= n <= |list|
      invariant index == -1
      invariant forall j :: 0 <= j < n ==> list[j] != field
    {
      if list[n] == field {
        index := n;
        break;
      }
      n := n + 1;
    }
    if index < 0 {
      return Err(FieldNotFound(field));
    }
    r := Ok(index);
  }

  /**
   * getFieldIndexVec: the index of every name, in order; the first missing
   * name aborts.
   */
  method GetFieldIndexVec(fields: seq<string>, list: seq<string>) returns (r: Result<seq<nat>, DiagError>)
    ensures r.Ok? <==> forall n :: 0 <= n < |fields| ==> fields[n] in list
    ensures r.Ok? ==> |r.value| == |fields|
    ensures r.Ok? ==> forall n :: 0 <= n < |fields| ==> Some(r.value[n]) == FieldIndex(fields[n], list)
    ensures r.Err? ==> exists n :: 0 <= n < |fields| && fields[n] !in list && r.error == FieldNotFound(fields[n])
  {
    var indexVec: seq<nat> := [];
    var n := 0;
    while n < |fields|
      invariant 0 <= n <= |fields| && |indexVec| == n
      invariant forall m :: 0 <= m < n ==> fields[m] in list
      invariant forall m :: 0 <= m < n ==> Some(indexVec[m]) == FieldIndex(fields[m], list)
    {
      var i := GetFieldIndex(fields[n], list);
      if i.Err? {
        return Err(i.error);
      }
      indexVec := indexVec + [i.value];
      n := n + 1;
    }
    r := Ok(indexVec);
  }

  /** The variables the filters read, in filter order. */
  function FilterVars(filters: seq<Filter>): (vars: seq<string>)
    ensures |vars| == |filters|
    ensures forall n :: 0 <= n < |filters| ==> vars[n] == filters[n].filterVar
  {
    seq(|filters|, n requires 0 <= n < |filters| => filters[n].filterVar)
  }

  /**
   * A diagnostic with its output interval (m_interval steps), its output
   * period (m_per) and its filters. The values come from ParmParse in
   * init, which is a parameter here.
   */
  class Diagnostic {
    var interval: int
    var per: real
    var filters: seq<Filter>

    /** init, with the queried values given: the source asserts m_interval > 0 or m_per > 0. */
    constructor (interval0: int, per0: real, filters0: seq<Filter>)
      requires interval0 > 0 || per0 > 0.0
      ensures interval == interval0 && per == per0 && filters == filters0
    {
      interval := interval0;
      per := per0;
      filters := filters0;
    }

    /**
     * doDiag: the diagnostic runs at step nstep when the interval is
     * positive and divides nstep; the time is not used.
     */
    predicate DoDiag(time: real, nstep: int)
      reads this
    {
      interval > 0 && TruncatedRemainder(nstep, interval) == 0
    }

    /** DoDiag holds exactly at the multiples of a positive interval, whatever the time. */
    lemma DoDiagAtMultiples(time: real, time2: real, nstep: int)
      ensures DoDiag(time, nstep) <==> interval > 0 && nstep % interval == 0
      ensures DoDiag(time, nstep) == DoDiag(time2, nstep)
    {
      if interval > 0 {
        TruncatedRemainderZero(nstep, interval);
      }
    }

    /** addVars: push every filter's variable onto the list, leaving the entries already there. */
    method AddVars(varList: seq<string>) returns (result: seq<string>)
      ensures result == varList + FilterVars(filters)
    {
      result := varList;
      var n := 0;
      while n < |filters|
        invariant 0 <= n <= |filters|
        invariant result == varList + FilterVars(filters)[..n]
      {
        assert FilterVars(filters)[..n + 1] == FilterVars(filters)[..n] + [filters[n].filterVar];
        result := result + [filters[n].filterVar];
        n := n + 1;
      }
      assert FilterVars(filters)[..n] == FilterVars(filters);
    }
  }

  /**
   * After addVars every filter variable can be looked up, and every name
   * that was there before keeps its index.
   */
  lemma AddVarsLookup(varList: seq<string>, filters: seq<Filter>, field: string, n: nat)
    requires n < |filters|
    ensures FieldIndex(filters[n].filterVar, varList + FilterVars(filters)).Some?
    ensures field in varList ==> FieldIndex(field, varList + FilterVars(filters)) == FieldIndex(field, varList)
  {
    var all := varList + FilterVars(filters);
    assert all[|varList| + n] == filters[n].filterVar;
    assert filters[n].filterVar in all;
    if field in varList {
      FieldIndexAppend(field, varList, FilterVars(filters));
    }
  }
}
