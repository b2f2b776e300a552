/**
 * `__merge_dicts`: for every report date of the EPS dictionary, the revenue record stored
 * under the same date is laid over the EPS record (`dict.update`), so on a column both
 * carry, such as "Period Ending", the revenue value wins. A date missing from the revenue
 * dictionary raises `KeyError`.
 */
module Merge {
  import opened Wrappers
  import opened Records

  /** The merged dictionary, defined when every date of `first` is a date of `second`. */
  function Merged(first: Index, second: Index): (m: Index)
    requires first.Keys <= second.Keys
  {
    map d | d in first :: first[d] + second[d]
  }

  /**
   * The loop of `__merge_dicts` over the dates of `first`, each record updated in turn.
   * It fails exactly when some date of `first` is absent from `second`, naming such a date.
   */
  method MergeDicts(first: Index, second: Index) returns (r: Result<Index, Failure>)
    ensures r.Ok? <==> first.Keys <= second.Keys
    ensures r.Ok? ==> r.value == Merged(first, second)
    ensures r.Err? ==> r.error.MissingKey? && r.error.date in first && r.error.date !in second
  {
    var result := first;
    var todo := first.Keys;
    while todo != {}
      invariant todo <= first.Keys
      invariant result.Keys == first.Keys
      invariant forall d :: d in first && d !in todo ==> d in second && result[d] == first[d] + second[d]
      invariant forall d :: d in todo ==> result[d] == first[d]
      decreases todo
    {
      assert (forall d :: d !in todo) ==> todo == {};
      var date :| date in todo;
      if date !in second {
        return Err(MissingKey(date));
      }
      result := result[date := result[date] + second[date]];
      todo := todo - {date};
    }
    assert forall d :: d in first ==> d !in todo;
    assert forall d :: d in first.Keys ==> d in second.Keys;
    assert first.Keys <= second.Keys;
    var merged := Merged(first, second);
    assert forall d :: d in result <==> d in merged;
    assert forall d :: d in result ==> result[d] == merged[d];
    assert result == merged;
    r := Ok(result);
  }


  /** The merge keeps exactly the dates of `first`. */
  lemma MergedKeys(first: Index, second: Index)
    requires first.Keys <= second.Keys
    ensures Merged(first, second).Keys == first.Keys
  {
    assert forall d :: d in Merged(first, second) <==> d in first;
  }

  /**
   * Each merged record carries the columns of both records; on a column both carry the
   * value of `second` wins, and a column only `first` carries keeps its value.
   */
  lemma MergedRecord(first: Index, second: Index, d: Date, column: string)
    requires first.Keys <= second.Keys && d in first
    ensures d in Merged(first, second)
    ensures Merged(first, second)[d].Keys == first[d].Keys + second[d].Keys
    ensures column in second[d] ==> Merged(first, second)[d][column] == second[d][column]
    ensures column in first[d] && column !in second[d] ==> Merged(first, second)[d][column] == first[d][column]
  {
  }
}
