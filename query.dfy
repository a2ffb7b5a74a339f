/** Row selection as the query builder does it: `.first()` over an ordered table. */
module Query {

  datatype Option<T> = None | Some(value: T)

  /** Position of the first row of `rows` that satisfies `p`, in sequence order. */
  function FirstWhere<T>(rows: seq<T>, p: T -> bool): (r: Option<nat>)
    ensures r.Some? ==> r.value < |rows| && p(rows[r.value])
    ensures r.Some? ==> forall j :: 0 <= j < r.value ==> !p(rows[j])
    ensures r.None? <==> forall j :: 0 <= j < |rows| ==> !p(rows[j])
  {
    if |rows| == 0 then None
    else if p(rows[0]) then Some(0)
    else match FirstWhere(rows[1..], p)
      case None => None
      case Some(k) => Some(k + 1)
  }

  /** Two filters that agree on every row select the same row. */
  lemma FirstWhereCongruent<T>(rows: seq<T>, p: T -> bool, p': T -> bool)
    requires forall x :: x in rows ==> p(x) == p'(x)
    ensures FirstWhere(rows, p) == FirstWhere(rows, p')
  {
  }
}
