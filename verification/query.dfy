/**
 * The two ORM lookups the views use, over a table held as a sequence in
 * primary-key order: `filter(...)[0]` / `filter(...).exists()` and `get(...)`.
 */
module Query {
  import opened Wrappers

  /** Index of the first row satisfying `f`, if any. */
  function FirstWhere<T>(s: seq<T>, f: T -> bool): (r: Option<nat>)
    ensures r.Some? <==> exists j :: 0 <= j < |s| && f(s[j])
    ensures r.Some? ==> r.value < |s| && f(s[r.value])
    ensures r.Some? ==> forall j :: 0 <= j < r.value ==> !f(s[j])
  {
    if s == [] then None
    else if f(s[0]) then Some(0)
    else match FirstWhere(s[1..], f)
      case None => None
      case Some(k) => Some(k + 1)
  }

  /** `get`: the index of the one row satisfying `f`, or the exception Django raises. */
  function GetWhere<T>(s: seq<T>, f: T -> bool): (r: Result<nat>)
    ensures r.Ok? ==> r.value < |s| && f(s[r.value])
    ensures r.Ok? ==> forall j :: 0 <= j < |s| && j != r.value ==> !f(s[j])
    ensures r == Err(DoesNotExist) <==> forall j :: 0 <= j < |s| ==> !f(s[j])
    ensures r == Err(MultipleObjectsReturned) <==>
              exists i, j :: 0 <= i < j < |s| && f(s[i]) && f(s[j])
    ensures r.Err? ==> r.error == DoesNotExist || r.error == MultipleObjectsReturned
  {
    match FirstWhere(s, f)
    case None => Err(DoesNotExist)
    case Some(i) =>
      var later := FirstWhere(s[i + 1..], f);
      if later.Some? then
        assert s[i + 1..][later.value] == s[i + 1 + later.value];
        Err(MultipleObjectsReturned)
      else
        assert forall j :: i < j < |s| ==> s[j] == s[i + 1..][j - i - 1];
        Ok(i)
  }
}
