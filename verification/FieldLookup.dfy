/** Members and options by name. */
module FieldLookup {
  import opened Wrappers
  import opened Schema

  /** The first field of that name. */
  function Find<K>(fields: seq<Named<K>>, name: string): (r: Option<nat>)
    ensures r.Some? ==> r.value < |fields| && fields[r.value].name == name
    ensures r.Some? ==> forall i :: 0 <= i < r.value ==> fields[i].name != name
    ensures r.None? ==> forall i :: 0 <= i < |fields| ==> fields[i].name != name
  {
    if fields == [] then None
    else if fields[0].name == name then Some(0)
    else match Find(fields[1..], name) { case Some(i) => Some(i + 1) case None => None }
  }

  ghost predicate DistinctFields<K>(fields: seq<Named<K>>) {
    forall i, j :: 0 <= i < j < |fields| ==> fields[i].name != fields[j].name
  }
}
