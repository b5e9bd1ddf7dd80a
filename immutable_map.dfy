/** `ImmutableDictionary.Add`: a new dictionary with one more entry. Adding a
    key that is already present is allowed only with an equal value, and then
    returns the dictionary unchanged; otherwise it throws. */
module ImmutableMap {
  import opened Wrappers

  datatype AddError = DuplicateKey

  function Add<K, V(==)>(m: map<K, V>, key: K, value: V): (r: Result<map<K, V>, AddError>)
    ensures r.Success? <==> key !in m || m[key] == value
    ensures r.Success? ==> r.value == m[key := value]
  {
    if key !in m then Success(m[key := value])
    else if m[key] == value then Success(m)
    else Failure(DuplicateKey)
  }
}
