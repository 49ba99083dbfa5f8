/** utils.go: generic helpers. */
module Utils {
  import opened Wrappers

  /** `p(v)`: the address of a copy of `v`, i.e. a present value, never nil. */
  function P<T>(v: T): (r: Option<T>)
    ensures r.Some? && r.value == v
  {
    Some(v)
  }

  /** `arrayContains`: a linear scan for `item`. */
  function ArrayContains<T(==)>(arr: seq<T>, item: T): (r: bool)
    ensures r <==> exists i :: 0 <= i < |arr| && arr[i] == item
  {
    if |arr| == 0 then false
    else if arr[0] == item then true
    else
      var rest := ArrayContains(arr[1..], item);
      assert forall i :: 1 <= i < |arr| ==> arr[i] == arr[1..][i - 1];
      rest
  }
}
