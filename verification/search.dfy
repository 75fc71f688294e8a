/** The two array searches the grid relies on: `Array.prototype.findIndex`,
    which answers the first matching position or -1, and
    `Array.prototype.find`, which answers the first matching element or
    `undefined`. */
module Search {
  import opened Results

  /** Position of the first element accepted by `matches`, or -1 when none is. */
  function FindIndex<T>(s: seq<T>, matches: T -> bool): (r: int)
    ensures -1 <= r < |s|
    ensures r == -1 <==> forall i :: 0 <= i < |s| ==> !matches(s[i])
    ensures 0 <= r ==> matches(s[r]) && forall i :: 0 <= i < r ==> !matches(s[i])
  {
    if |s| == 0 then -1
    else if matches(s[0]) then 0
    else
      var k := FindIndex(s[1..], matches);
      if k == -1 then -1 else k + 1
  }

  /** The first element accepted by `matches`, or `None` when none is. */
  function Find<T>(s: seq<T>, matches: T -> bool): (r: Option<T>)
    ensures r.None? <==> forall i :: 0 <= i < |s| ==> !matches(s[i])
    ensures r.Some? ==>
      exists i :: 0 <= i < |s| && s[i] == r.value && matches(s[i])
        && forall j :: 0 <= j < i ==> !matches(s[j])
  {
    var k := FindIndex(s, matches);
    if k == -1 then None else Some(s[k])
  }
}
