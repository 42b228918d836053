/** The standard-library search the debugger's register lookups are built on. */
module Search {


  /**
   * `std::find_if`: the index of the first element satisfying `p`, or `|s|`
   * (the end iterator) when none does.
   */
  function FindFirst<T>(s: seq<T>, p: T -> bool): (i: nat)
    ensures i <= |s|
    ensures i < |s| ==> p(s[i])
    ensures forall j :: 0 <= j < i ==> !p(s[j])
  {
    if s == [] then 0
    else if p(s[0]) then 0
    else 1 + FindFirst(s[1..], p)
  }
}
