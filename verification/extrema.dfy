/** Python's `max(range(n), key=f)` / `min(range(n), key=f)` over integer keys:
    both return the FIRST index at which the extremum is reached. */
module Extrema {

  method FirstArgMax(keys: seq<int>) returns (k: nat)
    requires |keys| > 0
    ensures k < |keys|
    ensures forall j :: 0 <= j < |keys| ==> keys[j] <= keys[k]
    ensures forall j :: 0 <= j < k ==> keys[j] < keys[k]
  {
    k := 0;
    var i := 1;
    while i < |keys|
      invariant 1 <= i <= |keys|
      invariant k < i
      invariant forall j :: 0 <= j < i ==> keys[j] <= keys[k]
      invariant forall j :: 0 <= j < k ==> keys[j] < keys[k]
    {
      if keys[i] > keys[k] {
        k := i;
      }
      i := i + 1;
    }
  }

  method FirstArgMin(keys: seq<int>) returns (k: nat)
    requires |keys| > 0
    ensures k < |keys|
    ensures forall j :: 0 <= j < |keys| ==> keys[k] <= keys[j]
    ensures forall j :: 0 <= j < k ==> keys[k] < keys[j]
  {
    k := 0;
    var i := 1;
    while i < |keys|
      invariant 1 <= i <= |keys|
      invariant k < i
      invariant forall j :: 0 <= j < i ==> keys[k] <= keys[j]
      invariant forall j :: 0 <= j < k ==> keys[k] < keys[j]
    {
      if keys[i] < keys[k] {
        k := i;
      }
      i := i + 1;
    }
  }
}
