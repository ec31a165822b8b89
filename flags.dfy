/** The `active` class of a row of elements (slides, indicators, nav links),
    seen as one boolean flag per element. */
module Flags {

  /** The flags when element `k`, and no other, is active; an index outside
      the row leaves every flag cleared. */
  function OneHot(len: nat, k: int): (r: seq<bool>)
    ensures |r| == len
    ensures forall j :: 0 <= j < len ==> (r[j] <==> j == k)
  {
    seq(len, j => j == k)
  }

  /** The flags when no element is active. */
  function AllClear(len: nat): (r: seq<bool>)
    ensures |r| == len
    ensures forall j :: 0 <= j < len ==> !r[j]
  {
    seq(len, _ => false)
  }

  /** How many elements are active. */
  function CountActive(s: seq<bool>): (r: nat)
  {
    if s == [] then 0 else (if s[0] then 1 else 0) + CountActive(s[1..])
  }

  /** Marking one element of the row makes exactly one element active;
      an index outside the row makes none active. */
  lemma {:induction false} OneHotCount(len: nat, k: int)
    ensures CountActive(OneHot(len, k)) == if 0 <= k < len then 1 else 0
  {
    if len > 0 {
      assert OneHot(len, k)[1..] == OneHot(len - 1, k - 1);
      OneHotCount(len - 1, k - 1);
    }
  }

  /** A cleared row has no active element. */
  lemma {:induction false} AllClearCount(len: nat)
    ensures CountActive(AllClear(len)) == 0
  {
    if len > 0 {
      assert AllClear(len)[1..] == AllClear(len - 1);
      AllClearCount(len - 1);
    }
  }

  /** `elements.forEach(e => e.classList.remove('active'))`. */
  method ClearAll(a: array<bool>)
    modifies a
    ensures a[..] == AllClear(a.Length)
  {
    var i := 0;
    while i < a.Length
      invariant 0 <= i <= a.Length
      invariant forall j :: 0 <= j < i ==> !a[j]
    {
      a[i] := false;
      i := i + 1;
    }
  }
}
