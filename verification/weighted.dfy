/**
 * `WeightedData` and the max-heap that ranks it (src/lib.rs:84-104, and the
 * `BinaryHeap` that break_single_xor and detect_single_xor_cipher fill).
 */
module Weighted {
  import opened Bytes

  /** `std::cmp::Ordering`. */
  datatype Ordering = Less | Equal | Greater

  /**
   * A payload with a weight. The weight is an `OrderedFloat<f64>` in the
   * source; here it is a real number, ordered the usual way.
   */
  datatype WeightedData<T> = WeightedData(weight: real, data: T)

  /** `Ord::cmp` (src/lib.rs:90-94): the order of the weights alone. */
  function Cmp<T>(a: WeightedData<T>, b: WeightedData<T>): (r: Ordering)
    ensures r == Less <==> a.weight < b.weight
    ensures r == Equal <==> a.weight == b.weight
    ensures r == Greater <==> a.weight > b.weight
  {
    if a.weight < b.weight then Less
    else if a.weight == b.weight then Equal
    else Greater
  }

  /** `PartialOrd::partial_cmp` (src/lib.rs:95-99): always `Some(cmp)`. */
  function PartialCmp<T>(a: WeightedData<T>, b: WeightedData<T>): (r: Option<Ordering>)
    ensures r.Some?
    ensures r == Some(Less) <==> a.weight < b.weight
    ensures r == Some(Greater) <==> a.weight > b.weight
  {
    Some(Cmp(a, b))
  }

  /** `PartialEq::eq` (src/lib.rs:100-104): equal weights, whatever the data. */
  predicate Eq<T>(a: WeightedData<T>, b: WeightedData<T>)
    ensures Eq(a, b) <==> Cmp(a, b) == Equal
  {
    a.weight == b.weight
  }

  /** `a <= b` as the heap evaluates it through `partial_cmp`. */
  predicate AtMost<T>(a: WeightedData<T>, b: WeightedData<T>)
    ensures AtMost(a, b) <==> a.weight <= b.weight
  {
    PartialCmp(a, b) == Some(Less) || PartialCmp(a, b) == Some(Equal)
  }

  /**
   * Cmp is a total order on weights: it is antisymmetric, transitive and
   * connected, and `Equal` is exactly equal weight.
   */
  lemma CmpIsTotalOrder<T>(a: WeightedData<T>, b: WeightedData<T>, c: WeightedData<T>)
    ensures Cmp(a, b) == Less <==> Cmp(b, a) == Greater
    ensures Cmp(a, b) == Equal <==> Cmp(b, a) == Equal
    ensures Cmp(a, b) != Greater && Cmp(b, c) != Greater ==> Cmp(a, c) != Greater
    ensures Cmp(a, b) == Less && Cmp(b, c) == Less ==> Cmp(a, c) == Less
    ensures Cmp(a, b) != Greater || Cmp(b, a) != Greater
  {
  }

  /** eq agrees with cmp, and with `<=` both ways; neither looks at the data. */
  lemma EqAgreesWithCmp<T>(a: WeightedData<T>, b: WeightedData<T>)
    ensures Eq(a, b) <==> Cmp(a, b) == Equal
    ensures Eq(a, b) <==> AtMost(a, b) && AtMost(b, a)
    ensures AtMost(a, b) <==> a.weight <= b.weight
  {
  }

  /** Two entries of one weight are equal even when their data differ. */
  lemma EqIgnoresData<T>(w: real, d1: T, d2: T)
    ensures Eq(WeightedData(w, d1), WeightedData(w, d2))
    ensures Cmp(WeightedData(w, d1), WeightedData(w, d2)) == Equal
  {
  }

  /**
   * The index of the first entry of maximum weight: every entry weighs at
   * most as much, and every earlier entry weighs strictly less.
   */
  function FirstMax<T>(s: seq<WeightedData<T>>): (r: nat)
    requires |s| > 0
    ensures r < |s|
    ensures forall i :: 0 <= i < |s| ==> AtMost(s[i], s[r])
    ensures forall i :: 0 <= i < r ==> Cmp(s[i], s[r]) == Less
    decreases |s|
  {
    if |s| == 1 then 0
    else
      var m := FirstMax(s[..|s| - 1]);
      if Cmp(s[|s| - 1], s[m]) == Greater then |s| - 1 else m
  }

  /** A first maximum is the only index with both of its properties. */
  lemma FirstMaxUnique<T>(s: seq<WeightedData<T>>, r: nat)
    requires r < |s|
    requires forall i :: 0 <= i < |s| ==> AtMost(s[i], s[r])
    requires forall i :: 0 <= i < r ==> Cmp(s[i], s[r]) == Less
    ensures r == FirstMax(s)
  {
    var f := FirstMax(s);
    if r < f {
      assert false;
    } else if f < r {
      assert false;
    }
  }

  /**
   * Rust's `BinaryHeap`, filled by `push` and read by `peek`, as
   * break_single_xor and detect_single_xor_cipher use it (they never pop).
   * `items` lists what was pushed, in push order; `top` is where the root
   * of the heap came from. A push moves the new entry up only past parents
   * it is strictly greater than, so the root changes only when an entry
   * weighs more than the current root: the root is the first pushed entry
   * of maximum weight.
   */
  class WeightedHeap<T> {
    var items: seq<WeightedData<T>>
    var top: nat

    ghost predicate Valid()
      reads this
    {
      |items| > 0 ==> top == FirstMax(items)
    }

    /** `BinaryHeap::new()`. */
    constructor ()
      ensures Valid() && items == []
    {
      items := [];
      top := 0;
    }

    /** `BinaryHeap::push`: the entry joins the heap, nothing else changes. */
    method Push(x: WeightedData<T>)
      requires Valid()
      modifies this
      ensures Valid()
      ensures items == old(items) + [x]
    {
      if items == [] || Cmp(x, items[top]) == Greater {
        top := |items|;
      }
      items := items + [x];
      assert items[..|items| - 1] == old(items);
    }

    /**
     * `BinaryHeap::peek`: None on an empty heap, otherwise an entry of the
     * heap that weighs at least as much as every entry, the first pushed
     * among those of that weight.
     */
    method Peek() returns (r: Option<WeightedData<T>>)
      requires Valid()
      ensures r.None? <==> items == []
      ensures r.Some? ==> r.value in items && forall e :: e in items ==> AtMost(e, r.value)
      ensures r.Some? ==> r.value == items[FirstMax(items)]
    {
      if items == [] {
        return None;
      }
      return Some(items[top]);
    }
  }
}
