/** The file-count and byte bounds every staged runtime image meets. */
module RuntimeWorkspace {
  import opened Outcomes

  const MAXIMUM_COUNT := 256
  const MAXIMUM_BYTES := 268435456

  datatype BoundsError = FileTooLarge | ImageTooLarge

  function Sum(lengths: seq<int>): int {
    if lengths == [] then 0 else Sum(lengths[..|lengths| - 1]) + lengths[|lengths| - 1]
  }

  /** Every length is a legal one and the whole set is within both bounds. */
  predicate WithinBounds(lengths: seq<int>) {
    |lengths| <= MAXIMUM_COUNT && Sum(lengths) <= MAXIMUM_BYTES &&
    forall i :: 0 <= i < |lengths| ==> 0 <= lengths[i] <= MAXIMUM_BYTES
  }

  lemma {:induction false} SumGrows(lengths: seq<int>, n: nat)
    requires n <= |lengths| && forall i :: n <= i < |lengths| ==> 0 <= lengths[i]
    ensures Sum(lengths[..n]) <= Sum(lengths)
    decreases |lengths| - n
  {
    if n == |lengths| {
      assert lengths[..n] == lengths;
    } else {
      assert lengths[..n + 1][..n] == lengths[..n];
      SumGrows(lengths, n + 1);
    }
  }

  /** Counting file by file accepts exactly the sets that are within bounds as a whole. */
  method ValidateBounds(lengths: seq<int>) returns (r: Result<(), BoundsError>)
    ensures r.Ok? <==> WithinBounds(lengths)
    ensures r == Err(FileTooLarge) ==> exists i :: 0 <= i < |lengths| && !(0 <= lengths[i] <= MAXIMUM_BYTES)
  {
    var count, total := 0, 0;
    for i := 0 to |lengths|
      invariant count == i <= MAXIMUM_COUNT
      invariant total == Sum(lengths[..i]) <= MAXIMUM_BYTES
      invariant forall j :: 0 <= j < i ==> 0 <= lengths[j] <= MAXIMUM_BYTES
    {
      if lengths[i] < 0 || lengths[i] > MAXIMUM_BYTES { return Err(FileTooLarge); }
      count, total := count + 1, total + lengths[i];
      assert lengths[..i + 1][..i] == lengths[..i];
      if count > MAXIMUM_COUNT || total > MAXIMUM_BYTES {
        if forall j :: 0 <= j < |lengths| ==> 0 <= lengths[j] <= MAXIMUM_BYTES { SumGrows(lengths, i + 1); }
        return Err(ImageTooLarge);
      }
    }
    assert lengths[..|lengths|] == lengths;
    return Ok(());
  }

  lemma SumIsNatural(lengths: seq<int>)
    requires WithinBounds(lengths)
    ensures 0 <= Sum(lengths) <= MAXIMUM_BYTES
  {
    SumGrows(lengths, 0);
  }
}
