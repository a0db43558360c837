/** `getBounds`: the translation of a bound descriptor into a key range of the
    kind the `IDBKeyRange` interface of the W3C Indexed Database API builds.
    Keys are modelled as integers; `Admits` gives each range's meaning. */
module Bounds {
  import opened Wrappers

  /** `{value, notInclude}`, either may be missing. */
  datatype Bound = Bound(value: Option<int>, notInclude: Option<bool>)

  /** `{only, lowerBound, upperBound}`, any may be missing. */
  datatype BoundDescriptor = BoundDescriptor(only: Option<int>, lowerBound: Option<Bound>, upperBound: Option<Bound>)

  /** `IDBKeyRange.only(v)`, `.lowerBound(v, open)`, `.upperBound(v, open)`, or `null`. */
  datatype KeyRange = Only(v: int) | Lower(lower: int, lowerOpen: bool) | Upper(upper: int, upperOpen: bool) | NoRange {

    /** The keys a cursor opened on this range visits; `NoRange` scans the whole index. */
    predicate Admits(k: int) {
      match this
      case Only(v) => k == v
      case Lower(v, open) => if open then v < k else v <= k
      case Upper(v, open) => if open then k < v else k <= v
      case NoRange => true
    }
  }

  /** The strings `getBounds` throws. The upper-bound branch throws the lower-bound text. */
  datatype BoundError = LowerValueMissing | UpperValueMissing {
    /** Both kinds throw the same lower-bound text. */
    function Message(): (r: string)
      ensures r == "Lower bound value not provided"
    {
      match this
      case LowerValueMissing => "Lower bound value not provided"
      case UpperValueMissing => "Lower bound value not provided"
    }
  }

  /** `getBounds(boundValues)`. `only` takes priority over `lowerBound`, which takes
      priority over `upperBound`. A lower bound excludes its value exactly when
      `notInclude` is true; an upper bound always includes it, because the source
      passes the lower-bound flag (still false there) to `upperBound`. */
  function GetBounds(b: BoundDescriptor): (r: Result<KeyRange, BoundError>)
    ensures b.only.Some? ==> r.Success? && forall k :: r.value.Admits(k) <==> k == b.only.value
    ensures b.only.None? && b.lowerBound.Some? ==>
      var lb := b.lowerBound.value;
      && (r.Failure? <==> lb.value.None?)
      && (r.Failure? ==> r.error == LowerValueMissing)
      && (r.Success? ==> forall k :: r.value.Admits(k) <==>
            if lb.notInclude == Some(true) then lb.value.value < k else lb.value.value <= k)
    ensures b.only.None? && b.lowerBound.None? && b.upperBound.Some? ==>
      var ub := b.upperBound.value;
      && (r.Failure? <==> ub.value.None?)
      && (r.Failure? ==> r.error == UpperValueMissing)
      && (r.Success? ==> forall k :: r.value.Admits(k) <==> k <= ub.value.value)
    ensures b.only.None? && b.lowerBound.None? && b.upperBound.None? ==>
      r == Success(NoRange) && forall k :: r.value.Admits(k)
  {
    var notIncludeLower := false;
    var notIncludeUpper := false;
    if b.only.Some? then
      Success(Only(b.only.value))
    else if b.lowerBound.Some? then
      var lb := b.lowerBound.value;
      if lb.value.None? then Failure(LowerValueMissing)
      else
        var notIncludeLower := lb.notInclude.GetOr(notIncludeLower);
        Success(Lower(lb.value.value, notIncludeLower))
    else if b.upperBound.Some? then
      var ub := b.upperBound.value;
      if ub.value.None? then Failure(UpperValueMissing)
      else
        var notIncludeUpper := ub.notInclude.GetOr(notIncludeUpper);
        Success(Upper(ub.value.value, notIncludeLower))
    else
      Success(NoRange)
  }

  /** `{upperBound: {value: 5, notInclude: true}}` still admits 5. */
  lemma ExclusiveUpperBoundIgnored()
    ensures GetBounds(BoundDescriptor(None, None, Some(Bound(Some(5), Some(true))))).value.Admits(5)
  {
  }
}
