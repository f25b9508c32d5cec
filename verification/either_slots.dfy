/** A value held in up to two optional slots, the first preferred
    (`src/either.rs`). */
module EitherSlots {
  import opened Wrappers

  /** Which of `pick`'s three callbacks runs, with the value it is given. */
  datatype Picked<T, R> = RanPreferred(preferred: T) | RanOther(other: R) | RanNone

  datatype Either<T, R> = Either(preferred: Option<T>, other: Option<R>)
  {
    /** `preferred`: the first slot as it is; it holds a value exactly when
        `pick` would run the preferred callback, with that value. */
    function Preferred(): (r: Option<T>)
      ensures r.Some? <==> Pick().RanPreferred?
      ensures r.Some? ==> Pick() == RanPreferred(r.value)
    {
      preferred
    }

    /** `other`: the second slot as it is; `pick` runs the other callback, with
        this value, exactly when it holds one and the first slot is empty. */
    function Other(): (r: Option<R>)
      ensures r.Some? && Preferred().None? <==> Pick().RanOther?
      ensures r.Some? && Preferred().None? ==> Pick() == RanOther(r.value)
    {
      other
    }

    /** `pick`: the preferred callback whenever the first slot is filled (the
        second slot is then ignored), the other callback when only the second
        is, and the `none` callback when neither is; exactly one runs. */
    function Pick(): (r: Picked<T, R>)
      ensures r.RanPreferred? <==> preferred.Some?
      ensures r.RanPreferred? ==> preferred == Some(r.preferred)
      ensures r.RanOther? <==> preferred.None? && other.Some?
      ensures r.RanOther? ==> other == Some(r.other)
      ensures r.RanNone? <==> preferred.None? && other.None?
    {
      if preferred.Some? then RanPreferred(preferred.value)
      else if other.Some? then RanOther(other.value)
      else RanNone
    }
  }

  /** The two projections lose nothing: together they rebuild the value. */
  lemma SlotsRebuild<T, R>(e: Either<T, R>)
    ensures Either(e.Preferred(), e.Other()) == e
  {
  }
}
