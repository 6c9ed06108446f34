/** Python's `None`-or-value, used wherever the source returns or stores `None`. */
module Opt {
  datatype Option<T> = None | Some(value: T)

  /** The present values, in order: `[x for x in os if x is not None]`. */
  function Somes<T>(os: seq<Option<T>>): seq<T> {
    if |os| == 0 then []
    else Somes(os[..|os| - 1]) + (if os[|os| - 1].Some? then [os[|os| - 1].value] else [])
  }

  lemma SomesSnoc<T>(os: seq<Option<T>>, o: Option<T>)
    ensures Somes(os + [o]) == Somes(os) + (if o.Some? then [o.value] else [])
  {
    assert (os + [o])[..|os|] == os;
  }

  lemma {:induction false} SomesSpec<T>(os: seq<Option<T>>)
    ensures forall x :: x in Somes(os) <==> Some(x) in os
  {
    if |os| > 0 {
      var n := |os| - 1;
      SomesSpec(os[..n]);
      assert os == os[..n] + [os[n]];
    }
  }
}
