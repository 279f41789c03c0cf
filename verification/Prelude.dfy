/** Small shared vocabulary: an optional value, and sums and means of real sequences. */
module Prelude {

  datatype Option<+T> = None | Some(value: T)

  function Sum(xs: seq<real>): real {
    if xs == [] then 0.0 else xs[0] + Sum(xs[1..])
  }

  lemma {:induction false} SumAppend(xs: seq<real>, ys: seq<real>)
    ensures Sum(xs + ys) == Sum(xs) + Sum(ys)
  {
    if xs == [] {
      assert xs + ys == ys;
    } else {
      SumAppend(xs[1..], ys);
      assert (xs + ys)[1..] == xs[1..] + ys;
    }
  }

  /** The arithmetic mean, absent for an empty sample. */
  function Mean(xs: seq<real>): Option<real> {
    if xs == [] then None else Some(Sum(xs) / |xs| as real)
  }

  lemma MeanTimesCount(xs: seq<real>)
    requires xs != []
    ensures Mean(xs).value * |xs| as real == Sum(xs)
  {
  }

  /** One more value moves a mean by its share; none has no mean. */
  lemma MeanGrows(xs: seq<real>, x: real)
    ensures Mean([]) == None && Mean(xs + [x]).Some?
    ensures var after := Mean(xs + [x]).value * (|xs| + 1) as real;
            after == if xs == [] then x else Mean(xs).value * |xs| as real + x
  {
    SumAppend(xs, [x]);
    assert [x][1..] == [] && Sum([x]) == x;
    MeanTimesCount(xs + [x]);
    if xs != [] {
      MeanTimesCount(xs);
    }
  }
}
