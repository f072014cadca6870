/** Histories of things handed to numbered receivers. */
module Histories {

  /** What receiver w was handed, in order. */
  ghost function Share(handed: seq<(nat, int)>, w: nat): seq<int> {
    if handed == [] then [] else
      var h := handed[|handed| - 1];
      Share(handed[..|handed| - 1], w) + if h.0 == w then [h.1] else []
  }

  lemma {:induction false} ShareSnoc(handed: seq<(nat, int)>, h: (nat, int), w: nat)
    ensures Share(handed + [h], w) == Share(handed, w) + if h.0 == w then [h.1] else []
  {
    assert (handed + [h])[..|handed|] == handed;
  }
}
