/**
  A concrete run of the consumer's estimator and final filter, one value at
  a time.
*/
module Scenarios {
  import opened MisraGries
  import opened ReaderThread

  /**
    The stream 7,7,7,7,2 with k = 3 (two counters): 2 is admitted beside 7,
    and only 7 clears n / k = 5 / 3.
  */
  lemma HeavyHitterReported()
    ensures Run(KMisra(3), [7, 7, 7, 7, 2]) == map[7 := 4, 2 := 1]
    ensures FinalOutcome(Run(KMisra(3), [7, 7, 7, 7, 2]), 3, 5) == Done({7})
  {
    var xs: seq<nat> := [7, 7, 7, 7, 2];
    assert xs[..0] == [];
    assert xs[..1] == [7];
    assert xs[..2] == [7, 7];
    assert xs[..3] == [7, 7, 7];
    assert xs[..4] == [7, 7, 7, 7];
    assert xs[..5] == xs;
    assert Run(2, xs[..1]) == map[7 := 1];
    assert Run(2, xs[..2]) == map[7 := 2];
    assert xs[..3][..2] == xs[..2];
    assert Run(2, xs[..3]) == map[7 := 3];
    assert xs[..4][..3] == xs[..3];
    assert Run(2, xs[..4]) == map[7 := 4];
    assert xs[..5][..4] == xs[..4];
    assert Run(2, xs[..5]) == map[7 := 4, 2 := 1];
    var result := FinalOutcome(map[7 := 4, 2 := 1], 3, 5).result;
    assert 7 in result;
    assert 2 !in result;
    assert result == {7};
  }
}
