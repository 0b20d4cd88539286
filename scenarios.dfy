/** Small worked cases of the counting, each checked against the general
    definitions. */
module Scenarios {
  import opened Wrappers
  import opened BamReading
  import opened PairCounting
  import opened Completion

  /** Mapped and primary records with at most the threshold of mismatches are
      kept; one with too many is skipped; unmapped and secondary records are
      skipped without their tag being looked at, even when it is missing or
      not an integer. */
  lemma FilterScenario()
    ensures HitsOf([
      Record("r1", false, false, Present(IntValue(2)), Some(0)),
      Record("r1", false, false, Present(IntValue(3)), Some(1)),
      Record("r2", true, false, Absent, None),
      Record("r2", false, true, Present(OtherValue), Some(4))], 2) == Success(map["r1" := {0}])
  {
    var r0 := Record("r1", false, false, Present(IntValue(2)), Some(0));
    var r1 := Record("r1", false, false, Present(IntValue(3)), Some(1));
    var r2 := Record("r2", true, false, Absent, None);
    var r3 := Record("r2", false, true, Present(OtherValue), Some(4));
    var rs := [r0, r1, r2, r3];
    assert rs[1..] == [r1, r2, r3];
    assert rs[1..][1..] == [r2, r3];
    assert rs[1..][1..][1..] == [r3];
    assert rs[1..][1..][1..][1..] == [];
    var m: HitMap := map["r1" := {0}];
    assert Passes(r0, 2) && !Aborts(r0, 2);
    assert IdsOf(map[], "r1") + {0} == {0};
    assert Accept(map[], r0, 2) == Success(m);
    assert HitsFrom([r3], m, 2) == Success(m);
    assert HitsFrom([r2, r3], m, 2) == Success(m);
    assert HitsFrom([r1, r2, r3], m, 2) == Success(m);
  }

  /** A record that passes the flag checks but lacks the mismatch tag stops the
      read with an error naming it. */
  lemma MissingTagScenario()
    ensures HitsOf([
      Record("r1", false, false, Present(IntValue(0)), Some(0)),
      Record("r2", false, false, Absent, Some(1))], 2) == Failure(TagMissing("r2"))
  {
  }

  /** One fragment hitting reference 0 in stream one and reference 2 in stream
      two, completed over three references on each side: nine keys, the one
      observed with count 1 and the eight others with count 0. */
  lemma SingleFragmentMatrix()
    ensures var t := Completed(PairCounts(map["f1" := {0}], map["f1" := {2}]), MatrixKeys(3, 3));
      && |t| == 9
      && TwoInts(0, 2) in t && t[TwoInts(0, 2)] == 1
      && forall key | key in t && key != TwoInts(0, 2) :: t[key] == 0
  {
    var hits1: HitMap, hits2: HitMap := map["f1" := {0}], map["f1" := {2}];
    PairCountsPositive(hits1, hits2);
    forall key ensures ExpectedCount(hits1, hits2, key) == if key == TwoInts(0, 2) then 1 else 0 {
      if key == TwoInts(0, 2) {
        assert Support(hits1, hits2, Shared(hits1, hits2), key) == {"f1"};
      } else {
        assert Support(hits1, hits2, Shared(hits1, hits2), key) == {};
      }
    }
    assert PairCounts(hits1, hits2).Keys == {TwoInts(0, 2)};
    MatrixSize(PairCounts(hits1, hits2), 3, 3);
  }

  /** A fragment with two hits in stream one and three in stream two counts
      once for each of the six combinations, not once in all. */
  lemma MultiHitFragment()
    ensures var t := PairCounts(map["f" := {0, 1}], map["f" := {0, 1, 2}]);
      && |t| == 6
      && forall key | key in t :: t[key] == 1
  {
    var hits1: HitMap, hits2: HitMap := map["f" := {0, 1}], map["f" := {0, 1, 2}];
    FragmentContribution(hits1, hits2, "f");
    PairCountsPositive(hits1, hits2);
    forall key ensures ExpectedCount(hits1 - {"f"}, hits2, key) == 0 {
      assert Support(hits1 - {"f"}, hits2, Shared(hits1 - {"f"}, hits2), key) == {};
    }
    assert PairCounts(hits1, hits2).Keys == Cross({0, 1}, {0, 1, 2});
    assert |{0, 1}| == 2 && |{0, 1, 2}| == 3;
  }
}
