/** The pair-counting loop of `main` (main.rs:123-134): for every read name
    present in both hit maps, every combination of a reference id from the
    first map with one from the second is counted once. */
module PairCounting {
  import opened BamReading

  /** The key of the count table (`TwoInts`): a reference id of stream one
      and one of stream two, compared field by field. */
  datatype TwoInts = TwoInts(a: nat, b: nat)

  type CountTable = map<TwoInts, nat>

  /** The count of a key; a key that is absent counts 0. */
  function Count(table: CountTable, key: TwoInts): nat {
    if key in table then table[key] else 0
  }

  /** The read names among `names` that hit `key.a` in the first map and
      `key.b` in the second. */
  ghost function Support(hits1: HitMap, hits2: HitMap, names: set<string>, key: TwoInts): set<string> {
    set q | q in names && q in hits1 && q in hits2 && key.a in hits1[q] && key.b in hits2[q]
  }

  /** The read names present in both maps. */
  ghost function Shared(hits1: HitMap, hits2: HitMap): set<string> {
    hits1.Keys * hits2.Keys
  }

  /** How often a key should be counted: the number of read names present in
      both maps whose first set holds `key.a` and whose second holds `key.b`. */
  ghost function ExpectedCount(hits1: HitMap, hits2: HitMap, key: TwoInts): nat {
    |Support(hits1, hits2, Shared(hits1, hits2), key)|
  }

  /** All keys made of one id from each set. */
  ghost function Cross(s1: set<nat>, s2: set<nat>): set<TwoInts> {
    set a, b | a in s1 && b in s2 :: TwoInts(a, b)
  }

  /** The keys some read name present in both maps gives rise to. */
  ghost function ObservedPairs(hits1: HitMap, hits2: HitMap): set<TwoInts> {
    set q, a, b | q in hits1 && q in hits2 && a in hits1[q] && b in hits2[q] :: TwoInts(a, b)
  }

  /** The count table the loop should build: every observed key with its
      expected count. */
  ghost function PairCounts(hits1: HitMap, hits2: HitMap): CountTable {
    map key | key in ObservedPairs(hits1, hits2) :: ExpectedCount(hits1, hits2, key)
  }

  /** A key is observed exactly when it should be counted at least once, so
      the table holds no zero counts. */
  lemma PairCountsPositive(hits1: HitMap, hits2: HitMap)
    ensures forall key :: key in PairCounts(hits1, hits2) <==> ExpectedCount(hits1, hits2, key) > 0
    ensures forall key | key in PairCounts(hits1, hits2) :: PairCounts(hits1, hits2)[key] >= 1
  {
    forall key ensures key in ObservedPairs(hits1, hits2) <==> ExpectedCount(hits1, hits2, key) > 0 {
      var support := Support(hits1, hits2, Shared(hits1, hits2), key);
      if key in ObservedPairs(hits1, hits2) {
        var q, a, b :| q in hits1 && q in hits2 && a in hits1[q] && b in hits2[q] && key == TwoInts(a, b);
        assert q in support;
      }
      if |support| > 0 {
        var q :| q in support;
        assert key == TwoInts(key.a, key.b);
      }
    }
  }

  /** A key is in the cross product of two sets exactly when its halves are. */
  lemma InCross(s1: set<nat>, s2: set<nat>)
    ensures forall key :: key in Cross(s1, s2) <==> key.a in s1 && key.b in s2
  {
  }

  /** The keys pairing the id `a` with every id of a set. */
  ghost function KeysWith(a: nat, s2: set<nat>): set<TwoInts> {
    set b | b in s2 :: TwoInts(a, b)
  }

  lemma {:induction false} KeysWithCardinality(a: nat, s2: set<nat>)
    ensures |KeysWith(a, s2)| == |s2|
    decreases s2
  {
    if s2 != {} {
      var b :| b in s2;
      KeysWithCardinality(a, s2 - {b});
      assert KeysWith(a, s2) == KeysWith(a, s2 - {b}) + {TwoInts(a, b)};
    } else {
      assert KeysWith(a, s2) == {};
    }
  }

  /** Taking one id out of the first set splits its cross product into the
      rest's cross product and the keys of that id. */
  lemma CrossSplit(s1: set<nat>, s2: set<nat>, a: nat)
    requires a in s1
    ensures Cross(s1, s2) == Cross(s1 - {a}, s2) + KeysWith(a, s2)
    ensures Cross(s1 - {a}, s2) !! KeysWith(a, s2)
  {
  }

  lemma DisjointUnionSize(x: set<TwoInts>, y: set<TwoInts>)
    requires x !! y
    ensures |x + y| == |x| + |y|
  {
  }

  lemma SuccTimes(m: nat, n: nat)
    ensures (m + 1) * n == m * n + n
  {
  }

  /** Two sets of m and n ids give m * n distinct keys. */
  lemma {:induction false} CrossCardinality(s1: set<nat>, s2: set<nat>)
    ensures |Cross(s1, s2)| == |s1| * |s2|
    decreases s1
  {
    if s1 != {} {
      var a :| a in s1;
      var rest := s1 - {a};
      CrossCardinality(rest, s2);
      KeysWithCardinality(a, s2);
      CrossSplit(s1, s2, a);
      DisjointUnionSize(Cross(rest, s2), KeysWith(a, s2));
      SuccTimes(|rest|, |s2|);
      assert |s1| == |rest| + 1;
    } else {
      InCross(s1, s2);
      assert Cross(s1, s2) == {};
    }
  }

  /** A read name present in both maps adds exactly one to the count of each
      of the |hits1[q]| * |hits2[q]| keys of its cross product, and nothing
      to any other key. */
  lemma FragmentContribution(hits1: HitMap, hits2: HitMap, q: string)
    requires q in hits1 && q in hits2
    ensures forall key :: (ExpectedCount(hits1, hits2, key) ==
      ExpectedCount(hits1 - {q}, hits2, key) + (if key in Cross(hits1[q], hits2[q]) then 1 else 0))
    ensures |Cross(hits1[q], hits2[q])| == |hits1[q]| * |hits2[q]|
  {
    CrossCardinality(hits1[q], hits2[q]);
    InCross(hits1[q], hits2[q]);
    var rest := hits1 - {q};
    forall key ensures ExpectedCount(hits1, hits2, key) ==
      ExpectedCount(rest, hits2, key) + (if key in Cross(hits1[q], hits2[q]) then 1 else 0)
    {
      var without := Support(rest, hits2, Shared(rest, hits2), key);
      if key.a in hits1[q] && key.b in hits2[q] {
        assert Support(hits1, hits2, Shared(hits1, hits2), key) == without + {q};
      } else {
        assert Support(hits1, hits2, Shared(hits1, hits2), key) == without;
      }
    }
  }

  /** A read name present in only one of the maps contributes nothing:
      dropping it from both leaves every expected count as it was. */
  lemma OneSidedFragment(hits1: HitMap, hits2: HitMap, q: string)
    requires q !in hits1 || q !in hits2
    ensures forall key :: ExpectedCount(hits1, hits2, key) == ExpectedCount(hits1 - {q}, hits2 - {q}, key)
  {
    forall key ensures ExpectedCount(hits1, hits2, key) == ExpectedCount(hits1 - {q}, hits2 - {q}, key) {
      assert Support(hits1, hits2, Shared(hits1, hits2), key)
        == Support(hits1 - {q}, hits2 - {q}, Shared(hits1 - {q}, hits2 - {q}), key);
    }
  }

  /** When every id in the hit maps indexes its stream's reference list,
      every counted key does too. */
  lemma PairCountsInRange(hits1: HitMap, hits2: HitMap, n1: nat, n2: nat)
    requires forall q, id | q in hits1 && id in hits1[q] :: id < n1
    requires forall q, id | q in hits2 && id in hits2[q] :: id < n2
    ensures forall key | key in PairCounts(hits1, hits2) :: key.a < n1 && key.b < n2
  {
  }

  /** Adding one read name to the names already looked at raises a key's
      support by one exactly when that name hits both halves of the key. */
  lemma SupportGrows(hits1: HitMap, hits2: HitMap, names: set<string>, q: string, key: TwoInts)
    requires q !in names && q in hits1 && q in hits2
    ensures |Support(hits1, hits2, names + {q}, key)| ==
      |Support(hits1, hits2, names, key)| + (if key.a in hits1[q] && key.b in hits2[q] then 1 else 0)
  {
    var before := Support(hits1, hits2, names, key);
    if key.a in hits1[q] && key.b in hits2[q] {
      assert Support(hits1, hits2, names + {q}, key) == before + {q};
    } else {
      assert Support(hits1, hits2, names + {q}, key) == before;
    }
  }

  /** The innermost loop of main.rs:129-132: one increment per id of the
      second set, paired with the id `a` of the first. */
  method AddRow(counts: CountTable, a: nat, ids2: set<nat>) returns (r: CountTable)
    requires forall key | key in counts :: counts[key] >= 1
    ensures forall key :: Count(r, key) == Count(counts, key) + (if key.a == a && key.b in ids2 then 1 else 0)
    ensures forall key | key in r :: r[key] >= 1
  {
    r := counts;
    var todo := ids2;
    ghost var done: set<nat> := {};
    while todo != {}
      invariant todo + done == ids2 && todo !! done
      invariant forall key :: Count(r, key) == Count(counts, key) + (if key.a == a && key.b in done then 1 else 0)
      invariant forall key | key in r :: r[key] >= 1
      decreases todo
    {
      var b :| b in todo;
      var key := TwoInts(a, b);
      r := r[key := Count(r, key) + 1];
      todo, done := todo - {b}, done + {b};
    }
  }

  /** The two inner loops of main.rs:127-133 for one read name: one increment
      per combination of an id of its first set with an id of its second. */
  method AddCombinations(counts: CountTable, ids1: set<nat>, ids2: set<nat>) returns (r: CountTable)
    requires forall key | key in counts :: counts[key] >= 1
    ensures forall key :: Count(r, key) == Count(counts, key) + (if key in Cross(ids1, ids2) then 1 else 0)
    ensures forall key | key in r :: r[key] >= 1
  {
    r := counts;
    var todo := ids1;
    ghost var done: set<nat> := {};
    while todo != {}
      invariant todo + done == ids1 && todo !! done
      invariant forall key :: Count(r, key) == Count(counts, key) + (if key.a in done && key.b in ids2 then 1 else 0)
      invariant forall key | key in r :: r[key] >= 1
      decreases todo
    {
      var a :| a in todo;
      r := AddRow(r, a, ids2);
      todo, done := todo - {a}, done + {a};
    }
    InCross(ids1, ids2);
  }

  /** The pair-counting loop of main.rs:123-134. The read names are visited in
      an unspecified order, as a hash set iterates; the result does not depend
      on it. */
  method CountPairs(hits1: HitMap, hits2: HitMap) returns (counts: CountTable)
    ensures counts == PairCounts(hits1, hits2)
    ensures forall key :: key in counts <==> ExpectedCount(hits1, hits2, key) > 0
    ensures forall key | key in counts :: counts[key] == ExpectedCount(hits1, hits2, key) && counts[key] >= 1
  {
    var shared := hits1.Keys * hits2.Keys;
    var todo := shared;
    ghost var done: set<string> := {};
    counts := map[];
    while todo != {}
      invariant todo + done == shared && todo !! done
      invariant forall key :: Count(counts, key) == |Support(hits1, hits2, done, key)|
      invariant forall key | key in counts :: counts[key] >= 1
      decreases todo
    {
      var q :| q in todo;
      ghost var before := counts;
      counts := AddCombinations(counts, hits1[q], hits2[q]);
      CountsGrow(before, counts, hits1, hits2, done, q);
      todo, done := todo - {q}, done + {q};
    }
    assert done == Shared(hits1, hits2);
    TableOfCounts(counts, hits1, hits2);
  }

  /** Counting the combinations of one more read name keeps the counts equal
      to the supports of the names looked at. */
  lemma CountsGrow(before: CountTable, after: CountTable, hits1: HitMap, hits2: HitMap, done: set<string>, q: string)
    requires q !in done && q in hits1 && q in hits2
    requires forall key :: Count(before, key) == |Support(hits1, hits2, done, key)|
    requires forall key :: Count(after, key) == Count(before, key) + (if key in Cross(hits1[q], hits2[q]) then 1 else 0)
    ensures forall key :: Count(after, key) == |Support(hits1, hits2, done + {q}, key)|
  {
    InCross(hits1[q], hits2[q]);
    forall key ensures Count(after, key) == |Support(hits1, hits2, done + {q}, key)| {
      SupportGrows(hits1, hits2, done, q, key);
    }
  }

  /** A table whose every count is the expected one, and which stores no
      zero, is the specified table. */
  lemma TableOfCounts(counts: CountTable, hits1: HitMap, hits2: HitMap)
    requires forall key :: Count(counts, key) == ExpectedCount(hits1, hits2, key)
    requires forall key | key in counts :: counts[key] >= 1
    ensures counts == PairCounts(hits1, hits2)
    ensures forall key :: key in counts <==> ExpectedCount(hits1, hits2, key) > 0
    ensures forall key | key in counts :: counts[key] == ExpectedCount(hits1, hits2, key)
  {
    PairCountsPositive(hits1, hits2);
    forall key ensures key in counts <==> key in PairCounts(hits1, hits2) {
      assert Count(counts, key) == ExpectedCount(hits1, hits2, key);
    }
  }
}
