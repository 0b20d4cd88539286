/** The completion step of `main` (main.rs:140-154): after counting, the
    keys every output must show are added with count 0 when absent, either
    for the whole matrix of reference ids or for its diagonal only. Counts
    already present are never changed (`or_insert(0)`). */
module Completion {
  import opened Wrappers
  import opened PairCounting

  /** Matrix mode, the default, or pair mode (the `--pair` flag). */
  datatype Mode = Matrix | Paired

  datatype CompletionError = PanelSizeMismatch(n1: nat, n2: nat)

  /** The ids 0 .. n-1. */
  ghost function Range(n: nat): set<nat> {
    if n == 0 then {} else Range(n - 1) + {n - 1}
  }

  lemma {:induction false} InRange(n: nat)
    ensures forall i: nat :: i in Range(n) <==> i < n
    ensures |Range(n)| == n
  {
    if n > 0 {
      var smaller := Range(n - 1);
      InRange(n - 1);
      assert Range(n) == smaller + {n - 1};
      forall i: nat ensures i in Range(n) <==> i < n {
        assert i in smaller <==> i < n - 1;
      }
    } else {
      assert Range(n) == {};
    }
  }

  /** Every key (a, b) with a < n1 and b < n2. */
  ghost function MatrixKeys(n1: nat, n2: nat): set<TwoInts> {
    Cross(Range(n1), Range(n2))
  }

  /** Every key (i, i) with i < n. */
  ghost function DiagonalKeys(n: nat): set<TwoInts> {
    set i: nat | i < n :: TwoInts(i, i)
  }

  /** The keys a completed table must hold in each mode. */
  ghost function RequiredKeys(mode: Mode, n1: nat, n2: nat): set<TwoInts> {
    match mode
    case Matrix => MatrixKeys(n1, n2)
    case Paired => DiagonalKeys(n1)
  }

  /** The table with each key of `keys` it lacks added with count 0. */
  ghost function Completed(table: CountTable, keys: set<TwoInts>): CountTable {
    map key | key in table.Keys + keys :: Count(table, key)
  }

  lemma InMatrix(n1: nat, n2: nat)
    ensures forall key :: key in MatrixKeys(n1, n2) <==> key.a < n1 && key.b < n2
  {
    InCross(Range(n1), Range(n2));
    InRange(n1);
    InRange(n2);
  }

  /** The `iproduct!` loop of main.rs:150-153 over every id of stream one and
      every id of stream two. */
  method FillMatrix(table: CountTable, n1: nat, n2: nat) returns (r: CountTable)
    ensures r == Completed(table, MatrixKeys(n1, n2))
    ensures forall key | key in table :: key in r && r[key] == table[key]
    ensures forall key | key in r && key !in table :: r[key] == 0 && key.a < n1 && key.b < n2
    ensures forall a: nat, b: nat | a < n1 && b < n2 :: TwoInts(a, b) in r
  {
    r := table;
    for a := 0 to n1
      invariant forall key | key in table :: key in r && r[key] == table[key]
      invariant forall key | key in r && key !in table :: r[key] == 0 && key.a < a && key.b < n2
      invariant forall a': nat, b': nat | a' < a && b' < n2 :: TwoInts(a', b') in r
    {
      for b := 0 to n2
        invariant forall key | key in table :: key in r && r[key] == table[key]
        invariant forall key | key in r && key !in table ::
          r[key] == 0 && ((key.a < a && key.b < n2) || (key.a == a && key.b < b))
        invariant forall a': nat, b': nat | (a' < a && b' < n2) || (a' == a && b' < b) :: TwoInts(a', b') in r
      {
        var key := TwoInts(a, b);
        if key !in r {
          r := r[key := 0];
        }
      }
    }
    InMatrix(n1, n2);
    assert r.Keys == table.Keys + MatrixKeys(n1, n2) by {
      forall key | key in MatrixKeys(n1, n2) ensures key in r {
        assert key == TwoInts(key.a, key.b);
      }
    }
  }

  /** The `zip` loop of main.rs:143-146 over the ids 0 .. n-1 of both streams. */
  method FillDiagonal(table: CountTable, n: nat) returns (r: CountTable)
    ensures r == Completed(table, DiagonalKeys(n))
    ensures forall key | key in table :: key in r && r[key] == table[key]
    ensures forall key | key in r && key !in table :: r[key] == 0 && key.a == key.b < n
    ensures forall i: nat | i < n :: TwoInts(i, i) in r
  {
    r := table;
    for i := 0 to n
      invariant forall key | key in table :: key in r && r[key] == table[key]
      invariant forall key | key in r && key !in table :: r[key] == 0 && key.a == key.b < i
      invariant forall j: nat | j < i :: TwoInts(j, j) in r
    {
      var key := TwoInts(i, i);
      if key !in r {
        r := r[key := 0];
      }
    }
    assert r.Keys == table.Keys + DiagonalKeys(n);
  }

  /** The completion of main.rs:140-154. Pair mode needs the two reference
      lists to have the same length (the `assert!` of main.rs:142). */
  method Complete(table: CountTable, mode: Mode, n1: nat, n2: nat) returns (r: Result<CountTable, CompletionError>)
    ensures r.Failure? <==> mode == Paired && n1 != n2
    ensures r.Failure? ==> r.error == PanelSizeMismatch(n1, n2)
    ensures r.Success? ==> r.value == Completed(table, RequiredKeys(mode, n1, n2))
  {
    if mode == Paired {
      if n1 != n2 {
        return Failure(PanelSizeMismatch(n1, n2));
      }
      var filled := FillDiagonal(table, n1);
      return Success(filled);
    } else {
      var filled := FillMatrix(table, n1, n2);
      return Success(filled);
    }
  }

  /** Completion only adds keys, with count 0: every key and count of the
      table is kept, and every required key is present afterwards. */
  lemma CompletedExtends(table: CountTable, keys: set<TwoInts>)
    ensures forall key | key in table :: key in Completed(table, keys) && Completed(table, keys)[key] == table[key]
    ensures forall key | key in Completed(table, keys) && key !in table :: key in keys && Completed(table, keys)[key] == 0
    ensures forall key | key in keys :: key in Completed(table, keys)
  {
  }

  /** Completing a completed table changes nothing. */
  lemma CompletedIdempotent(table: CountTable, keys: set<TwoInts>)
    ensures Completed(Completed(table, keys), keys) == Completed(table, keys)
  {
  }

  lemma {:induction false} DiagonalCardinality(n: nat)
    ensures |DiagonalKeys(n)| == n
  {
    if n > 0 {
      DiagonalCardinality(n - 1);
      assert DiagonalKeys(n) == DiagonalKeys(n - 1) + {TwoInts(n - 1, n - 1)};
    } else {
      assert DiagonalKeys(n) == {};
    }
  }

  /** In matrix mode, when every counted key lies inside the matrix, the
      completed table has exactly n1 * n2 keys. */
  lemma MatrixSize(table: CountTable, n1: nat, n2: nat)
    requires forall key | key in table :: key.a < n1 && key.b < n2
    ensures |Completed(table, MatrixKeys(n1, n2))| == n1 * n2
  {
    InMatrix(n1, n2);
    assert Completed(table, MatrixKeys(n1, n2)).Keys == MatrixKeys(n1, n2);
    CrossCardinality(Range(n1), Range(n2));
    InRange(n1);
    InRange(n2);
  }

  /** In pair mode the completed table has the n diagonal keys plus the
      observed keys off the diagonal. */
  lemma PairedSize(table: CountTable, n: nat)
    ensures |Completed(table, DiagonalKeys(n))| == n + |table.Keys - DiagonalKeys(n)|
  {
    assert Completed(table, DiagonalKeys(n)).Keys == DiagonalKeys(n) + (table.Keys - DiagonalKeys(n));
    DiagonalCardinality(n);
  }

  /** Completion keeps every key inside the n1 by n2 matrix when the counted
      table already was (in pair mode the two lengths agree). */
  lemma CompletedInRange(table: CountTable, mode: Mode, n1: nat, n2: nat)
    requires mode == Paired ==> n1 == n2
    requires forall key | key in table :: key.a < n1 && key.b < n2
    ensures forall key | key in Completed(table, RequiredKeys(mode, n1, n2)) :: key.a < n1 && key.b < n2
  {
    InMatrix(n1, n2);
  }
}
