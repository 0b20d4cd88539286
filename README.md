# Guide-pair counting, modelled in Dafny

The tool reads two alignment streams of the same sequenced fragments (the
read-one and the read-two BAM file) and counts, for every combination of a
reference sequence of stream one with a reference sequence of stream two, how
many fragments hit that combination. It then completes the table so that the
expected combinations appear with an explicit count, possibly 0, and writes
one row per combination.

This project models the counting logic of `src/main/rust/main.rs`:

- `wrappers.dfy` (`Wrappers`): `Option` and `Result`, standing for the
  program's `expect`/`unwrap`/`assert!` stops.
- `bam_reading.dfy` (`BamReading`): a record reduced to read name, the
  unmapped and secondary flags, the lookup of the mismatch tag and the
  reference id; `too_many_hits` as `TooManyHits`; the record loop of
  `fast_read_bam` as the method `ReadHits`, proved equal to the
  specification fold `HitsOf`, whose meaning is proved in the `HitsFrom…`
  lemmas.
- `pair_counting.dfy` (`PairCounting`): the key struct `TwoInts`, the
  triple loop of `main` as `CountPairs` (its two inner loops as `AddCombinations`
  and `AddRow`), the expected count `ExpectedCount` (the number of read names
  present in both maps that hit both halves of a key) and the lemmas about it.
- `completion.dfy` (`Completion`): the zero-fill of matrix mode
  (`FillMatrix`, the `iproduct!` loop) and pair mode (`FillDiagonal`, the
  `zip` loop, after the length check), dispatched by `Complete`, all proved
  equal to the specification `Completed`; sizes and idempotence as lemmas.
- `pipeline.dfy` (`Pipeline`): `main`'s flow from two streams to the completed
  table (`Run`) and the resolution of keys to reference names for the output
  rows (`Rows`).
- `scenarios.dfy` (`Scenarios`): worked small cases.

Hash sets and hash maps iterate in an unspecified order; the loops pick their
next element with `:|`, so every proof holds for every order.

What the program does that a reader might not expect:

- The secondary-flag filter and the mismatch-tag filter are always applied;
  they are not optional.
- A considered record whose tag is absent, undecodable or not an integer stops
  the whole read (`unwrap` at main.rs:84); there is no skip-and-continue policy.
- In pair mode the length check of the two reference lists (main.rs:142) runs
  after the counting, not before it; only a progress line (main.rs:136) is
  printed in between, and nothing in between changes the table or the outcome.
- The output rows come in hash-map order, not sorted; `Rows` is a set. The
  source writes one line per key; the set has one row per key as well because
  the reference names of a header are the keys of a map and so are distinct
  (with repeated names two keys would share one row of the set).
- The matrix-mode bound of `|names1| * |names2|` keys holds only when every
  observed id lies in range (`MatrixSize` requires it).
- Only the unmapped and secondary flags are looked at; supplementary or
  duplicate records are counted like any other.

## Model

| member | source | states |
|---|---|---|
| `BamReading.TooManyHits` | src/main/rust/main.rs:45-68 | fails exactly when the tag is absent, cannot be decoded or is not an integer, with an error naming the read; otherwise, for a mapped primary record, says "too many" exactly when the record does not pass the threshold |
| `BamReading.HitsFromOutcome` | src/main/rust/main.rs:79-87 | reading succeeds exactly when no record stops it; otherwise it fails with the error of the first record that does (a mapped primary record with an unusable tag, or one that passes without a reference id); unmapped or secondary records never stop it |
| `BamReading.HitsFromContents` | src/main/rust/main.rs:84-85 | after a successful read a name maps to an id exactly when some mapped, primary record with at most the threshold of mismatches carries that name and id |
| `BamReading.HitsFromKeys` | src/main/rust/main.rs:84-85 | after a successful read a name is a key exactly when some accepted record carries it |
| `BamReading.HitsFromNoEmptySets` | src/main/rust/main.rs:85 | no name is ever mapped to an empty set |
| `BamReading.ReadHits` | src/main/rust/main.rs:79-87 | the loop computes `HitsOf`, and so succeeds exactly when no record stops it, fails with the first stopping record's error, and yields a map with no empty set whose pairs are exactly the accepted records' (name, id) |
| `PairCounting.PairCountsPositive` | src/main/rust/main.rs:125-133 | a key is in the specified table exactly when its expected count is positive, so every stored count is at least 1 |
| `PairCounting.CrossCardinality` | src/main/rust/main.rs:127-132 | sets of m and n ids give exactly m * n distinct keys |
| `PairCounting.FragmentContribution` | src/main/rust/main.rs:125-133 | a name present in both maps adds exactly 1 to each of the m * n keys of its cross product and nothing to any other key |
| `PairCounting.OneSidedFragment` | src/main/rust/main.rs:125 | a name present in only one map changes no expected count |
| `PairCounting.PairCountsInRange` | src/main/rust/main.rs:125-133 | when all ids of the hit maps are below the reference-list lengths, so are both ids of every counted key |
| `PairCounting.AddRow` | src/main/rust/main.rs:129-132 | adds exactly 1 to each key (a, b) with b in the second set, leaves every other count, and keeps every stored count at least 1 |
| `PairCounting.AddCombinations` | src/main/rust/main.rs:127-133 | adds exactly 1 to each key of the cross product of the two sets and leaves every other count |
| `PairCounting.CountPairs` | src/main/rust/main.rs:123-134 | the table holds a key exactly when its expected count (names in both maps hitting both halves) is positive, with that count, and equals `PairCounts` |
| `Completion.FillMatrix` | src/main/rust/main.rs:148-154 | keeps every key and count of the table, adds only keys inside the matrix with count 0, covers every (a, b) with a < n1 and b < n2, and equals `Completed` |
| `Completion.FillDiagonal` | src/main/rust/main.rs:143-146 | keeps every key and count of the table, adds only diagonal keys with count 0, covers every (i, i) with i < n, and equals `Completed` |
| `Completion.Complete` | src/main/rust/main.rs:140-154 | fails exactly in pair mode with lists of different lengths; otherwise completes the table over the keys the mode requires |
| `Completion.CompletedExtends` | src/main/rust/main.rs:145-152 | completion keeps every key/count pair, adds only required keys, with count 0, and covers every required key |
| `Completion.CompletedIdempotent` | src/main/rust/main.rs:145-152 | completing a completed table gives the same table |
| `Completion.MatrixSize` | src/main/rust/main.rs:150-153 | with every counted key inside the matrix, the completed table has exactly n1 * n2 keys |
| `Completion.PairedSize` | src/main/rust/main.rs:143-146 | in pair mode the completed table has n diagonal keys plus the observed off-diagonal keys |
| `Completion.CompletedInRange` | src/main/rust/main.rs:140-154 | completion adds no key outside the n1 by n2 matrix |
| `Pipeline.Run` | src/main/rust/main.rs:111-154 | a read error of stream one wins over one of stream two, which wins over a pair-mode length mismatch, reported as `PairModeMismatch` with both lengths; otherwise the result is the completed count table of the two hit maps over the mode's keys |
| `Pipeline.Rows` | src/main/rust/main.rs:164-169 | output succeeds exactly when every key's ids index into the two reference lists, and then its rows are exactly those built from each key's two reference names and its count |
| `Pipeline.HitIdsFromRecords` | src/main/rust/main.rs:85 | if every record's reference id is below n, every id in a successfully read hit map is below n |
| `Pipeline.RunRowsResolve` | src/main/rust/main.rs:164-167 | when every record's reference id has a header name, the output of a successful run never meets an unknown id |
| `Scenarios.FilterScenario` | src/main/rust/main.rs:84 | a record with too many mismatches, an unmapped one with no tag and a secondary one with a non-integer tag are all skipped without error |
| `Scenarios.MissingTagScenario` | src/main/rust/main.rs:61-66 | a mapped primary record without the tag stops the read with an error naming it |
| `Scenarios.SingleFragmentMatrix` | src/main/rust/main.rs:123-153 | one fragment hitting (0, 2), completed over 3 by 3 references, gives nine keys: (0, 2) with 1 and eight with 0 |
| `Scenarios.MultiHitFragment` | src/main/rust/main.rs:127-132 | a fragment with 2 and 3 hits gives six keys counted once each |

## Left out

- Decoding of BAM files with `noodles` (opening, header and reference-sequence
  parsing, the record iterator, flag and data accessors, main.rs:75-81): a
  stream is given as its list of reference names and a sequence of records
  already reduced to the fields the loop reads.
- Command-line parsing (main.rs:24-43, 94) and parsing of the tag name
  (main.rs:109): the configuration is a value, and each record carries the
  lookup of the configured tag.
- The capacity hint from the file sizes (main.rs:96-103): it changes no result.
- Progress and timing messages (main.rs:105-121, 136-156).
- Writing the TSV file with `csv`, its header line and the serialisation of
  rows (main.rs:158-169); only the resolution of ids to names is modelled.
- Conversion of read names from bytes to UTF-8 and the panic on invalid bytes:
  read names are strings.
- Rows: with ids modelled as naturals, the only way output can fail is an id
  past the end of its name list. The source then panics in the `Vec` index
  (main.rs:166-167) with the generic out-of-bounds message, which names no
  stream, and the rows already serialised for the keys met earlier in
  hash-map order have gone to the writer. The model reports one error for the
  whole table and no partial output, because which keys come first is
  unspecified. The `expect` on `usize::try_from` at those lines, whose message
  does name the stream, cannot fail on a natural id.
- Integer widths: counts are unbounded, where the source's counter is a 32-bit
  integer by type inference; the threshold is an unbounded natural where the
  source takes a `u32` widened to `i64`; tag integers are unbounded where the
  library yields an `i64`.
- The two inner loops of the pair count are separate methods (`AddRow`,
  `AddCombinations`) rather than nested inline, to keep each proof small.
