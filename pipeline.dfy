/** The flow of `main`: read both streams, count the pairs, complete the
    table, and resolve every key to reference names for the output rows. */
module Pipeline {
  import opened Wrappers
  import opened BamReading
  import opened PairCounting
  import opened Completion

  /** The settings that change the counts: `--pair` and `--n-mismatch`. The
      tag name is folded into the records, each of which carries the lookup
      of the configured tag. */
  datatype Config = Config(pair: bool, nMismatch: nat)

  /** One input stream: the reference names of its header, in order, and its
      records. */
  datatype Bam = Bam(referenceNames: seq<string>, records: seq<Record>)

  datatype RunError =
    | ReadOneFailed(readError: ReadError)
    | ReadTwoFailed(readError: ReadError)
    | PairModeMismatch(completionError: CompletionError)

  /** One output line: sample name, the two reference names and the count. */
  datatype Row = Row(sampleName: string, r1Hit: string, r2Hit: string, count: nat)

  datatype EmitError = UnknownReferenceId

  function ModeOf(config: Config): Mode {
    if config.pair then Paired else Matrix
  }

  /** The counting of `main` from the two streams to the completed table. The
      first stream is read completely before the second. */
  method Run(config: Config, bam1: Bam, bam2: Bam) returns (r: Result<CountTable, RunError>)
    ensures HitsOf(bam1.records, config.nMismatch).Failure? ==>
      r == Failure(ReadOneFailed(HitsOf(bam1.records, config.nMismatch).error))
    ensures HitsOf(bam1.records, config.nMismatch).Success? && HitsOf(bam2.records, config.nMismatch).Failure? ==>
      r == Failure(ReadTwoFailed(HitsOf(bam2.records, config.nMismatch).error))
    ensures r.Success? <==>
      && HitsOf(bam1.records, config.nMismatch).Success?
      && HitsOf(bam2.records, config.nMismatch).Success?
      && (config.pair ==> |bam1.referenceNames| == |bam2.referenceNames|)
    ensures r.Success? ==> r.value == Completed(
      PairCounts(HitsOf(bam1.records, config.nMismatch).value, HitsOf(bam2.records, config.nMismatch).value),
      RequiredKeys(ModeOf(config), |bam1.referenceNames|, |bam2.referenceNames|))
    ensures && HitsOf(bam1.records, config.nMismatch).Success?
            && HitsOf(bam2.records, config.nMismatch).Success?
            && config.pair && |bam1.referenceNames| != |bam2.referenceNames| ==>
      r == Failure(PairModeMismatch(PanelSizeMismatch(|bam1.referenceNames|, |bam2.referenceNames|)))
    ensures r.Failure? && r.error.PairModeMismatch? ==>
      r.error.completionError == PanelSizeMismatch(|bam1.referenceNames|, |bam2.referenceNames|)
  {
    var read1 := ReadHits(bam1.records, config.nMismatch);
    if read1.Failure? {
      return Failure(ReadOneFailed(read1.error));
    }
    var read2 := ReadHits(bam2.records, config.nMismatch);
    if read2.Failure? {
      return Failure(ReadTwoFailed(read2.error));
    }
    var counts := CountPairs(read1.value, read2.value);
    var completed := Complete(counts, ModeOf(config), |bam1.referenceNames|, |bam2.referenceNames|);
    if completed.Failure? {
      return Failure(PairModeMismatch(completed.error));
    }
    return Success(completed.value);
  }

  /** The output rows of main.rs:164-169, as a set since a hash map iterates
      in no fixed order. A key whose id has no reference name stops the
      output. */
  function Rows(sampleName: string, table: CountTable, names1: seq<string>, names2: seq<string>)
    : (r: Result<set<Row>, EmitError>)
    ensures r.Success? <==> forall key | key in table :: key.a < |names1| && key.b < |names2|
    ensures r.Success? ==> forall key | key in table ::
      Row(sampleName, names1[key.a], names2[key.b], table[key]) in r.value
    ensures r.Success? ==> forall row | row in r.value ::
      exists key | key in table && key.a < |names1| && key.b < |names2| ::
        row == Row(sampleName, names1[key.a], names2[key.b], table[key])
  {
    if forall key | key in table :: key.a < |names1| && key.b < |names2| then
      Success(set key | key in table :: Row(sampleName, names1[key.a], names2[key.b], table[key]))
    else
      Failure(UnknownReferenceId)
  }

  /** Every id a successful read puts in the hit map is the reference id of
      one of the stream's records. */
  lemma HitIdsFromRecords(records: seq<Record>, nMismatch: int, n: nat)
    requires forall rec | rec in records && rec.referenceId.Some? :: rec.referenceId.value < n
    ensures HitsOf(records, nMismatch).Success? ==>
      forall q, id | q in HitsOf(records, nMismatch).value && id in HitsOf(records, nMismatch).value[q] :: id < n
  {
    HitsFromContents(records, map[], nMismatch);
    if HitsOf(records, nMismatch).Success? {
      var m := HitsOf(records, nMismatch).value;
      forall q, id | q in m && id in m[q] ensures id < n {
        assert Contributes(records, nMismatch, q, id);
        var rec :| rec in records && Passes(rec, nMismatch) && rec.readName == q && rec.referenceId == Some(id);
      }
    }
  }

  /** When every record's reference id has a name in its stream's header, a
      successful run yields a table whose every key resolves to names, so the
      output never stops on an unknown id. */
  lemma RunRowsResolve(config: Config, bam1: Bam, bam2: Bam, sampleName: string)
    requires forall rec | rec in bam1.records && rec.referenceId.Some? :: rec.referenceId.value < |bam1.referenceNames|
    requires forall rec | rec in bam2.records && rec.referenceId.Some? :: rec.referenceId.value < |bam2.referenceNames|
    requires HitsOf(bam1.records, config.nMismatch).Success? && HitsOf(bam2.records, config.nMismatch).Success?
    requires config.pair ==> |bam1.referenceNames| == |bam2.referenceNames|
    ensures Rows(sampleName,
      Completed(
        PairCounts(HitsOf(bam1.records, config.nMismatch).value, HitsOf(bam2.records, config.nMismatch).value),
        RequiredKeys(ModeOf(config), |bam1.referenceNames|, |bam2.referenceNames|)),
      bam1.referenceNames, bam2.referenceNames).Success?
  {
    var n1, n2 := |bam1.referenceNames|, |bam2.referenceNames|;
    var hits1 := HitsOf(bam1.records, config.nMismatch).value;
    var hits2 := HitsOf(bam2.records, config.nMismatch).value;
    HitIdsFromRecords(bam1.records, config.nMismatch, n1);
    HitIdsFromRecords(bam2.records, config.nMismatch, n2);
    PairCountsInRange(hits1, hits2, n1, n2);
    CompletedInRange(PairCounts(hits1, hits2), ModeOf(config), n1, n2);
  }
}
