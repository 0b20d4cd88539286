/** The record filter and the hit-map builder of the counting tool
    (`too_many_hits` and the record loop of `fast_read_bam` in main.rs).
    An alignment record is reduced to the fields the loop looks at; the
    decoding of the alignment file itself is not part of this model. */
module BamReading {
  import opened Wrappers

  /** What the data field of the configured mismatch tag holds: an integer
      (any of the integer types the format allows), or something else. */
  datatype TagValue = IntValue(i: int) | OtherValue

  /** Looking the mismatch tag up in a record's data: no such field, a field
      that could not be decoded, or a decoded field. */
  datatype TagLookup = Absent | Unreadable | Present(value: TagValue)

  /** One alignment record, as far as the counting is concerned. */
  datatype Record = Record(
    readName: string,
    unmapped: bool,
    secondary: bool,
    mismatchTag: TagLookup,
    referenceId: Option<nat>)

  /** The reasons reading a stream stops; each names the offending read. */
  datatype ReadError =
    | TagMissing(readName: string)
    | TagLookupFailed(readName: string)
    | TagNotInteger(readName: string)
    | NoReferenceId(readName: string)

  /** Read name to the set of reference ids its accepted records hit. */
  type HitMap = map<string, set<nat>>

  /** The record is mapped and primary: only then is its tag looked at. */
  predicate Considered(record: Record) {
    !record.unmapped && !record.secondary
  }

  /** The record passes the filter: mapped, primary, and its mismatch tag
      holds an integer no larger than the threshold. */
  ghost predicate Passes(record: Record, nMismatch: int) {
    && Considered(record)
    && record.mismatchTag.Present?
    && record.mismatchTag.value.IntValue?
    && record.mismatchTag.value.i <= nMismatch
  }

  /** The record stops the read: it is considered, and either its tag cannot
      be used as an integer or it passes without a reference id. */
  ghost predicate Aborts(record: Record, nMismatch: int) {
    && Considered(record)
    && (|| !(record.mismatchTag.Present? && record.mismatchTag.value.IntValue?)
        || (Passes(record, nMismatch) && record.referenceId.None?))
  }

  /** The error a record that stops the read is reported with. */
  ghost function AbortError(record: Record): ReadError {
    match record.mismatchTag
    case Absent => TagMissing(record.readName)
    case Unreadable => TagLookupFailed(record.readName)
    case Present(v) => if v.IntValue? then NoReferenceId(record.readName) else TagNotInteger(record.readName)
  }

  /** `too_many_hits`: is the record's mismatch count above the threshold?
      Fails when the tag is absent, cannot be decoded, or is not an integer. */
  function TooManyHits(record: Record, nMismatch: int): (r: Result<bool, ReadError>)
    ensures r.Failure? <==> !(record.mismatchTag.Present? && record.mismatchTag.value.IntValue?)
    ensures r.Failure? ==> r.error == AbortError(record) && r.error.readName == record.readName
    ensures r.Success? && Considered(record) ==> (r.value <==> !Passes(record, nMismatch))
  {
    match record.mismatchTag
    case Present(v) =>
      if v.IntValue? then Success(v.i > nMismatch) else Failure(TagNotInteger(record.readName))
    case Unreadable => Failure(TagLookupFailed(record.readName))
    case Absent => Failure(TagMissing(record.readName))
  }

  /** The reference ids recorded so far for a read name (none if it is absent). */
  function IdsOf(hits: HitMap, name: string): set<nat> {
    if name in hits then hits[name] else {}
  }

  /** What one record does to the hit map: stop the read, add its reference
      id to its read name's set, or nothing. */
  ghost function Accept(hits: HitMap, record: Record, nMismatch: int): Result<HitMap, ReadError> {
    if Aborts(record, nMismatch) then Failure(AbortError(record))
    else if Passes(record, nMismatch) then
      Success(hits[record.readName := IdsOf(hits, record.readName) + {record.referenceId.value}])
    else Success(hits)
  }

  /** The records, in order, applied to a hit map. */
  ghost function HitsFrom(records: seq<Record>, hits: HitMap, nMismatch: int): Result<HitMap, ReadError>
    decreases |records|
  {
    if records == [] then Success(hits)
    else match Accept(hits, records[0], nMismatch)
      case Failure(e) => Failure(e)
      case Success(next) => HitsFrom(records[1..], next, nMismatch)
  }

  /** The hit map of a whole stream, starting from an empty map. */
  ghost function HitsOf(records: seq<Record>, nMismatch: int): Result<HitMap, ReadError> {
    HitsFrom(records, map[], nMismatch)
  }

  /** Some accepted record of the stream has this read name and reference id. */
  ghost predicate Contributes(records: seq<Record>, nMismatch: int, name: string, id: nat) {
    exists r | r in records :: Passes(r, nMismatch) && r.readName == name && r.referenceId == Some(id)
  }

  /** Some accepted record of the stream has this read name. */
  ghost predicate Named(records: seq<Record>, nMismatch: int, name: string) {
    exists r | r in records :: Passes(r, nMismatch) && r.readName == name
  }

  /** The record at index i is the first one that stops the read. */
  ghost predicate FirstAbort(records: seq<Record>, nMismatch: int, i: int) {
    && 0 <= i < |records|
    && Aborts(records[i], nMismatch)
    && forall j | 0 <= j < i :: !Aborts(records[j], nMismatch)
  }

  /** No read name is mapped to an empty set. */
  ghost predicate NoEmptySets(hits: HitMap) {
    forall name | name in hits :: hits[name] != {}
  }

  /** Reading succeeds exactly when no record stops it; otherwise it fails
      with the error of the first record that does. */
  lemma {:induction false} HitsFromOutcome(records: seq<Record>, hits: HitMap, nMismatch: int)
    ensures HitsFrom(records, hits, nMismatch).Success? <==> forall r | r in records :: !Aborts(r, nMismatch)
    ensures HitsFrom(records, hits, nMismatch).Failure? ==>
      exists i :: FirstAbort(records, nMismatch, i) && HitsFrom(records, hits, nMismatch).error == AbortError(records[i])
    decreases |records|
  {
    if records != [] {
      assert records == [records[0]] + records[1..];
      if Aborts(records[0], nMismatch) {
        assert FirstAbort(records, nMismatch, 0);
      } else {
        var next := Accept(hits, records[0], nMismatch).value;
        HitsFromOutcome(records[1..], next, nMismatch);
        if HitsFrom(records, hits, nMismatch).Failure? {
          var i :| FirstAbort(records[1..], nMismatch, i) && HitsFrom(records[1..], next, nMismatch).error == AbortError(records[1..][i]);
          assert FirstAbort(records, nMismatch, i + 1) by {
            forall j | 0 <= j < i + 1 ensures !Aborts(records[j], nMismatch) {
              if j > 0 { assert records[j] == records[1..][j - 1]; }
            }
          }
        }
      }
    }
  }

  /** After a successful read, a read name maps to a reference id exactly when
      it already did or some accepted record of the stream carries both. */
  lemma {:induction false} HitsFromContents(records: seq<Record>, hits: HitMap, nMismatch: int)
    ensures HitsFrom(records, hits, nMismatch).Success? ==>
      var m := HitsFrom(records, hits, nMismatch).value;
      forall name, id :: (name in m && id in m[name]) <==>
        (name in hits && id in hits[name]) || Contributes(records, nMismatch, name, id)
    decreases |records|
  {
    if records != [] && !Aborts(records[0], nMismatch) {
      assert records == [records[0]] + records[1..];
      var next := Accept(hits, records[0], nMismatch).value;
      HitsFromContents(records[1..], next, nMismatch);
      AcceptContents(hits, records[0], nMismatch);
      ContributesFirst(records, nMismatch);
    }
  }

  /** One accepted record adds exactly its own name and id. */
  lemma AcceptContents(hits: HitMap, record: Record, nMismatch: int)
    requires !Aborts(record, nMismatch)
    ensures var next := Accept(hits, record, nMismatch).value;
      forall name, id: nat :: (name in next && id in next[name]) <==>
        (name in hits && id in hits[name])
        || (Passes(record, nMismatch) && record.readName == name && record.referenceId == Some(id))
  {
  }

  /** A (name, id) is contributed by a stream exactly when it is by its first
      record or by the rest. */
  lemma ContributesFirst(records: seq<Record>, nMismatch: int)
    requires records != []
    ensures forall name, id: nat :: Contributes(records, nMismatch, name, id) <==>
      (Passes(records[0], nMismatch) && records[0].readName == name && records[0].referenceId == Some(id))
      || Contributes(records[1..], nMismatch, name, id)
  {
  }

  /** After a successful read, a read name is a key exactly when it already
      was or some accepted record of the stream carries it. */
  lemma {:induction false} HitsFromKeys(records: seq<Record>, hits: HitMap, nMismatch: int)
    ensures HitsFrom(records, hits, nMismatch).Success? ==>
      var m := HitsFrom(records, hits, nMismatch).value;
      forall name :: name in m <==> name in hits || Named(records, nMismatch, name)
    decreases |records|
  {
    if records != [] && !Aborts(records[0], nMismatch) {
      assert records == [records[0]] + records[1..];
      var next := Accept(hits, records[0], nMismatch).value;
      HitsFromKeys(records[1..], next, nMismatch);
    }
  }

  /** Reading never maps a read name to an empty set: an entry is created
      only together with the insertion of a reference id. */
  lemma {:induction false} HitsFromNoEmptySets(records: seq<Record>, hits: HitMap, nMismatch: int)
    requires NoEmptySets(hits)
    ensures HitsFrom(records, hits, nMismatch).Success? ==> NoEmptySets(HitsFrom(records, hits, nMismatch).value)
    decreases |records|
  {
    if records != [] && !Aborts(records[0], nMismatch) {
      HitsFromNoEmptySets(records[1..], Accept(hits, records[0], nMismatch).value, nMismatch);
    }
  }

  /** The record loop of `fast_read_bam`: folds the stream's records into a
      hit map, stopping at the first record whose tag cannot be used or that
      passes the filter without a reference id. */
  method ReadHits(records: seq<Record>, nMismatch: int) returns (r: Result<HitMap, ReadError>)
    ensures r == HitsOf(records, nMismatch)
    ensures r.Success? <==> forall rec | rec in records :: !Aborts(rec, nMismatch)
    ensures r.Failure? ==> exists i :: FirstAbort(records, nMismatch, i) && r.error == AbortError(records[i])
    ensures r.Success? ==> NoEmptySets(r.value)
    ensures r.Success? ==> forall name, id ::
      (name in r.value && id in r.value[name]) <==> Contributes(records, nMismatch, name, id)
    ensures r.Success? ==> forall name :: name in r.value <==> Named(records, nMismatch, name)
  {
    HitsFromOutcome(records, map[], nMismatch);
    HitsFromContents(records, map[], nMismatch);
    HitsFromKeys(records, map[], nMismatch);
    HitsFromNoEmptySets(records, map[], nMismatch);
    var result: HitMap := map[];
    var i := 0;
    while i < |records|
      invariant 0 <= i <= |records|
      invariant HitsFrom(records[i..], result, nMismatch) == HitsOf(records, nMismatch)
    {
      var record := records[i];
      assert records[i..][1..] == records[i + 1..];
      if !record.unmapped && !record.secondary {
        var tooMany := TooManyHits(record, nMismatch);
        if tooMany.Failure? {
          return Failure(tooMany.error);
        }
        if !tooMany.value {
          if record.referenceId.None? {
            return Failure(NoReferenceId(record.readName));
          }
          var name := record.readName;
          var ids := if name in result then result[name] else {};
          result := result[name := ids + {record.referenceId.value}];
        }
      }
      i := i + 1;
    }
    return Success(result);
  }
}
