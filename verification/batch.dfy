/** A batch of records: the input cut into blank-line separated blocks, one
    record assembled from each block, and the number of records that pass the
    record kind's validation policy. Generic over the record kind: the
    assembler and the policy are parameters.
 */
module Batch {
  import opened Text

  /** Records are separated by an empty line. */
  const RecordSeparator: string := "\n\n"

  /** The raw blocks of a batch, one per record. */
  function Blocks(raw: string): (blocks: seq<string>)
    ensures |blocks| >= 1
    ensures forall k :: 0 <= k < |blocks| ==> !Contains(blocks[k], RecordSeparator)
    ensures Join(blocks, RecordSeparator) == raw
  {
    Split(raw, RecordSeparator)
  }

  /** Records without empty lines, separated by an empty line, are the
      blocks; a final line feed stays with the last record. */
  lemma BlocksOfRecords(records: seq<string>, end: string)
    requires |records| >= 1 && end in {"", "\n"}
    requires forall k :: 0 <= k < |records| ==> NoEmptyLine(records[k])
    ensures Blocks(Join(records, RecordSeparator) + end) ==
              records[..|records| - 1] + [records[|records| - 1] + end]
  {
    var blocks := records[..|records| - 1] + [records[|records| - 1] + end];
    JoinAppendLast(records, RecordSeparator, end);
    SplitBlocks(records, end, blocks);
  }

  lemma SplitBlocks(records: seq<string>, end: string, blocks: seq<string>)
    requires |records| >= 1 && end in {"", "\n"}
    requires forall k :: 0 <= k < |records| ==> NoEmptyLine(records[k])
    requires blocks == records[..|records| - 1] + [records[|records| - 1] + end]
    ensures Split(Join(blocks, RecordSeparator), RecordSeparator) == blocks
  {
    var n := |records|;
    assert RecordSeparator == "\n\n";
    forall k | 0 <= k < n - 1
      ensures FirstAtEnd(blocks[k], RecordSeparator)
    {
      assert blocks[k] == records[k];
      NoEmptyLineBeforeBlank(records[k]);
    }
    NoEmptyLineNoBlank(records[n - 1], end);
    SplitOfJoinAt(blocks, RecordSeparator);
  }

  /** `Batch::parse`: one record per block, in input order. A block that
      cannot be assembled fails the whole batch, and the first such block
      decides the error. Empty blocks are kept. */
  function Parse<R, E>(raw: string, assemble: string -> Result<R, E>): (r: Result<seq<R>, E>)
    ensures r.Ok? <==> forall i :: 0 <= i < |Blocks(raw)| ==> assemble(Blocks(raw)[i]).Ok?
    ensures r.Ok? ==> |r.value| == |Blocks(raw)|
    ensures r.Ok? ==> forall i :: 0 <= i < |r.value| ==> assemble(Blocks(raw)[i]) == Ok(r.value[i])
    ensures r.Err? ==> exists i :: 0 <= i < |Blocks(raw)| && assemble(Blocks(raw)[i]) == Err(r.error)
                                   && forall j :: 0 <= j < i ==> assemble(Blocks(raw)[j]).Ok?
  {
    MapResults(Blocks(raw), assemble)
  }

  /** `Batch::number_of_valid`. */
  function NumberOfValid<R>(records: seq<R>, isValid: R -> bool): (n: nat)
    ensures n <= |records|
    ensures n == |records| <==> forall i :: 0 <= i < |records| ==> isValid(records[i])
    ensures n == 0 <==> forall i :: 0 <= i < |records| ==> !isValid(records[i])
  {
    if |records| == 0 then 0
    else
      var init := records[..|records| - 1];
      assert forall i :: 0 <= i < |init| ==> init[i] == records[i];
      NumberOfValid(init, isValid) + (if isValid(records[|records| - 1]) then 1 else 0)
  }

  /** The positions of the records that pass. */
  function ValidPositions<R>(records: seq<R>, isValid: R -> bool): set<nat>
  {
    set i: nat | i < |records| && isValid(records[i])
  }

  /** The count is the number of positions holding a record that passes. */
  lemma {:induction false} NumberOfValidCountsPositions<R>(records: seq<R>, isValid: R -> bool)
    ensures NumberOfValid(records, isValid) == |ValidPositions(records, isValid)|
    decreases |records|
  {
    if |records| > 0 {
      var last := |records| - 1;
      var init := records[..last];
      NumberOfValidCountsPositions(init, isValid);
      var before := ValidPositions(init, isValid);
      var all := ValidPositions(records, isValid);
      var added: set<nat> := if isValid(records[last]) then {last} else {};
      forall x: nat
        ensures x in all <==> x in before + added
      {
        if x < last {
          assert init[x] == records[x];
        }
      }
      assert all == before + added;
      assert last !in before;
    }
  }

  /** A policy that passes no more records, position by position, counts no more. */
  lemma {:induction false} NumberOfValidMonotone<R, S>(rs: seq<R>, ss: seq<S>, v: R -> bool, w: S -> bool)
    requires |rs| == |ss|
    requires forall i :: 0 <= i < |rs| ==> v(rs[i]) ==> w(ss[i])
    ensures NumberOfValid(rs, v) <= NumberOfValid(ss, w)
    decreases |rs|
  {
    if |rs| > 0 {
      var last := |rs| - 1;
      assert forall i :: 0 <= i < last ==> rs[..last][i] == rs[i] && ss[..last][i] == ss[i];
      NumberOfValidMonotone(rs[..last], ss[..last], v, w);
    }
  }

  /** Counting two runs of records one after the other adds their counts. */
  lemma {:induction false} NumberOfValidAppend<R>(rs: seq<R>, ss: seq<R>, isValid: R -> bool)
    ensures NumberOfValid(rs + ss, isValid) == NumberOfValid(rs, isValid) + NumberOfValid(ss, isValid)
    decreases |ss|
  {
    if |ss| == 0 {
      assert rs + ss == rs;
    } else {
      var last := |ss| - 1;
      assert (rs + ss)[..|rs + ss| - 1] == rs + ss[..last];
      NumberOfValidAppend(rs, ss[..last], isValid);
    }
  }

  /** Empty input is one empty block, hence one record. */
  lemma EmptyInputIsOneBlock()
    ensures Blocks("") == [""]
  {
    assert FindFrom("", RecordSeparator, 0).None?;
  }
}
