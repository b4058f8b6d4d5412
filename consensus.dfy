/**
 * The quorum reader's tally (server/consensus.go). The fan-out to the group's members and the
 * 10-second timers are not modelled: the tally receives the responses in arrival order, a member
 * that failed or timed out contributing a response whose result is `None`.
 */
module Consensus {
  import opened Bytes
  import opened Wrappers
  import opened Messages

  /** One member's answer: its result, or none, and the feature bytes that get hashed for the vote. */
  datatype FuncResult<T> = FuncResult(result: Option<T>, feature: Bytes)

  /** The hashes of the answers that carry a result, in arrival order. */
  function Hashes<T>(rs: seq<FuncResult<T>>, hashData: Bytes -> u64): seq<u64>
  {
    if rs == [] then []
    else
      var last := rs[|rs| - 1];
      Hashes(rs[..|rs| - 1], hashData) + (if last.result.Some? then [hashData(last.feature)] else [])
  }

  /** For each hash, the result of the last answer with that hash. */
  function Votes<T>(rs: seq<FuncResult<T>>, hashData: Bytes -> u64): map<u64, T>
  {
    if rs == [] then map[]
    else
      var last := rs[|rs| - 1];
      var before := Votes(rs[..|rs| - 1], hashData);
      if last.result.Some? then before[hashData(last.feature) := last.result.value] else before
  }

  /** Answer `i` carries a result whose feature hashes to `h`. */
  ghost predicate VotesFor<T>(rs: seq<FuncResult<T>>, hashData: Bytes -> u64, i: int, h: u64)
  {
    0 <= i < |rs| && rs[i].result.Some? && hashData(rs[i].feature) == h
  }

  /** A hash has a stored value exactly when some answer with a result has that hash, and the stored
      value is the result of the last such answer. */
  lemma {:induction false} VotesAreLastResults<T>(rs: seq<FuncResult<T>>, hashData: Bytes -> u64, h: u64)
    ensures h in Votes(rs, hashData) <==> exists i :: VotesFor(rs, hashData, i, h)
    ensures h in Votes(rs, hashData) ==>
      exists i :: VotesFor(rs, hashData, i, h) && Votes(rs, hashData)[h] == rs[i].result.value
        && forall j :: i < j < |rs| ==> !VotesFor(rs, hashData, j, h)
  {
    if rs != [] {
      var n := |rs| - 1;
      var init := rs[..n];
      VotesAreLastResults(init, hashData, h);
      forall i | 0 <= i < n ensures VotesFor(init, hashData, i, h) == VotesFor(rs, hashData, i, h) {
        assert init[i] == rs[i];
      }
      if VotesFor(rs, hashData, n, h) {
        assert Votes(rs, hashData)[h] == rs[n].result.value;
      } else if h in Votes(init, hashData) {
        var i :| VotesFor(init, hashData, i, h) && Votes(init, hashData)[h] == init[i].result.value
                 && forall j :: i < j < |init| ==> !VotesFor(init, hashData, j, h);
        assert VotesFor(rs, hashData, i, h) && Votes(rs, hashData)[h] == rs[i].result.value;
      }
    }
  }

  /** No answer carries a result exactly when nobody voted. */
  lemma {:induction false} NoVotesIffNoResults<T>(rs: seq<FuncResult<T>>, hashData: Bytes -> u64)
    ensures |Votes(rs, hashData)| == 0 <==> forall i :: 0 <= i < |rs| ==> rs[i].result.None?
  {
    if exists i :: 0 <= i < |rs| && rs[i].result.Some? {
      var i :| 0 <= i < |rs| && rs[i].result.Some?;
      VotesAreLastResults(rs, hashData, hashData(rs[i].feature));
      assert VotesFor(rs, hashData, i, hashData(rs[i].feature));
    } else if |Votes(rs, hashData)| != 0 {
      var h :| h in Votes(rs, hashData);
      VotesAreLastResults(rs, hashData, h);
    }
  }

  /** Every stored value is the result of some answer. */
  lemma VoteValuesReceived<T>(rs: seq<FuncResult<T>>, hashData: Bytes -> u64, h: u64)
    requires h in Votes(rs, hashData)
    ensures exists i :: 0 <= i < |rs| && rs[i].result == Some(Votes(rs, hashData)[h])
  {
    VotesAreLastResults(rs, hashData, h);
  }

  /**
   * The value agreed by the group. `answers` is `None` when the group's members cannot be fetched;
   * `pickMajority` chooses the winning hash. When that hash has no value, some value is returned
   * (the code takes the first in map iteration order, which Go leaves unspecified).
   */
  method GroupMajorityResponse<T>(answers: Option<seq<FuncResult<T>>>, hashData: Bytes -> u64, pickMajority: seq<u64> -> u64)
    returns (r: Option<T>)
    ensures answers.None? ==> r.None?
    ensures answers.Some? ==> (r.None? <==> forall i :: 0 <= i < |answers.value| ==> answers.value[i].result.None?)
    ensures answers.Some? && r.Some? ==> exists i :: 0 <= i < |answers.value| && answers.value[i].result == r
    ensures answers.Some? ==>
      var votes := Votes(answers.value, hashData);
      var winner := pickMajority(Hashes(answers.value, hashData));
      winner in votes ==> r == Some(votes[winner])
  {
    if answers.None? {
      return None;
    }
    var rs := answers.value;
    var hashes: seq<u64> := [];
    var vals: map<u64, T> := map[];
    var i := 0;
    while i < |rs|
      invariant 0 <= i <= |rs|
      invariant hashes == Hashes(rs[..i], hashData)
      invariant vals == Votes(rs[..i], hashData)
    {
      assert rs[..i + 1][..i] == rs[..i];
      if rs[i].result.Some? {
        var hash := hashData(rs[i].feature);
        hashes := hashes + [hash];
        vals := vals[hash := rs[i].result.value];
      }
      i := i + 1;
    }
    assert rs[..i] == rs;
    NoVotesIffNoResults(rs, hashData);
    var majorityHash := pickMajority(hashes);
    if majorityHash in vals {
      VoteValuesReceived(rs, hashData, majorityHash);
      return Some(vals[majorityHash]);
    }
    if |vals| > 0 {
      var h :| h in vals;
      VoteValuesReceived(rs, hashData, h);
      return Some(vals[h]);
    }
    return None;
  }

  /** The FileMeta read by majority. `tally` stands for the result of GroupMajorityResponse (above) over
      the members' answers to GetFileMeta, which are not modelled: an error exactly when it returned nothing. */
  function GetMajorityFileMeta(tally: Option<FileMeta>): (r: Result<FileMeta>)
    ensures r.Err? <==> tally.None?
    ensures r.Ok? ==> r.value == tally.value
  {
    match tally
    case None => Err(Refused("majority response nil for getting file meta in create block"))
    case Some(meta) => Ok(meta)
  }
}
