/** The device session as the acquisition engine sees it: anything may be answered to any call. */
module Devices {
  import opened Words
  import opened Runs
  import opened Engine

  datatype Topology = Topology(highestEnd: u64, totalBytes: u64, runs: seq<MemoryRun>)

  /** A call and its answer; `None` is a failed call. */
  datatype Call =
    | QueryCall(topology: Option<Topology>)
    | ReadCall(request: ReadRequest, result: Option<ReadResult>)
    | EndCall(changed: Option<bool>)

  function ReadCalls(probes: seq<Probe>): seq<Call> {
    seq(|probes|, i requires 0 <= i < |probes| => ReadCall(probes[i].request, Some(probes[i].result)))
  }

  /** What the device answers to a call, given everything that was asked and answered before. */
  datatype Oracle = Oracle(
    onQuery: seq<Call> -> Option<Topology>,
    onRead: (seq<Call>, ReadRequest) -> Option<ReadResult>,
    onEnd: seq<Call> -> Option<bool>)
  {
    predicate Gives(before: seq<Call>, call: Call) {
      match call
      case QueryCall(topology) => topology == onQuery(before)
      case ReadCall(request, result) => result == onRead(before, request)
      case EndCall(changed) => changed == onEnd(before)
    }

    /** Every answer in the log is the oracle's. */
    ghost predicate Explains(log: seq<Call>) {
      forall k :: 0 <= k < |log| ==> Gives(log[..k], log[k])
    }
  }

  lemma {:induction false} ExplainsOneMore(oracle: Oracle, log: seq<Call>, call: Call)
    requires oracle.Explains(log) && oracle.Gives(log, call)
    ensures oracle.Explains(log + [call])
  {
    var longer := log + [call];
    forall k | 0 <= k < |longer|
      ensures oracle.Gives(longer[..k], longer[k])
    {
      assert longer[..k] == log[..k];
    }
  }

  class Device {
    const oracle: Oracle
    /** Everything asked so far and what was answered. */
    var log: seq<Call>

    ghost predicate Genuine()
      reads this
    {
      oracle.Explains(log)
    }

    constructor (oracle: Oracle)
      ensures Genuine() && log == [] && this.oracle == oracle
    {
      this.oracle := oracle;
      log := [];
    }

    method Query() returns (answer: Option<Topology>)
      requires Genuine()
      modifies this
      ensures Genuine() && log == old(log) + [QueryCall(answer)]
    {
      answer := oracle.onQuery(log);
      ExplainsOneMore(oracle, log, QueryCall(answer));
      log := log + [QueryCall(answer)];
    }

    method Read(request: ReadRequest) returns (answer: Option<ReadResult>)
      requires Genuine()
      modifies this
      ensures Genuine() && log == old(log) + [ReadCall(request, answer)]
    {
      answer := oracle.onRead(log, request);
      ExplainsOneMore(oracle, log, ReadCall(request, answer));
      log := log + [ReadCall(request, answer)];
    }

    method End() returns (answer: Option<bool>)
      requires Genuine()
      modifies this
      ensures Genuine() && log == old(log) + [EndCall(answer)]
    {
      answer := oracle.onEnd(log);
      ExplainsOneMore(oracle, log, EndCall(answer));
      log := log + [EndCall(answer)];
    }
  }

  /** The cancellation flag. */
  class CancelFlag {
    const raised: nat -> bool
    var polls: nat

    constructor (raised: nat -> bool)
      ensures !Seen() && this.raised == raised
    {
      this.raised := raised;
      polls := 0;
    }

    /** A poll has found it raised. */
    ghost predicate Seen()
      reads this`polls
    {
      Times(raised, polls) > 0
    }

    method Load() returns (cancelled: bool)
      modifies this
      ensures Seen() == (old(Seen()) || cancelled)
    {
      cancelled := raised(polls);
      polls := polls + 1;
    }
  }
}
