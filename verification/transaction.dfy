/** WithTxn: run a function inside begin / commit / rollback. */
module Transaction {
  import opened Prelude

  /** How the transaction body ends: it returns nil, returns an error, or panics. */
  datatype Ending = Returned | Failed | Panicked

  /** What a body makes of the state it sees, and how it ends. */
  datatype Work<S> = Work(state: S, ending: Ending)

  /** A commit succeeds, or reports an error; the error may arrive after the server has applied it. */
  datatype CommitFate = CommitOk | CommitLost | CommitAppliedButReported

  datatype Outcome = Success | BeginFailed | BodyFailed | BodyAndRollbackFailed | CommitFailed | Repanicked

  datatype Command = Begin | Commit | Rollback

  /** What a call sends to the server: nothing follows a failed begin, and an open transaction is ended by
      exactly one command, commit after a body that returned nil and rollback after any other. */
  function Protocol(beginOk: bool, ending: Ending): seq<Command> {
    if !beginOk then [Begin] else if ending.Returned? then [Begin, Commit] else [Begin, Rollback]
  }

  /** One connection: what other sessions see, the transaction it holds open, if any, and the commands it
      has sent. */
  class Database<S> {
    var committed: S
    var open: Option<S>
    var sent: seq<Command>

    constructor (initial: S)
      ensures committed == initial && open == None && sent == []
    {
      committed, open, sent := initial, None, [];
    }

    method BeginTx(ok: bool)
      requires open.None?
      modifies this`open, this`sent
      ensures open == (if ok then Some(committed) else None) && sent == old(sent) + [Begin]
    {
      sent := sent + [Begin];
      if ok {
        open := Some(committed);
      }
    }

    /** The transaction is over for its client whatever the answer. */
    method CommitTx(fate: CommitFate)
      requires open.Some?
      modifies this
      ensures open == None && sent == old(sent) + [Commit]
      ensures committed == if fate.CommitLost? then old(committed) else old(open).value
    {
      sent := sent + [Commit];
      if !fate.CommitLost? {
        committed := open.value;
      }
      open := None;
    }

    /** A rollback that reports an error has not made anything visible either. */
    method RollbackTx()
      requires open.Some?
      modifies this`open, this`sent
      ensures open == None && sent == old(sent) + [Rollback]
    {
      sent := sent + [Rollback];
      open := None;
    }

    /** All or nothing: nil means everything was committed, a begin or body failure and a panic mean
        nothing was, and a commit error is the one outcome that leaves the caller not knowing. On every
        exit, a panic included, the transaction is over. */
    method WithTxn(body: S -> Work<S>, beginOk: bool, rollbackOk: bool, fate: CommitFate) returns (r: Outcome)
      requires open.None?
      modifies this
      ensures open.None? && sent == old(sent) + Protocol(beginOk, body(old(committed)).ending)
      ensures committed == After(old(committed), Call(body, beginOk, fate))
      ensures r == BeginFailed <==> !beginOk
      ensures r == Success <==> beginOk && body(old(committed)).ending.Returned? && fate.CommitOk?
      ensures r == CommitFailed <==> beginOk && body(old(committed)).ending.Returned? && !fate.CommitOk?
      ensures r == BodyFailed <==> beginOk && body(old(committed)).ending.Failed? && rollbackOk
      ensures r == BodyAndRollbackFailed <==> beginOk && body(old(committed)).ending.Failed? && !rollbackOk
      ensures r == Repanicked <==> beginOk && body(old(committed)).ending.Panicked?
      ensures r == Success ==> committed == body(old(committed)).state
      ensures r !in {Success, CommitFailed} ==> committed == old(committed)
    {
      BeginTx(beginOk);
      if open.None? {
        return BeginFailed;
      }
      var work := body(open.value);
      open := Some(work.state);
      match work.ending {
        case Panicked =>
          RollbackTx();
          return Repanicked;
        case Failed =>
          RollbackTx();
          return if rollbackOk then BodyFailed else BodyAndRollbackFailed;
        case Returned =>
          CommitTx(fate);
          return if fate.CommitOk? then Success else CommitFailed;
      }
    }
  }

  /** When the body's work becomes visible. */
  predicate Commits<S>(body: S -> Work<S>, beginOk: bool, fate: CommitFate, s: S) {
    beginOk && body(s).ending.Returned? && !fate.CommitLost?
  }

  /** One call of WithTxn in a history of calls. */
  datatype Call<!S> = Call(body: S -> Work<S>, beginOk: bool, fate: CommitFate)

  function After<S>(s: S, c: Call<S>): S {
    if Commits(c.body, c.beginOk, c.fate, s) then c.body(s).state else s
  }

  function Replay<S>(s: S, calls: seq<Call<S>>): S {
    if calls == [] then s else Replay(After(s, calls[0]), calls[1..])
  }

  /** A body that, whenever it returns nil, turns a good state into a good state. What it leaves behind
      when it fails half-way is not restricted. */
  ghost predicate Keeps<S(!new)>(inv: S -> bool, body: S -> Work<S>) {
    forall s :: inv(s) && body(s).ending.Returned? ==> inv(body(s).state)
  }

  /** Over any history, whichever calls fail at whatever point, a condition kept by every completed
      body holds of the committed state throughout. */
  lemma {:induction false} HistoryKeeps<S(!new)>(inv: S -> bool, s: S, calls: seq<Call<S>>)
    requires inv(s)
    requires forall i :: 0 <= i < |calls| ==> Keeps(inv, calls[i].body)
    ensures inv(Replay(s, calls))
    decreases |calls|
  {
    if calls != [] {
      assert Keeps(inv, calls[0].body);
      HistoryKeeps(inv, After(s, calls[0]), calls[1..]);
    }
  }
}
