/** The artifact set protocol: begin, one upload a member, commit or abort, with
    authority loss, stop, cancellation, timeout or refusal possible at every
    await. The controller is whatever it decides and whatever replies arrive. */
module UploadSet {
  import opened Seqs
  import opened ByteStreams

  datatype AgentError =
    | StaleAuthority
    | Stopped
    | AuthorityRpcTimeout
    | Rpc(exhausted: bool)
    | InvalidAssignment
    | UnresolvedReconciliation
    | ReconciliationRequired

  const CANCELLED := "artifact_collection_cancelled"
  const SET_QUOTA := "artifact_refused:object_quota:<set>"

  // ----- One member -----

  datatype Preparation = Prepared | Declined(reason: string) | Failed(error: AgentError)

  /** What the bounded join of the reader task gives. */
  datatype Joined = Finished(outcome: ReadOutcome) | Panicked | JoinTimeout

  /** What waiting for the upload's receipt gives; an RPC error may name a refusal. */
  datatype Receipt = Received(accepted: bool) | Interrupted | ReceiptError(error: AgentError, refusal: Option<string>)

  datatype Attempt = Attempt(acquired: bool, preparation: Preparation, receipt: Receipt, joined: Joined)

  /** `None`: uploaded; `Some`: refused by name; an error ends the set. */
  type Staged = Result<Option<string>, AgentError>

  function UploadFile(a: Attempt): (r: Staged)
  {
    if !a.acquired then Err(UnresolvedReconciliation)
    else if a.joined == JoinTimeout then Err(ReconciliationRequired)
    else if a.joined == Panicked then Err(InvalidAssignment)
    else if a.preparation.Declined? then Ok(Some(a.preparation.reason))
    else if a.preparation.Failed? then Err(a.preparation.error)
    else if a.joined.outcome.Refused? then Ok(Some(a.joined.outcome.reason))
    else match a.receipt
      case Received(true) => Ok(None)
      case Received(false) => Err(StaleAuthority)
      case Interrupted => Ok(Some(CANCELLED))
      case ReceiptError(error, refusal) => if refusal.Some? then Ok(refusal) else Err(error)
  }

  /** A member counts as uploaded exactly when the reader was owned, ready,
      joined and not refused, and the controller accepted. */
  lemma UploadedMeansAccepted(a: Attempt)
    ensures UploadFile(a) == Ok(None) <==>
            && a.acquired && a.preparation == Prepared && a.joined.Finished? && !a.joined.outcome.Refused?
            && a.receipt == Received(true)
  {
  }

  /** The frames of a whole object: a header, data of the announced length and
      digest, and one end. */
  ghost predicate Takes(hash: string -> string, frames: seq<Frame>)
  {
    && frames != [] && frames[0].Header? && Stages(frames[1..], false)
    && |Payload(frames[1..])| == frames[0].bytes && hash(Payload(frames[1..])) == frames[0].digest
  }

  /** An object the controller takes is a header, bounded data frames of the
      announced length and digest, and one end. */
  lemma TakesExact(hash: string -> string, frames: seq<Frame>)
    ensures Takes(hash, frames) <==>
            && |frames| >= 2 && frames[0].Header? && frames[|frames| - 1] == ObjectEnd
            && (forall i :: 0 < i < |frames| - 1 ==> frames[i].Data? && |frames[i].payload| <= MAX_ARTIFACT_FRAME_BYTES)
            && var data := Payload(frames[1..]); |data| == frames[0].bytes && hash(data) == frames[0].digest
  {
    hide Payload;
    if frames != [] {
      var rest := frames[1..];
      StagesExact(rest);
      hide Stages;
      assert forall i :: 0 < i < |frames| ==> frames[i] == rest[i - 1];
      assert forall i :: 0 <= i < |rest| ==> rest[i] == frames[i + 1];
    }
  }

  /** A retry: the controller already holds an object of this length and digest
      for the member, and reads no further than the header. */
  ghost predicate Retries(hash: string -> string, held: Option<string>, frames: seq<Frame>)
  {
    && held.Some? && frames != [] && frames[0].Header?
    && |held.value| == frames[0].bytes && hash(held.value) == frames[0].digest
  }

  lemma {:induction false} EndCarriesNothing(data: seq<Frame>)
    ensures Payload(data + [ObjectEnd]) == Payload(data)
  {
    PayloadSnoc(data, ObjectEnd);
    assert Payload(data) + [] == Payload(data);
  }

  datatype Join = InTime | Crashed | Late

  /** One member, reader and uploader together, against a controller that
      registers whole objects and answers retries for what it holds. The reader's
      outcome is only looked at for a refusal; all the same the object registered
      has exactly the announced length and digest, and a member the controller
      did not hold before is reported uploaded only after a complete read. */
  method UploadMember(hash: string -> string, source: Source, bytes: nat, control: Control, channel: Channel,
                      heard: bool, preparation: Preparation, controller: seq<Frame> -> Receipt, join: Join,
                      ghost held: Option<string>, ghost file: string)
    returns (staged: Staged, ghost outcome: ReadOutcome, ghost data: seq<Frame>, ghost digest: string)
    requires channel.delivered == []
    requires forall frames :: controller(frames) == Received(true) ==>
               if held.Some? then Retries(hash, held, frames) else Takes(hash, frames)
    modifies source, control, channel
    ensures staged == Ok(None) ==>
              var stored := if held.Some? then held.value else Payload(data);
              |stored| == bytes && hash(stored) == digest
    ensures staged == Ok(None) && held.None? ==>
              outcome == Complete && channel.delivered == [Header(bytes, digest)] + data + [ObjectEnd]
    ensures staged == Ok(None) && old(source.Unchanging(file)) ==> digest == hash(file)
    ensures staged == Ok(None) && old(source.Unchanging(file)) && held.None? ==> Payload(data) == file
    ensures staged == Ok(None) <==>
              && preparation == Prepared && join == InTime && !outcome.Refused?
              && controller(channel.delivered) == Received(true)
  {
    hide Payload, Stages;
    var read;
    read, data, digest := ReaderTask(hash, source, bytes, control, channel, heard, file);
    outcome := read;
    var joined := match join case InTime => Finished(read) case Crashed => Panicked case Late => JoinTimeout;
    staged := UploadFile(Attempt(true, preparation, controller(channel.delivered), joined));
    if controller(channel.delivered) == Received(true) && held.None? {
      assert outcome == Complete;
      assert channel.delivered[1..] == data + [ObjectEnd];
      EndCarriesNothing(data);
    }
  }

  // ----- The set -----

  datatype Reply = Accepted | NotAccepted | TimedOut | RpcFailed(exhausted: bool)

  datatype Operation = Begin | Commit | Abort(detached: bool)

  /** What the agent saw of an operation, and whether the controller took it. */
  datatype Answer = Answer(seen: Result<bool, AgentError>, taken: bool)

  /** What the agent did, with the answer it got. */
  datatype Event =
    | Invoked(operation: Operation, answer: Answer)
    | Uploaded(member: nat, staged: Staged)

  const ACKNOWLEDGED := Answer(Ok(true), true)

  /** All that a run meets: at each of its awaits the reply on its way, whether
      the controller takes an operation whose reply is lost, and the three
      cancellation tokens; and for each member what its upload meets. */
  datatype World = World(replies: nat -> Reply, decides: nat -> bool, lost: nat -> bool, stops: nat -> bool,
                         cancels: nat -> bool, attempts: nat -> Attempt)

  /** A token once cancelled stays cancelled. */
  ghost predicate Rises(token: nat -> bool) { forall i: nat, j: nat :: i <= j && token(i) ==> token(j) }

  /** The tokens are tokens, and an upload that saw the stop leaves it set. */
  ghost predicate Steady(w: World)
  {
    && Rises(w.lost) && Rises(w.stops) && Rises(w.cancels)
    && forall i: nat :: UploadFile(w.attempts(i)) == Err(Stopped) ==> w.stops(i + 2)
  }

  /** The answer to the operation awaited at `i`: fencing first, then
      cancellation where it is heeded, then the reply. A reply that arrives tells
      what the controller did; otherwise the controller may have done either. */
  function Respond(w: World, i: nat, heedsCancellation: bool): (answer: Answer)
  {
    if w.lost(i) then Answer(Err(StaleAuthority), w.decides(i))
    else if w.stops(i) then Answer(Err(Stopped), w.decides(i))
    else if heedsCancellation && w.cancels(i) then Answer(Ok(false), w.decides(i))
    else match w.replies(i)
      case Accepted => ACKNOWLEDGED
      case NotAccepted => Answer(Err(StaleAuthority), false)
      case TimedOut => Answer(Err(AuthorityRpcTimeout), w.decides(i))
      case RpcFailed(exhausted) => Answer(Err(Rpc(exhausted)), w.decides(i))
  }

  class Session {
    const world: World
    var calls: nat
    var log: seq<Event>

    constructor (world: World)
      ensures this.world == world && calls == 0 && log == []
    {
      this.world := world;
      calls, log := 0, [];
    }

    /** One awaited operation. */
    method Operate(operation: Operation, heedsCancellation: bool) returns (seen: Result<bool, AgentError>)
      modifies this
      ensures calls == old(calls) + 1
      ensures var answer := Respond(world, old(calls), heedsCancellation);
              seen == answer.seen && log == old(log) + [Invoked(operation, answer)]
    {
      var reply, taken := world.replies(calls), world.decides(calls);
      if world.lost(calls) {
        seen := Err(StaleAuthority);
      } else if world.stops(calls) {
        seen := Err(Stopped);
      } else if heedsCancellation && world.cancels(calls) {
        seen := Ok(false);
      } else {
        match reply
        case Accepted => seen, taken := Ok(true), true;
        case NotAccepted => seen, taken := Err(StaleAuthority), false;
        case TimedOut => seen := Err(AuthorityRpcTimeout);
        case RpcFailed(exhausted) => seen := Err(Rpc(exhausted));
      }
      calls := calls + 1;
      log := log + [Invoked(operation, Answer(seen, taken))];
    }

    /** Uploads the members in order until one is not uploaded. */
    method Stage(members: nat) returns (staged: Staged)
      requires calls == 1
      modifies this
      ensures var stop := FirstStop(world, members, 0);
              match stop
              case None => staged == Ok(None) && calls == members + 1 && log == old(log) + Uploads(members)
              case Some(i) =>
                && calls == i + 2
                && if world.cancels(i + 1)
                   then staged == Ok(Some(CANCELLED)) && log == old(log) + Uploads(i)
                   else staged == UploadFile(world.attempts(i)) && log == old(log) + Uploads(i) + [Uploaded(i, staged)]
    {
      hide UploadFile;
      assert log + [] == log;
      var i := 0;
      while i < members
        invariant i <= members && calls == i + 1 && log == old(log) + Uploads(i)
        invariant FirstStop(world, members, i) == FirstStop(world, members, 0)
      {
        var cancelled := world.cancels(calls);
        calls := calls + 1;
        if cancelled { return Ok(Some(CANCELLED)); }
        staged := UploadFile(world.attempts(i));
        log := log + [Uploaded(i, staged)];
        if staged != Ok(None) { return; }
        assert log == old(log) + Uploads(i + 1);
        i := i + 1;
      }
      staged := Ok(None);
    }
  }

  /** The first member, from `i` on, that is not uploaded. */
  function FirstStop(w: World, members: nat, i: nat): (stop: Option<nat>)
    requires i <= members
    ensures stop.Some? ==> i <= stop.value < members
    ensures stop.Some? ==> w.cancels(stop.value + 1) || UploadFile(w.attempts(stop.value)) != Ok(None)
    decreases members - i
  {
    if i == members then None
    else if w.cancels(i + 1) || UploadFile(w.attempts(i)) != Ok(None) then Some(i)
    else FirstStop(w, members, i + 1)
  }

  /** The first `n` members, uploaded in manifest order. */
  function Uploads(n: nat): (log: seq<Event>)
  {
    if n == 0 then [] else Uploads(n - 1) + [Uploaded(n - 1, Ok(None))]
  }

  // ----- What every run looks like -----

  predicate IsAbort(e: Event) { e.Invoked? && e.operation.Abort? }

  function Aborts(log: seq<Event>): (n: nat)
  {
    if log == [] then 0 else Aborts(log[..|log| - 1]) + (if IsAbort(log[|log| - 1]) then 1 else 0)
  }

  predicate BeginAccepted(log: seq<Event>) { log != [] && log[0] == Invoked(Begin, ACKNOWLEDGED) }

  predicate CommitAcknowledged(log: seq<Event>) { Invoked(Commit, ACKNOWLEDGED) in log }

  /** How a run ends: never begun; begin cancelled; committed; commit not
      acknowledged; cancelled between members; or one member not uploaded. */
  datatype Ending =
    | NeverBegun(error: AgentError, taken: bool)
    | BeginCancelled(taken: bool, reply: Answer)
    | Committed
    | NotCommitted(commit: Answer, reply: Answer)
    | StageCancelled(done: nat, reply: Answer)
    | MemberFailed(done: nat, staged: Staged, reply: Answer)

  /** An answer an operation can give. */
  predicate Genuine(answer: Answer, heedsCancellation: bool)
  {
    match answer.seen
    case Ok(true) => answer.taken
    case Ok(false) => heedsCancellation
    case Err(error) => error in {StaleAuthority, Stopped, AuthorityRpcTimeout} || error.Rpc?
  }

  predicate Fenced(answer: Answer) { answer.seen == Err(Stopped) || answer.seen == Err(StaleAuthority) }

  /** The endings that runs have. What cancelled a token before an abort is still
      there at the abort. */
  predicate Possible(members: nat, ending: Ending)
  {
    match ending
    case NeverBegun(error, taken) => Genuine(Answer(Err(error), taken), true)
    case BeginCancelled(_, reply) => Genuine(reply, false)
    case Committed => true
    case NotCommitted(commit, reply) =>
      && commit.seen != Ok(true) && Genuine(commit, true) && Genuine(reply, false)
      && (commit.seen == Err(Stopped) ==> Fenced(reply))
      && (commit == Answer(Err(StaleAuthority), true) ==> reply.seen == Err(StaleAuthority))
    case StageCancelled(done, reply) => done < members && Genuine(reply, false)
    case MemberFailed(done, staged, reply) =>
      && done < members && staged != Ok(None) && Genuine(reply, false)
      && (staged == Err(Stopped) ==> Fenced(reply))
  }

  /** How the run through a world ends. */
  function Run(w: World, members: nat): (ending: Ending)
  {
    var begin := Respond(w, 0, true);
    if begin.seen.Err? then NeverBegun(begin.seen.error, begin.taken)
    else if !begin.seen.value then BeginCancelled(begin.taken, Respond(w, 1, false))
    else Continued(w, members)
  }

  /** The same from an accepted begin on. */
  function Continued(w: World, members: nat): (ending: Ending)
  {
    match FirstStop(w, members, 0)
    case Some(i) =>
      if w.cancels(i + 1) then StageCancelled(i, Respond(w, i + 2, false))
      else MemberFailed(i, UploadFile(w.attempts(i)), Respond(w, i + 2, false))
    case None =>
      var commit := Respond(w, members + 1, true);
      if commit.seen == Ok(true) then Committed else NotCommitted(commit, Respond(w, members + 2, false))
  }

  predicate Detached(staged: Staged) { staged == Err(ReconciliationRequired) }

  /** Everything the agent did in a run with this ending. */
  function LogOf(members: nat, ending: Ending): (log: seq<Event>)
  {
    var begun := [Invoked(Begin, ACKNOWLEDGED)];
    match ending
    case NeverBegun(error, taken) => [Invoked(Begin, Answer(Err(error), taken))]
    case BeginCancelled(taken, reply) => [Invoked(Begin, Answer(Ok(false), taken)), Invoked(Abort(false), reply)]
    case Committed => begun + Uploads(members) + [Invoked(Commit, ACKNOWLEDGED)]
    case NotCommitted(commit, reply) => begun + Uploads(members) + [Invoked(Commit, commit)] + [Invoked(Abort(false), reply)]
    case StageCancelled(done, reply) => begun + Uploads(done) + [Invoked(Abort(false), reply)]
    case MemberFailed(done, staged, reply) =>
      begun + Uploads(done) + [Uploaded(done, staged)] + [Invoked(Abort(Detached(staged)), reply)]
  }

  /** What the run reports; a failed cleanup overrides a named refusal. */
  function Report(ending: Ending): (r: Staged)
  {
    match ending
    case NeverBegun(error, _) => if error == Rpc(true) then Ok(Some(SET_QUOTA)) else Err(error)
    case BeginCancelled(_, _) => Ok(Some(CANCELLED))
    case Committed => Ok(None)
    case NotCommitted(commit, _) =>
      if commit.seen.Ok? then Ok(Some(CANCELLED))
      else if commit.seen.error == Rpc(true) then Ok(Some(SET_QUOTA)) else Err(commit.seen.error)
    case StageCancelled(_, reply) => if reply.seen.Err? then Err(reply.seen.error) else Ok(Some(CANCELLED))
    case MemberFailed(_, staged, reply) =>
      if staged.Ok? && reply.seen.Err? then Err(reply.seen.error) else staged
  }

  lemma AbortsSnoc(log: seq<Event>, e: Event)
    ensures Aborts(log + [e]) == Aborts(log) + (if IsAbort(e) then 1 else 0)
  {
    assert (log + [e])[..|log|] == log;
  }

  lemma {:induction false} NoAbortInUploads(n: nat)
    ensures Aborts([Invoked(Begin, ACKNOWLEDGED)] + Uploads(n)) == 0
    ensures Invoked(Commit, ACKNOWLEDGED) !in [Invoked(Begin, ACKNOWLEDGED)] + Uploads(n)
  {
    var begun := [Invoked(Begin, ACKNOWLEDGED)];
    AbortsSnoc([], begun[0]);
    assert [] + begun == begun;
    if n == 0 {
      assert begun + [] == begun;
    } else {
      NoAbortInUploads(n - 1);
      AbortsSnoc(begun + Uploads(n - 1), Uploaded(n - 1, Ok(None)));
      assert begun + Uploads(n) == begun + Uploads(n - 1) + [Uploaded(n - 1, Ok(None))];
    }
  }

  /** One abort at the end of a run whose begin was accepted and whose commit,
      if any, was not acknowledged. */
  lemma AbortedOnce(before: seq<Event>, last: Event)
    requires Aborts(before) == 0 && Invoked(Commit, ACKNOWLEDGED) !in before && IsAbort(last)
    ensures Aborts(before + [last]) == 1 && !CommitAcknowledged(before + [last])
  {
    AbortsSnoc(before, last);
  }

  lemma PlainStep(before: seq<Event>, e: Event)
    requires Aborts(before) == 0 && Invoked(Commit, ACKNOWLEDGED) !in before
    requires !IsAbort(e) && e != Invoked(Commit, ACKNOWLEDGED)
    ensures Aborts(before + [e]) == 0 && Invoked(Commit, ACKNOWLEDGED) !in before + [e]
  {
    AbortsSnoc(before, e);
  }

  lemma NotBegunEnds(members: nat, ending: Ending)
    requires ending.NeverBegun? || ending.BeginCancelled?
    ensures var log := LogOf(members, ending);
            && !BeginAccepted(log) && !CommitAcknowledged(log)
            && Aborts(log) == if ending.BeginCancelled? then 1 else 0
  {
    var log := LogOf(members, ending);
    PlainStep([], log[0]);
    assert [] + [log[0]] == [log[0]];
    if ending.BeginCancelled? {
      AbortedOnce([log[0]], log[1]);
      assert log == [log[0]] + [log[1]];
    } else {
      assert log == [log[0]];
    }
  }

  lemma BegunEnds(members: nat, ending: Ending)
    requires Possible(members, ending) && !ending.NeverBegun? && !ending.BeginCancelled?
    ensures var log := LogOf(members, ending);
            && BeginAccepted(log)
            && (CommitAcknowledged(log) <==> ending == Committed)
            && Aborts(log) == if ending == Committed then 0 else 1
  {
    hide Aborts, Uploads;
    var begun := [Invoked(Begin, ACKNOWLEDGED)];
    var done := match ending case StageCancelled(d, _) => d case MemberFailed(d, _, _) => d case _ => members;
    var staged := begun + Uploads(done);
    NoAbortInUploads(done);
    match ending
    case Committed =>
      AbortsSnoc(staged, Invoked(Commit, ACKNOWLEDGED));
      assert (staged + [Invoked(Commit, ACKNOWLEDGED)])[|staged|] == Invoked(Commit, ACKNOWLEDGED);
    case NotCommitted(commit, reply) =>
      PlainStep(staged, Invoked(Commit, commit));
      AbortedOnce(staged + [Invoked(Commit, commit)], Invoked(Abort(false), reply));
    case StageCancelled(_, reply) =>
      AbortedOnce(staged, Invoked(Abort(false), reply));
    case MemberFailed(_, outcome, reply) =>
      PlainStep(staged, Uploaded(done, outcome));
      AbortedOnce(staged + [Uploaded(done, outcome)], Invoked(Abort(Detached(outcome)), reply));
  }

  /** Every set whose begin the agent knows accepted ends in an acknowledged
      commit or in one invoked abort, never both and never neither; a set it
      does not know begun is aborted only when its begin was given up. */
  lemma EndsOnce(members: nat, ending: Ending)
    requires Possible(members, ending)
    ensures var log := LogOf(members, ending);
            && (BeginAccepted(log) ==> (CommitAcknowledged(log) <==> Aborts(log) == 0) && Aborts(log) <= 1)
            && (!BeginAccepted(log) ==> !CommitAcknowledged(log) && (Aborts(log) == 1 <==> ending.BeginCancelled?))
  {
    hide LogOf, Aborts, BeginAccepted, CommitAcknowledged;
    if ending.NeverBegun? || ending.BeginCancelled? {
      NotBegunEnds(members, ending);
    } else {
      BegunEnds(members, ending);
    }
  }

  predicate BeginTaken(log: seq<Event>) { log != [] && log[0].Invoked? && log[0].operation == Begin && log[0].answer.taken }

  /** A set the controller took is left with neither an acknowledged commit nor
      an invoked abort exactly when the reply to its begin was lost to an error. */
  lemma LeftOpenExactly(members: nat, ending: Ending)
    requires Possible(members, ending)
    ensures var log := LogOf(members, ending);
            BeginTaken(log) && !CommitAcknowledged(log) && Aborts(log) == 0 <==>
            BeginTaken(log) && log[0].answer.seen.Err?
  {
    EndsOnce(members, ending);
    FirstIsBegin(members, ending);
    hide Aborts, CommitAcknowledged, Uploads;
    if ending.NeverBegun? { NotBegunEnds(members, ending); }
  }

  lemma FirstIsBegin(members: nat, ending: Ending)
    ensures var log := LogOf(members, ending);
            && log != [] && log[0].Invoked? && log[0].operation == Begin
            && log[0].answer == match ending
                                case NeverBegun(error, taken) => Answer(Err(error), taken)
                                case BeginCancelled(taken, _) => Answer(Ok(false), taken)
                                case _ => ACKNOWLEDGED
  {
    hide Uploads;
  }

  /** The errors that waiting for a member's preparation or receipt can give. */
  predicate Natural(a: Attempt)
  {
    && (a.preparation.Failed? ==> a.preparation.error in {StaleAuthority, Stopped, InvalidAssignment})
    && (a.receipt.ReceiptError? ==>
          a.receipt.error in {StaleAuthority, Stopped, AuthorityRpcTimeout} || a.receipt.error.Rpc?)
  }

  /** A run that stops at a member leaves its abort to a task of its own exactly
      when that member's reader was never seen to stop; it then reports
      reconciliation, has aborted once and has not committed. */
  lemma UnjoinedParks(members: nat, ending: Ending, a: Attempt)
    requires Possible(members, ending) && ending.MemberFailed? && ending.staged == UploadFile(a) && Natural(a)
    ensures var log := LogOf(members, ending);
            && Aborts(log) == 1 && !CommitAcknowledged(log)
            && log[|log| - 1] == Invoked(Abort(a.acquired && a.joined == JoinTimeout), ending.reply)
            && (a.acquired && a.joined == JoinTimeout ==> Report(ending) == Err(ReconciliationRequired))
  {
    BegunEnds(members, ending);
    hide Aborts, CommitAcknowledged, Uploads;
  }

  /** Success is reported exactly for the run that had begin accepted, every
      member uploaded once in manifest order, and the commit acknowledged. */
  lemma SuccessIsCommitted(members: nat, ending: Ending)
    requires Possible(members, ending)
    ensures Report(ending) == Ok(None) <==>
            LogOf(members, ending) ==
              [Invoked(Begin, ACKNOWLEDGED)] + Uploads(members) + [Invoked(Commit, ACKNOWLEDGED)]
  {
    BegunEnds(members, Committed);
    if ending.NeverBegun? || ending.BeginCancelled? {
      NotBegunEnds(members, ending);
    } else {
      BegunEnds(members, ending);
    }
    assert LogOf(members, Committed) == [Invoked(Begin, ACKNOWLEDGED)] + Uploads(members) + [Invoked(Commit, ACKNOWLEDGED)];
    hide LogOf, Aborts, BeginAccepted, CommitAcknowledged, Uploads;
  }

  /** A commit whose reply never came may still have been taken: the run then
      aborts and reports a failure, and these are the only such runs. */
  lemma TakenYetFailed(members: nat, ending: Ending)
    requires Possible(members, ending)
    ensures var log := LogOf(members, ending);
            (exists answer :: Invoked(Commit, answer) in log && answer.taken) && Report(ending) != Ok(None) <==>
            ending.NotCommitted? && ending.commit.taken
    ensures ending.NotCommitted? ==> Aborts(LogOf(members, ending)) == 1 && Report(ending) != Ok(None)
  {
    var log := LogOf(members, ending);
    if ending.NotCommitted? {
      BegunEnds(members, ending);
      assert log[|log| - 2] == Invoked(Commit, ending.commit);
    }
    CommitsIn(members, ending);
    hide Aborts, Uploads;
  }

  lemma {:induction false} NoCommitInUploads(n: nat, answer: Answer)
    ensures Invoked(Commit, answer) !in Uploads(n)
  {
    if n > 0 { NoCommitInUploads(n - 1, answer); }
  }

  /** The only commits in a log are those of the two endings that reach it. */
  lemma CommitsIn(members: nat, ending: Ending)
    ensures forall answer :: Invoked(Commit, answer) in LogOf(members, ending) ==>
              ending == Committed || (ending.NotCommitted? && answer == ending.commit)
  {
    forall n, answer ensures Invoked(Commit, answer) !in Uploads(n) { NoCommitInUploads(n, answer); }
    hide Uploads;
  }

  /** The run from an accepted begin on. */
  method UploadAndCommit(session: Session, members: nat) returns (report: Staged)
    requires session.calls == 1 && session.log == [Invoked(Begin, ACKNOWLEDGED)]
    modifies session
    ensures var ending := Continued(session.world, members);
            session.log == LogOf(members, ending) && report == Report(ending)
  {
    hide Uploads, UploadFile;
    ghost var w := session.world;
    var staged := session.Stage(members);
    if staged == Err(ReconciliationRequired) {
      // The abort runs in a task of its own, so the bounded join is not extended.
      var _ := session.Operate(Abort(true), false);
      return staged;
    }
    if staged != Ok(None) {
      var cleanup := session.Operate(Abort(false), false);
      return if cleanup.Err? && staged.Ok? then Err(cleanup.error) else staged;
    }
    var commit := session.Operate(Commit, true);
    if commit == Ok(true) { return Ok(None); }
    var _ := session.Operate(Abort(false), false);
    report :=
      if commit.Ok? then Ok(Some(CANCELLED))
      else if commit.error == Rpc(true) then Ok(Some(SET_QUOTA))
      else Err(commit.error);
  }

  /** A run through any world ends as the world says, with exactly the log and
      the report of that ending. */
  method CollectAndUpload(session: Session, members: nat) returns (report: Staged)
    requires session.calls == 0 && session.log == []
    modifies session
    ensures var ending := Run(session.world, members);
            session.log == LogOf(members, ending) && report == Report(ending)
  {
    hide Uploads, UploadFile, FirstStop;
    var begin := session.Operate(Begin, true);
    if begin.Err? {
      return if begin.error == Rpc(true) then Ok(Some(SET_QUOTA)) else Err(begin.error);
    }
    if !begin.value {
      var _ := session.Operate(Abort(false), false);
      return Ok(Some(CANCELLED));
    }
    report := UploadAndCommit(session, members);
  }

  // ----- The endings are exactly those runs have -----

  lemma GenuineResponse(w: World, i: nat, heedsCancellation: bool)
    ensures Genuine(Respond(w, i, heedsCancellation), heedsCancellation)
  {
  }

  lemma StillFenced(w: World, i: nat, j: nat)
    requires Rises(w.lost) && Rises(w.stops) && i <= j && (w.stops(i) || w.lost(i))
    ensures Fenced(Respond(w, j, false))
    ensures w.lost(i) ==> Respond(w, j, false).seen == Err(StaleAuthority)
  {
  }

  lemma RunPossible(w: World, members: nat)
    requires Steady(w)
    ensures Possible(members, Run(w, members))
  {
    hide UploadFile, Rises;
    GenuineResponse(w, 0, true);
    GenuineResponse(w, 1, false);
    match FirstStop(w, members, 0)
    case Some(i) =>
      GenuineResponse(w, i + 2, false);
      if w.stops(i + 2) { StillFenced(w, i + 2, i + 2); }
    case None =>
      GenuineResponse(w, members + 1, true);
      GenuineResponse(w, members + 2, false);
      if w.stops(members + 1) || w.lost(members + 1) { StillFenced(w, members + 1, members + 2); }
  }

  /** What an upload meets that ends this way. */
  function AttemptFor(staged: Staged): (a: Attempt)
  {
    var done := Finished(Complete);
    match staged
    case Ok(None) => Attempt(true, Prepared, Received(true), done)
    case Ok(Some(reason)) => Attempt(true, Declined(reason), Received(true), done)
    case Err(error) =>
      match error
      case UnresolvedReconciliation => Attempt(false, Prepared, Received(true), done)
      case ReconciliationRequired => Attempt(true, Prepared, Received(true), JoinTimeout)
      case InvalidAssignment => Attempt(true, Prepared, Received(true), Panicked)
      case _ => Attempt(true, Prepared, ReceiptError(error, None), done)
  }

  lemma AttemptGives(staged: Staged)
    ensures UploadFile(AttemptFor(staged)) == staged && Natural(AttemptFor(staged))
  {
  }

  /** The operations of a run with this ending that are not simply accepted. */
  function AnswerAt(members: nat, ending: Ending, i: nat): (answer: Answer)
  {
    match ending
    case NeverBegun(error, taken) => if i == 0 then Answer(Err(error), taken) else ACKNOWLEDGED
    case BeginCancelled(taken, reply) => if i == 0 then Answer(Ok(false), taken) else if i == 1 then reply else ACKNOWLEDGED
    case Committed => ACKNOWLEDGED
    case NotCommitted(commit, reply) =>
      if i == members + 1 then commit else if i == members + 2 then reply else ACKNOWLEDGED
    case StageCancelled(done, reply) => if i == done + 2 then reply else ACKNOWLEDGED
    case MemberFailed(done, _, reply) => if i == done + 2 then reply else ACKNOWLEDGED
  }

  /** From when on authority is lost in a run with this ending, if at all. */
  function LostFrom(members: nat, ending: Ending): (from: Option<nat>)
  {
    match ending
    case NeverBegun(error, _) => if error == StaleAuthority then Some(0) else None
    case BeginCancelled(_, reply) => if reply.seen == Err(StaleAuthority) then Some(1) else None
    case Committed => None
    case NotCommitted(commit, reply) =>
      if commit == Answer(Err(StaleAuthority), true) then Some(members + 1)
      else if reply.seen == Err(StaleAuthority) then Some(members + 2) else None
    case StageCancelled(done, reply) => if reply.seen == Err(StaleAuthority) then Some(done + 2) else None
    case MemberFailed(done, _, reply) => if reply.seen == Err(StaleAuthority) then Some(done + 2) else None
  }

  function StopFrom(members: nat, ending: Ending): (from: Option<nat>)
  {
    match ending
    case NeverBegun(error, _) => if error == Stopped then Some(0) else None
    case BeginCancelled(_, reply) => if reply.seen == Err(Stopped) then Some(1) else None
    case Committed => None
    case NotCommitted(commit, reply) =>
      if commit.seen == Err(Stopped) then Some(members + 1)
      else if reply.seen == Err(Stopped) then Some(members + 2) else None
    case StageCancelled(done, reply) => if reply.seen == Err(Stopped) then Some(done + 2) else None
    case MemberFailed(done, staged, reply) =>
      if staged == Err(Stopped) || reply.seen == Err(Stopped) then Some(done + 2) else None
  }

  function CancelFrom(members: nat, ending: Ending): (from: Option<nat>)
  {
    match ending
    case BeginCancelled(_, _) => Some(0)
    case NotCommitted(commit, _) => if commit.seen == Ok(false) then Some(members + 1) else None
    case StageCancelled(done, _) => Some(done + 1)
    case _ => None
  }

  predicate Since(from: Option<nat>, i: nat) { from.Some? && from.value <= i }

  function ReplyFor(answer: Answer): Reply
  {
    match answer.seen
    case Ok(_) => Accepted
    case Err(AuthorityRpcTimeout) => TimedOut
    case Err(Rpc(exhausted)) => RpcFailed(exhausted)
    case _ => NotAccepted
  }

  /** What the members of a run with this ending stage. */
  function StagedAt(ending: Ending, i: nat): Staged
  {
    if ending.MemberFailed? && i == ending.done then ending.staged else Ok(None)
  }

  /** A world whose run has this ending. */
  function WorldOf(members: nat, ending: Ending): (w: World)
  {
    World((i: nat) => ReplyFor(AnswerAt(members, ending, i)),
          (i: nat) => AnswerAt(members, ending, i).taken,
          (i: nat) => Since(LostFrom(members, ending), i),
          (i: nat) => Since(StopFrom(members, ending), i),
          (i: nat) => Since(CancelFrom(members, ending), i),
          (i: nat) => AttemptFor(StagedAt(ending, i)))
  }

  lemma WorldOfSteady(members: nat, ending: Ending)
    ensures Steady(WorldOf(members, ending))
  {
    var w := WorldOf(members, ending);
    hide UploadFile, AttemptFor;
    forall i: nat | UploadFile(w.attempts(i)) == Err(Stopped) ensures w.stops(i + 2) {
      AttemptGives(StagedAt(ending, i));
      assert w.attempts(i) == AttemptFor(StagedAt(ending, i));
    }
  }

  /** The world answers the operation at `i` as the ending has it, when the
      tokens cancelled by then are those the answer speaks of. */
  lemma AnswersAsAsked(members: nat, ending: Ending, i: nat, heedsCancellation: bool)
    requires Genuine(AnswerAt(members, ending, i), heedsCancellation)
    requires var seen := AnswerAt(members, ending, i).seen;
             && (Since(LostFrom(members, ending), i) ==> seen == Err(StaleAuthority))
             && (Since(StopFrom(members, ending), i) ==> seen == Err(Stopped) || Since(LostFrom(members, ending), i))
             && (heedsCancellation && Since(CancelFrom(members, ending), i) ==> seen == Ok(false))
             && (seen == Err(Stopped) ==> Since(StopFrom(members, ending), i))
             && (seen == Ok(false) ==> Since(CancelFrom(members, ending), i))
             && (seen == Err(StaleAuthority) ==> Since(LostFrom(members, ending), i) || !AnswerAt(members, ending, i).taken)
    ensures Respond(WorldOf(members, ending), i, heedsCancellation) == AnswerAt(members, ending, i)
  {
    hide LostFrom, StopFrom, CancelFrom, AnswerAt;
  }

  predicate Passes(w: World, k: nat) { !w.cancels(k + 1) && UploadFile(w.attempts(k)) == Ok(None) }

  /** The members before `n` are uploaded. */
  lemma {:induction false} StopsNotBefore(w: World, members: nat, i: nat, n: nat)
    requires i <= n <= members
    requires forall k: nat :: i <= k < n ==> Passes(w, k)
    ensures FirstStop(w, members, i) == FirstStop(w, members, n)
    decreases n - i
  {
    hide UploadFile;
    if i < n {
      assert Passes(w, i);
      StopsNotBefore(w, members, i + 1, n);
    }
  }

  lemma MembersAsAsked(members: nat, ending: Ending)
    requires Possible(members, ending) && !ending.NeverBegun? && !ending.BeginCancelled?
    ensures FirstStop(WorldOf(members, ending), members, 0) ==
            match ending case StageCancelled(done, _) => Some(done) case MemberFailed(done, _, _) => Some(done) case _ => None
  {
    var w := WorldOf(members, ending);
    var n := match ending case StageCancelled(done, _) => done case MemberFailed(done, _, _) => done case _ => members;
    hide UploadFile, AttemptFor, Genuine;
    forall k: nat | k <= n ensures UploadFile(w.attempts(k)) == StagedAt(ending, k) { AttemptGives(StagedAt(ending, k)); }
    forall k: nat | k < n ensures Passes(w, k) {}
    StopsNotBefore(w, members, 0, n);
  }

  lemma BeginAsAsked(members: nat, ending: Ending)
    requires Possible(members, ending)
    ensures Respond(WorldOf(members, ending), 0, true) == AnswerAt(members, ending, 0)
    ensures ending.BeginCancelled? ==> Respond(WorldOf(members, ending), 1, false) == ending.reply
  {
    AnswersAsAsked(members, ending, 0, true);
    if ending.BeginCancelled? { AnswersAsAsked(members, ending, 1, false); }
    hide Respond, WorldOf;
  }

  /** Every possible ending is the ending of a run. */
  lemma EndingReached(members: nat, ending: Ending)
    requires Possible(members, ending)
    ensures Run(WorldOf(members, ending), members) == ending
  {
    BeginAsAsked(members, ending);
    if !ending.NeverBegun? && !ending.BeginCancelled? {
      MembersAsAsked(members, ending);
      ContinuedReached(members, ending);
    }
    hide Respond, WorldOf, Continued, Possible;
  }

  lemma ContinuedReached(members: nat, ending: Ending)
    requires Possible(members, ending) && !ending.NeverBegun? && !ending.BeginCancelled?
    requires FirstStop(WorldOf(members, ending), members, 0) ==
             match ending case StageCancelled(done, _) => Some(done) case MemberFailed(done, _, _) => Some(done) case _ => None
    ensures Continued(WorldOf(members, ending), members) == ending
  {
    var w := WorldOf(members, ending);
    hide Respond, FirstStop, UploadFile, AttemptFor;
    match ending
    case StageCancelled(done, _) =>
      AnswersAsAsked(members, ending, done + 2, false);
    case MemberFailed(done, staged, _) =>
      AnswersAsAsked(members, ending, done + 2, false);
      AttemptGives(staged);
    case Committed =>
      AnswersAsAsked(members, ending, members + 1, true);
    case NotCommitted(_, _) =>
      AnswersAsAsked(members, ending, members + 1, true);
      AnswersAsAsked(members, ending, members + 2, false);
  }

  /** The possible endings are exactly those of the runs through steady worlds. */
  lemma EndingsExact(members: nat, ending: Ending)
    ensures Possible(members, ending) <==> exists w :: Steady(w) && Run(w, members) == ending
  {
    hide Possible, Run, Steady, WorldOf;
    if Possible(members, ending) {
      WorldOfSteady(members, ending);
      EndingReached(members, ending);
    }
    if w :| Steady(w) && Run(w, members) == ending { RunPossible(w, members); }
  }

  /** A run that leaves a set open: the controller takes the begin, and the
      reply times out. */
  lemma LeftOpenRun(members: nat)
    ensures var w := World(_ => TimedOut, _ => true, _ => false, _ => false, _ => false, _ => AttemptFor(Ok(None)));
            var log := LogOf(members, Run(w, members));
            Steady(w) && BeginTaken(log) && !CommitAcknowledged(log) && Aborts(log) == 0
  {
    var ending := NeverBegun(AuthorityRpcTimeout, true);
    AttemptGives(Ok(None));
    NotBegunEnds(members, ending);
  }

  /** A run that commits, aborts and reports a failure. */
  lemma TakenYetFailedRun(members: nat)
    ensures var w := WorldOf(members, NotCommitted(Answer(Err(AuthorityRpcTimeout), true), ACKNOWLEDGED));
            && Steady(w)
            && Run(w, members) == NotCommitted(Answer(Err(AuthorityRpcTimeout), true), ACKNOWLEDGED)
            && Report(Run(w, members)) == Err(AuthorityRpcTimeout)
  {
    var ending := NotCommitted(Answer(Err(AuthorityRpcTimeout), true), ACKNOWLEDGED);
    WorldOfSteady(members, ending);
    EndingReached(members, ending);
    hide WorldOf, Run, Steady;
  }

  // ----- What a report means -----

  /** Some event of the log saw this error. */
  ghost predicate Saw(log: seq<Event>, error: AgentError)
  {
    exists e :: e in log && match e case Invoked(_, answer) => answer.seen == Err(error) case Uploaded(_, staged) => staged == Err(error)
  }

  ghost predicate Refused(log: seq<Event>, reason: string) { exists i :: Uploaded(i, Ok(Some(reason))) in log }

  ghost predicate SawOf(log: seq<Event>, operation: Operation, error: AgentError)
  {
    exists answer :: Invoked(operation, answer) in log && answer.seen == Err(error)
  }

  lemma EventsOf(members: nat, ending: Ending)
    ensures var log := LogOf(members, ending);
            match ending
            case NeverBegun(error, taken) => Invoked(Begin, Answer(Err(error), taken)) in log
            case BeginCancelled(taken, reply) => Invoked(Begin, Answer(Ok(false), taken)) in log && Invoked(Abort(false), reply) in log
            case Committed => Invoked(Commit, ACKNOWLEDGED) in log
            case NotCommitted(commit, reply) => Invoked(Commit, commit) in log && Invoked(Abort(false), reply) in log
            case StageCancelled(_, reply) => Invoked(Abort(false), reply) in log
            case MemberFailed(done, staged, reply) =>
              Uploaded(done, staged) in log && Invoked(Abort(Detached(staged)), reply) in log
  {
    hide Uploads;
    var log := LogOf(members, ending);
    var last := log[|log| - 1];
    assert last in log;
    if |log| > 1 { assert log[|log| - 2] in log; }
  }

  /** Every error reported was seen, and every refusal reported is the refusal of
      a member, a cancellation, or a quota that begin or commit met. */
  lemma ReportWasSeen(members: nat, ending: Ending)
    requires Possible(members, ending)
    ensures var log, report := LogOf(members, ending), Report(ending);
            && (report.Err? ==> Saw(log, report.error))
            && (forall reason :: report == Ok(Some(reason)) ==>
                  || Refused(log, reason)
                  || (reason == SET_QUOTA && (SawOf(log, Begin, Rpc(true)) || SawOf(log, Commit, Rpc(true))))
                  || (reason == CANCELLED && (ending.BeginCancelled? || ending.StageCancelled? ||
                        (ending.NotCommitted? && ending.commit.seen == Ok(false)))))
  {
    EventsOf(members, ending);
    assert ending.NotCommitted? && ending.commit.seen.Ok? ==> ending.commit.seen == Ok(false);
    hide LogOf, Possible;
    match ending
    case NeverBegun(error, taken) =>
      assert SawOf(LogOf(members, ending), Begin, error);
    case NotCommitted(commit, _) =>
      if commit.seen.Err? { assert SawOf(LogOf(members, ending), Commit, commit.seen.error); }
    case _ =>
  }

  /** A cancellation is reported only where the token was cancelled by then, or a
      member was. */
  lemma CancelledWasCancelled(w: World, members: nat)
    requires Steady(w) && Report(Run(w, members)) == Ok(Some(CANCELLED))
    ensures (exists i: nat :: i <= members + 1 && w.cancels(i)) || Refused(LogOf(members, Run(w, members)), CANCELLED)
  {
    var ending := Run(w, members);
    RunPossible(w, members);
    ReportWasSeen(members, ending);
    CancelsOf(w, members);
    DifferentReasons();
    hide Possible, Report, LogOf, Run, Refused;
  }

  lemma DifferentReasons()
    ensures CANCELLED != SET_QUOTA
  {
    assert CANCELLED[9] != SET_QUOTA[9];
  }

  lemma CancelsOf(w: World, members: nat)
    ensures var ending := Run(w, members);
            ending.BeginCancelled? || ending.StageCancelled? || (ending.NotCommitted? && ending.commit.seen == Ok(false)) ==>
              exists i: nat :: i <= members + 1 && w.cancels(i)
  {
    hide UploadFile;
    var ending := Run(w, members);
    if ending.BeginCancelled? { assert w.cancels(0); }
    if ending.StageCancelled? { assert w.cancels(ending.done + 1); }
    if ending.NotCommitted? && ending.commit.seen == Ok(false) { assert w.cancels(members + 1); }
  }

  /** What an operation's answer, begin or commit, is reported as. */
  ghost predicate Told(answer: Answer, report: Staged)
  {
    && (answer.seen == Ok(false) ==> report == Ok(Some("artifact_collection_cancelled")))
    && (answer.seen == Err(Rpc(true)) ==> report == Ok(Some("artifact_refused:object_quota:<set>")))
    && (answer.seen.Err? && answer.seen.error != Rpc(true) ==> report == Err(answer.seen.error))
  }

  /** The report from the world alone. Begin's answer is told unless it is an
      acceptance; then the first member not uploaded decides; then commit's. A
      failed cleanup overrides a refusal and never an error. */
  lemma ReportFromWorld(w: World, members: nat)
    ensures var report, begin := Report(Run(w, members)), Respond(w, 0, true);
            && (begin.seen != Ok(true) ==> Told(begin, report))
            && (begin.seen == Ok(true) ==>
                  match FirstStop(w, members, 0)
                  case None =>
                    var commit := Respond(w, members + 1, true);
                    if commit.seen == Ok(true) then report == Ok(None) else Told(commit, report)
                  case Some(i) =>
                    var outcome := if w.cancels(i + 1) then Ok(Some(CANCELLED)) else UploadFile(w.attempts(i));
                    var cleanup := Respond(w, i + 2, false).seen;
                    && (outcome.Err? ==> report == outcome)
                    && (outcome.Ok? && cleanup.Ok? ==> report == outcome)
                    && (outcome.Ok? && cleanup.Err? ==> report == Err(cleanup.error)))
  {
    hide UploadFile, Respond, FirstStop;
  }

  /** Losing authority or being stopped before begin is what is reported. */
  lemma FencedBeginReported(w: World, members: nat)
    ensures w.lost(0) ==> Report(Run(w, members)) == Err(StaleAuthority)
    ensures !w.lost(0) && w.stops(0) ==> Report(Run(w, members)) == Err(Stopped)
    ensures !w.lost(0) && !w.stops(0) && w.cancels(0) ==> Report(Run(w, members)) == Ok(Some(CANCELLED))
    ensures !w.lost(0) && !w.stops(0) && !w.cancels(0) ==>
              match w.replies(0)
              case Accepted => true
              case NotAccepted => Report(Run(w, members)) == Err(StaleAuthority)
              case TimedOut => Report(Run(w, members)) == Err(AuthorityRpcTimeout)
              case RpcFailed(exhausted) =>
                Report(Run(w, members)) == if exhausted then Ok(Some(SET_QUOTA)) else Err(Rpc(false))
  {
    ReportFromWorld(w, members);
    hide UploadFile, FirstStop, Report, Run;
  }

  /** Where a member's outcome comes from. */
  lemma OutcomeMeans(a: Attempt)
    ensures UploadFile(a) == Err(UnresolvedReconciliation) <== !a.acquired
    ensures a.acquired && a.joined == JoinTimeout ==> UploadFile(a) == Err(ReconciliationRequired)
    ensures a.acquired && a.joined == Panicked ==> UploadFile(a) == Err(InvalidAssignment)
    ensures a.acquired && a.joined.Finished? && a.preparation.Declined? ==> UploadFile(a) == Ok(Some(a.preparation.reason))
    ensures a.acquired && a.joined.Finished? && a.preparation.Failed? ==> UploadFile(a) == Err(a.preparation.error)
    ensures a.acquired && a.preparation == Prepared && a.joined.Finished? && a.joined.outcome.Refused? ==>
              UploadFile(a) == Ok(Some(a.joined.outcome.reason))
    ensures a.acquired && a.preparation == Prepared && a.joined.Finished? && !a.joined.outcome.Refused? ==>
              match a.receipt
              case Received(accepted) => UploadFile(a) == if accepted then Ok(None) else Err(StaleAuthority)
              case Interrupted => UploadFile(a) == Ok(Some("artifact_collection_cancelled"))
              case ReceiptError(error, refusal) => UploadFile(a) == if refusal.Some? then Ok(refusal) else Err(error)
  {
  }
}
