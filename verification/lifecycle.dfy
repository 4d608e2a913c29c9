/** The attachment state machine of `joycon_from_cs.ts`: `attach`, `detach`
    and the decision a poll takes from the timestamp it read. The states are
    ordered, and the driver gates its work on comparisons against that
    order. */
module Lifecycle {

  datatype Attachment = NotAttached | Dropped | NoJoyCons | Attached | InputMode0x30 | ImuDataOk
  {
    /** The enum's numeric value. */
    function Ord(): nat
    {
      match this
      case NotAttached => 0
      case Dropped => 1
      case NoJoyCons => 2
      case Attached => 3
      case InputMode0x30 => 4
      case ImuDataOk => 5
    }
  }

  /** `state > other` on the enum's values. */
  predicate Above(state: Attachment, other: Attachment)
  {
    state.Ord() > other.Ord()
  }

  /** Polls that read no timestamp before the connection counts as lost. */
  const PollAttemptLimit := 1000

  /** What `detach` does besides forgetting the state: disable the
      controller's features (four subcommands) and close the handle. */
  datatype DetachEffects = DetachEffects(disable: bool, close: bool)

  function Detach(state: Attachment): (r: (Attachment, DetachEffects))
    ensures r.0 == NotAttached
    ensures r.1.disable <==> state in {Attached, InputMode0x30, ImuDataOk}
    ensures r.1.close <==> state !in {NotAttached, Dropped}
    ensures r.1.disable ==> r.1.close
  {
    (NotAttached, DetachEffects(Above(state, NoJoyCons), Above(state, Dropped)))
  }

  /** A second `detach` does nothing: no subcommands, no close. */
  lemma DetachIdempotent(state: Attachment)
    ensures Detach(Detach(state).0) == (NotAttached, DetachEffects(false, false))
  {
  }

  /** What the poll loop does next: poll again after 5 ms with the given
      attempt number, or stop. */
  datatype Schedule = Reschedule(attempt: nat) | Stop

  /** The decision at the end of `poll(attempt)`, from the state it started
      in and the timestamp byte its second read returned (0 when the read
      failed). */
  function PollOutcome(state: Attachment, attempt: nat, messageTime: int): (r: (Attachment, Schedule))
    ensures !Above(state, NoJoyCons) ==> r == (state, Stop)
    ensures Above(state, NoJoyCons) && messageTime > 0 ==> r == (ImuDataOk, Reschedule(0))
    ensures Above(state, NoJoyCons) && messageTime <= 0 ==>
              (r.1.Stop? <==> attempt > PollAttemptLimit)
    ensures r.1.Reschedule? && messageTime <= 0 ==> r == (state, Reschedule(attempt + 1))
    ensures r.1.Stop? && Above(state, NoJoyCons) ==> r.0 == Dropped
  {
    if !Above(state, NoJoyCons) then (state, Stop)
    else if messageTime > 0 then (ImuDataOk, Reschedule(0))
    else if attempt > PollAttemptLimit then (Dropped, Stop)
    else (state, Reschedule(attempt + 1))
  }

  /** A poll loop that never reads a timestamp runs 1002 polls (attempts 0
      through 1001) and then drops the connection. */
  lemma {:induction false} SilentPollsDrop(state: Attachment, attempt: nat)
    requires Above(state, NoJoyCons) && attempt <= PollAttemptLimit + 1
    ensures SilentPolls(state, attempt) == (Dropped, PollAttemptLimit + 2 - attempt)
    decreases PollAttemptLimit + 1 - attempt
  {
    if attempt <= PollAttemptLimit {
      SilentPollsDrop(state, attempt + 1);
    }
  }

  /** The state and the number of polls run when every read from poll
      `attempt` on returns no timestamp. */
  function SilentPolls(state: Attachment, attempt: nat): (r: (Attachment, nat))
    decreases PollAttemptLimit + 2 - attempt
  {
    var (s, next) := PollOutcome(state, attempt, 0);
    match next
    case Stop => (s, 1)
    case Reschedule(a) =>
      if a > PollAttemptLimit + 1 then (s, 1)
      else var (s', n) := SilentPolls(s, a); (s', n + 1)
  }

  /** The calls that move the state machine. `ThrowOp` is a `detach` or a
      `poll` whose first write threw on a closed handle before it changed
      the state; an `attach` on a closed handle has already set the state
      when it throws, so it is an `AttachOp`. */
  datatype Op = AttachOp | DetachOp | PollOp(attempt: nat, messageTime: int) | ThrowOp

  function Step(state: Attachment, op: Op): Attachment
  {
    match op
    case AttachOp => Attached
    case DetachOp => Detach(state).0
    case PollOp(attempt, t) => PollOutcome(state, attempt, t).0
    case ThrowOp => state
  }

  /** The state after a sequence of calls. */
  function Run(state: Attachment, ops: seq<Op>): Attachment
    decreases |ops|
  {
    if |ops| == 0 then state else Step(Run(state, ops[..|ops| - 1]), ops[|ops| - 1])
  }

  /** Whether an `attach` came after the last `detach`. */
  predicate AttachedSinceDetach(ops: seq<Op>)
    decreases |ops|
  {
    if |ops| == 0 then false
    else match ops[|ops| - 1]
      case AttachOp => true
      case DetachOp => false
      case PollOp(_, _) => AttachedSinceDetach(ops[..|ops| - 1])
      case ThrowOp => AttachedSinceDetach(ops[..|ops| - 1])
  }

  /** The states a driver can be in: the connection-problem state
      NoJoyCons and the intermediate InputMode0x30 are never entered. */
  predicate Reachable(state: Attachment)
  {
    state in {NotAttached, Dropped, Attached, ImuDataOk}
  }

  /** From a fresh driver, every sequence of calls keeps the state
      reachable, and the driver is detached exactly when no `attach`
      followed the last `detach` that returned. */
  lemma {:induction false} RunInvariant(ops: seq<Op>)
    ensures Reachable(Run(NotAttached, ops))
    ensures Run(NotAttached, ops) != NotAttached <==> AttachedSinceDetach(ops)
    decreases |ops|
  {
    if |ops| > 0 {
      RunInvariant(ops[..|ops| - 1]);
    }
  }

  /** Data arrives only from an attached driver: a step into ImuDataOk
      starts from Attached or ImuDataOk, never from Dropped or
      NotAttached. */
  lemma StepIntoImuDataOk(state: Attachment, op: Op)
    requires Reachable(state) && state != ImuDataOk && Step(state, op) == ImuDataOk
    ensures state == Attached && op.PollOp? && op.messageTime > 0
  {
  }

  /** A dropped connection stays dropped until the next `attach` or
      `detach`: polls do nothing to it. */
  lemma DroppedIgnoresPolls(attempt: nat, messageTime: int)
    ensures PollOutcome(Dropped, attempt, messageTime) == (Dropped, Stop)
  {
  }
}
