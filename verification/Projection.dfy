/**
  The base projection: one envelope at a time from an at-least-once feed, with
  deduplication by message id, a transcript, rollback when a handler raises, and
  a phase that a commitment makes final.
 */
module Projection {
  import opened Basics
  import Commitment

  const COMMITTED := "Committed"

  datatype Envelope = Envelope(
    mode: string, messageType: string, messageId: string, sessionId: string, sender: string, payload: Bytes)

  datatype Anomaly = Anomaly(
    kind: string, mode: string, messageType: string, messageId: string,
    sender: string, subjectId: string, detail: string)

  /** The fields every projection has. */
  datatype Core = Core(
    transcript: seq<Envelope>, phase: string, commitment: Option<Commitment.Payload>,
    seen: set<string>, anomalies: seq<Anomaly>)

  /** A projection: those fields and its mode's own. */
  datatype State<M> = State(core: Core, own: M)

  /** What a mode handler does with a message: it raises, or updates its fields and may ask for a phase. */
  datatype Effect<M> = Raised | Done(own: M, phase: Option<string>, anomaly: Option<Anomaly>)

  datatype Mode<!M> = Mode(
    name: string,
    parseCommitment: Bytes -> Option<Commitment.Payload>,
    handle: (M, string, Envelope) -> Effect<M>)

  // ----- one envelope

  /** `_set_phase`: a committed projection keeps its phase. */
  function SetPhase(phase: string, request: Option<string>): string {
    if request.None? || phase == COMMITTED then phase else request.value
  }

  /** The id enters the dedup set and the envelope the transcript, before anything can raise. */
  function Entered(core: Core, e: Envelope): Core {
    core.(transcript := core.transcript + [e], seen := if e.messageId == "" then core.seen else core.seen + {e.messageId})
  }

  /** What the exception handler undoes: the envelope, if it is the last entry, and its id. */
  function Undone(core: Core, e: Envelope): Core {
    var n := |core.transcript|;
    core.(transcript := if n > 0 && core.transcript[n - 1] == e then core.transcript[..n - 1] else core.transcript,
          seen := if e.messageId == "" then core.seen else core.seen - {e.messageId})
  }

  predicate Ignored<M>(mode: Mode<M>, core: Core, e: Envelope) {
    e.mode != mode.name || (e.messageId != "" && e.messageId in core.seen)
  }

  /** The state after an envelope, and whether applying it raised. */
  function Apply<M>(mode: Mode<M>, p: State<M>, e: Envelope): (State<M>, bool) {
    if Ignored(mode, p.core, e) then (p, false)
    else
      var core := Entered(p.core, e);
      if e.messageType == "Commitment" then
        match mode.parseCommitment(e.payload)
        case None => (p.(core := Undone(core, e)), true)
        case Some(payload) => (p.(core := core.(commitment := Some(payload), phase := COMMITTED)), false)
      else
        match mode.handle(p.own, core.phase, e)
        case Raised => (p.(core := Undone(core, e)), true)
        case Done(own, phase, anomaly) =>
          (State(core.(phase := SetPhase(core.phase, phase),
                       anomalies := core.anomalies + if anomaly.Some? then [anomaly.value] else []), own), false)
  }

  /** A feed, whatever it holds and however often it repeats. */
  function Run<M>(mode: Mode<M>, p: State<M>, feed: seq<Envelope>): State<M> {
    if feed == [] then p
    else Apply(mode, Run(mode, p, feed[..|feed| - 1]), feed[|feed| - 1]).0
  }

  lemma RunNone<M>(mode: Mode<M>, p: State<M>)
    ensures Run(mode, p, []) == p
  {
  }

  lemma RunNext<M>(mode: Mode<M>, p: State<M>, feed: seq<Envelope>, e: Envelope)
    ensures Run(mode, p, feed + [e]) == Apply(mode, Run(mode, p, feed), e).0
  {
    assert (feed + [e])[..|feed|] == feed;
  }

  // ----- failure

  /** A failed apply leaves nothing behind, so the same envelope can be retried. */
  lemma FailureUndone<M>(mode: Mode<M>, p: State<M>, e: Envelope)
    ensures Apply(mode, p, e).1 ==> Apply(mode, p, e).0 == p
  {
    if !Ignored(mode, p.core, e) {
      var core := Entered(p.core, e);
      assert core.transcript[..|core.transcript| - 1] == p.core.transcript;
      assert Undone(core, e).seen == p.core.seen;
    }
  }

  /** An envelope is dropped without a trace, or recorded in the transcript and applied. */
  lemma KeptOrDropped<M>(mode: Mode<M>, p: State<M>, e: Envelope)
    ensures var after := Apply(mode, p, e).0;
      after == p || (!Ignored(mode, p.core, e) && !Apply(mode, p, e).1
        && after.core.transcript == p.core.transcript + [e] && after.core.seen == Entered(p.core, e).seen)
  {
    FailureUndone(mode, p, e);
  }

  /** What a recorded envelope does: a commitment leaves the mode's fields alone, a mode message is handled. */
  lemma Effects<M>(mode: Mode<M>, p: State<M>, e: Envelope)
    requires Apply(mode, p, e).0 != p
    ensures var after := Apply(mode, p, e).0;
      && after.core.transcript == p.core.transcript + [e]
      && (e.messageType == "Commitment" ==> after.own == p.own && after.core.anomalies == p.core.anomalies)
      && (e.messageType != "Commitment" ==>
        (var effect := mode.handle(p.own, p.core.phase, e);
        effect.Done? && after.own == effect.own && after.core.phase == SetPhase(p.core.phase, effect.phase)
        && after.core.anomalies == p.core.anomalies + if effect.anomaly.Some? then [effect.anomaly.value] else []))
  {
    FailureUndone(mode, p, e);
  }

  // ----- whole runs

  ghost predicate Fresh<M>(p: State<M>) {
    p.core.transcript == [] && p.core.seen == {} && p.core.anomalies == [] && p.core.commitment == None
    && p.core.phase != COMMITTED
  }

  /**
    Replay determinism: a fresh projection fed only the transcript ends in the same
    state as one fed everything, with its redeliveries, foreign modes and failures.
   */
  lemma {:induction false} ReplayDeterminism<M>(mode: Mode<M>, p: State<M>, feed: seq<Envelope>)
    requires Fresh(p)
    ensures Run(mode, p, Run(mode, p, feed).core.transcript) == Run(mode, p, feed)
  {
    if feed != [] {
      var init, last := feed[..|feed| - 1], feed[|feed| - 1];
      var before := Run(mode, p, init);
      ReplayDeterminism(mode, p, init);
      KeptOrDropped(mode, before, last);
      if Apply(mode, before, last).0 != before {
        RunNext(mode, p, before.core.transcript, last);
      }
    }
  }

  /** The ids of a transcript that count as identities. */
  ghost predicate IdsSeen(core: Core) {
    && (forall i | 0 <= i < |core.transcript| && core.transcript[i].messageId != "" ::
          core.transcript[i].messageId in core.seen)
    && (forall id | id in core.seen ::
          id != "" && exists i :: 0 <= i < |core.transcript| && core.transcript[i].messageId == id)
  }

  ghost predicate IdsDistinct(transcript: seq<Envelope>) {
    forall i, j | 0 <= i < j < |transcript| && transcript[i].messageId != "" ::
      transcript[i].messageId != transcript[j].messageId
  }

  ghost predicate AllOf<M>(mode: Mode<M>, transcript: seq<Envelope>) {
    forall i | 0 <= i < |transcript| :: transcript[i].mode == mode.name
  }

  /** No identity is in the transcript twice, and nothing of another mode is in it at all. */
  lemma {:induction false} TranscriptDistinct<M>(mode: Mode<M>, p: State<M>, feed: seq<Envelope>)
    requires Fresh(p)
    ensures var core := Run(mode, p, feed).core;
      IdsSeen(core) && IdsDistinct(core.transcript) && AllOf(mode, core.transcript)
  {
    if feed != [] {
      var init, last := feed[..|feed| - 1], feed[|feed| - 1];
      TranscriptDistinct(mode, p, init);
      Recorded(mode, Run(mode, p, init), last);
    }
  }

  lemma Recorded<M>(mode: Mode<M>, p: State<M>, e: Envelope)
    requires IdsSeen(p.core) && IdsDistinct(p.core.transcript) && AllOf(mode, p.core.transcript)
    ensures var core := Apply(mode, p, e).0.core;
      IdsSeen(core) && IdsDistinct(core.transcript) && AllOf(mode, core.transcript)
  {
    hide Apply;
    KeptOrDropped(mode, p, e);
    var core := Apply(mode, p, e).0.core;
    if Apply(mode, p, e).0 != p {
      var n := |p.core.transcript|;
      assert core.transcript[n] == e;
      assert forall i | 0 <= i < n :: core.transcript[i] == p.core.transcript[i];
      forall id | id in core.seen
        ensures id != "" && exists i :: 0 <= i < |core.transcript| && core.transcript[i].messageId == id
      {
        if id in p.core.seen {
          var i :| 0 <= i < n && p.core.transcript[i].messageId == id;
          assert core.transcript[i].messageId == id;
        } else {
          assert core.transcript[n].messageId == id;
        }
      }
    }
  }

  /** Applying the message raises: a commitment that does not parse, or a mode message its handler refuses. */
  predicate Raises<M>(mode: Mode<M>, p: State<M>, e: Envelope) {
    if e.messageType == "Commitment" then mode.parseCommitment(e.payload).None?
    else mode.handle(p.own, p.core.phase, e).Raised?
  }

  /**
    What gets into the transcript, whatever came before: exactly an envelope of the mode,
    with no id or one that no entry has, whose message does not raise.
   */
  lemma EnteredIff<M>(mode: Mode<M>, p: State<M>, feed: seq<Envelope>, e: Envelope)
    requires Fresh(p)
    ensures var before, after := Run(mode, p, feed), Run(mode, p, feed + [e]);
      var isNew := e.messageId == "" || forall i | 0 <= i < |before.core.transcript| ::
        before.core.transcript[i].messageId != e.messageId;
      after.core.transcript == before.core.transcript +
        if e.mode == mode.name && isNew && !Raises(mode, before, e) then [e] else []
  {
    hide Run;
    RunNext(mode, p, feed, e);
    TranscriptDistinct(mode, p, feed);
    var before := Run(mode, p, feed);
    assert before.core.transcript + [] == before.core.transcript;
    FailureUndone(mode, before, e);
    if e.messageId != "" && e.messageId in before.core.seen {
      var i :| 0 <= i < |before.core.transcript| && before.core.transcript[i].messageId == e.messageId;
    }
  }

  /** Delivering again what was already taken changes nothing. */
  lemma {:induction false} RedeliveryIgnored<M>(mode: Mode<M>, p: State<M>, again: seq<Envelope>)
    requires forall i | 0 <= i < |again| :: again[i].messageId != "" && again[i].messageId in p.core.seen
    ensures Run(mode, p, again) == p
  {
    if again != [] {
      RedeliveryIgnored(mode, p, again[..|again| - 1]);
    }
  }

  /** No handler of the mode asks for the final phase. */
  ghost predicate NeverCommits<M(!new)>(mode: Mode<M>) {
    forall own, phase, e ::
      mode.handle(own, phase, e).Done? ==> mode.handle(own, phase, e).phase != Some(COMMITTED)
  }

  /** The phase is "Committed" exactly when there is a commitment. */
  lemma {:induction false} CommittedIff<M(!new)>(mode: Mode<M>, p: State<M>, feed: seq<Envelope>)
    requires Fresh(p) && NeverCommits(mode)
    ensures var core := Run(mode, p, feed).core; core.phase == COMMITTED <==> core.commitment.Some?
  {
    if feed != [] {
      CommittedIff(mode, p, feed[..|feed| - 1]);
      FailureUndone(mode, Run(mode, p, feed[..|feed| - 1]), feed[|feed| - 1]);
    }
  }

  /** Once set, a commitment can only be replaced by another. */
  lemma {:induction false} CommitmentStays<M(!new)>(mode: Mode<M>, p: State<M>, feed: seq<Envelope>)
    requires p.core.commitment.Some? && p.core.phase == COMMITTED
    ensures var core := Run(mode, p, feed).core; core.phase == COMMITTED && core.commitment.Some?
  {
    if feed != [] {
      CommitmentStays(mode, p, feed[..|feed| - 1]);
    }
  }

  // ----- the phase, from the transcript

  /** Asked of a mode's fields, the phase so far and a message: the phase it moves to, if any. */
  type Asks<!M> = (M, string, Envelope) -> Option<string>

  /** The phase the latest message of a transcript that asks for one asks for, from `p` on. */
  ghost function LastPhase<M>(mode: Mode<M>, p: State<M>, asks: Asks<M>, transcript: seq<Envelope>): string {
    if transcript == [] then p.core.phase
    else
      var init, e := transcript[..|transcript| - 1], transcript[|transcript| - 1];
      var before := LastPhase(mode, p, asks, init);
      var asked := if e.messageType == "Commitment" then None else asks(Run(mode, p, init).own, before, e);
      if asked.None? then before else asked.value
  }

  lemma LastPhaseNext<M>(mode: Mode<M>, p: State<M>, asks: Asks<M>, transcript: seq<Envelope>, e: Envelope)
    ensures var before := LastPhase(mode, p, asks, transcript);
      var asked := if e.messageType == "Commitment" then None else asks(Run(mode, p, transcript).own, before, e);
      LastPhase(mode, p, asks, transcript + [e]) == if asked.None? then before else asked.value
  {
    assert (transcript + [e])[..|transcript|] == transcript;
  }

  ghost predicate AsksRight<M(!new)>(mode: Mode<M>, asks: Asks<M>) {
    forall own, phase, e :: mode.handle(own, phase, e).Done? ==> mode.handle(own, phase, e).phase == asks(own, phase, e)
  }

  /** While there is no commitment the phase is the last one asked for; with one it is "Committed". */
  lemma {:induction false} PhaseIsLast<M(!new)>(mode: Mode<M>, p: State<M>, asks: Asks<M>, feed: seq<Envelope>)
    requires Fresh(p) && NeverCommits(mode) && AsksRight(mode, asks)
    ensures var core := Run(mode, p, feed).core;
      core.phase == if core.commitment.Some? then "Committed" else LastPhase(mode, p, asks, core.transcript)
  {
    hide Apply, LastPhase, Run;
    CommittedIff(mode, p, feed);
    if feed == [] {
      RunNone(mode, p);
      NoPhase(mode, p, asks);
    } else {
      var init, last := feed[..|feed| - 1], feed[|feed| - 1];
      var before := Run(mode, p, init);
      assert feed == init + [last];
      RunNext(mode, p, init, last);
      PhaseIsLast(mode, p, asks, init);
      CommittedIff(mode, p, init);
      if Apply(mode, before, last).0 != before {
        Effects(mode, before, last);
        CommitmentTaken(mode, before, last);
        ReplayDeterminism(mode, p, init);
        LastPhaseNext(mode, p, asks, before.core.transcript, last);
      }
    }
  }

  lemma NoPhase<M>(mode: Mode<M>, p: State<M>, asks: Asks<M>)
    ensures LastPhase(mode, p, asks, []) == p.core.phase
  {
  }

  lemma CommitmentCommits<M>(mode: Mode<M>, p: State<M>, e: Envelope)
    requires Apply(mode, p, e).0 != p && e.messageType == "Commitment"
    ensures Apply(mode, p, e).0.core.phase == COMMITTED
  {
    FailureUndone(mode, p, e);
  }

  /** A recorded Commitment is taken; any other message leaves the commitment as it is. */
  lemma CommitmentTaken<M>(mode: Mode<M>, p: State<M>, e: Envelope)
    requires Apply(mode, p, e).0 != p
    ensures var after := Apply(mode, p, e).0;
      after.core.commitment ==
        if e.messageType == "Commitment" then mode.parseCommitment(e.payload) else p.core.commitment
    ensures e.messageType == "Commitment" ==> mode.parseCommitment(e.payload).Some?
  {
    FailureUndone(mode, p, e);
  }

  // ----- the mode's fields, from the transcript

  /**
    One thing seen in a mode's fields, told by the transcript alone: what it was at
    first, and what each message makes of it after the messages before.
   */
  ghost function Told<M, X>(
    mode: Mode<M>, p: State<M>, first: X, next: (M, Envelope, X) -> X, transcript: seq<Envelope>): X
  {
    if transcript == [] then first
    else
      var init, e := transcript[..|transcript| - 1], transcript[|transcript| - 1];
      var before := Told(mode, p, first, next, init);
      if e.messageType == "Commitment" then before else next(Run(mode, p, init).own, e, before)
  }

  lemma ToldNext<M, X>(
      mode: Mode<M>, p: State<M>, first: X, next: (M, Envelope, X) -> X, transcript: seq<Envelope>, e: Envelope)
    ensures var before := Told(mode, p, first, next, transcript);
      Told(mode, p, first, next, transcript + [e]) ==
        if e.messageType == "Commitment" then before else next(Run(mode, p, transcript).own, e, before)
  {
    assert (transcript + [e])[..|transcript|] == transcript;
  }

  lemma ToldNothing<M, X>(mode: Mode<M>, p: State<M>, first: X, next: (M, Envelope, X) -> X)
    ensures Told(mode, p, first, next, []) == first
  {
  }

  ghost predicate SeesRight<M(!new), X>(mode: Mode<M>, see: M -> X, next: (M, Envelope, X) -> X) {
    forall own, phase, e ::
      mode.handle(own, phase, e).Done? ==> see(mode.handle(own, phase, e).own) == next(own, e, see(own))
  }

  /** Whatever the feed, what is seen is what the transcript tells. */
  lemma {:induction false} SeenAsTold<M(!new), X>(
      mode: Mode<M>, p: State<M>, see: M -> X, next: (M, Envelope, X) -> X, feed: seq<Envelope>)
    requires Fresh(p) && SeesRight(mode, see, next)
    ensures var s := Run(mode, p, feed); see(s.own) == Told(mode, p, see(p.own), next, s.core.transcript)
  {
    hide Apply, Told, Run;
    if feed == [] {
      RunNone(mode, p);
      ToldNothing(mode, p, see(p.own), next);
    } else {
      var init, last := feed[..|feed| - 1], feed[|feed| - 1];
      var before := Run(mode, p, init);
      assert feed == init + [last];
      RunNext(mode, p, init, last);
      SeenAsTold(mode, p, see, next, init);
      if Apply(mode, before, last).0 != before {
        Effects(mode, before, last);
        ReplayDeterminism(mode, p, init);
        ToldNext(mode, p, see(p.own), next, before.core.transcript, last);
      }
    }
  }

  // ----- the class

  /** Its fields are updated in place by every projection that has one. */
  class BaseProjection {
    const mode: string
    const parseCommitment: Bytes -> Option<Commitment.Payload>
    var transcript: seq<Envelope>
    var phase: string
    var commitment: Option<Commitment.Payload>
    var seen: set<string>
    var anomalies: seq<Anomaly>

    function Fields(): Core
      reads this
    {
      Core(transcript, phase, commitment, seen, anomalies)
    }

    constructor (mode: string, parseCommitment: Bytes -> Option<Commitment.Payload>, phase: string)
      ensures this.mode == mode && this.parseCommitment == parseCommitment
      ensures Fields() == Core([], phase, None, {}, [])
    {
      this.mode := mode;
      this.parseCommitment := parseCommitment;
      this.phase := phase;
      transcript, commitment, seen, anomalies := [], None, {}, [];
    }

    /** The gate of `apply_envelope`: whether the envelope is to be applied, and its entry if so. */
    method Enter(e: Envelope) returns (proceed: bool)
      modifies this
      ensures proceed <==> !(e.mode != mode || (e.messageId != "" && e.messageId in old(seen)))
      ensures Fields() == if proceed then Entered(old(Fields()), e) else old(Fields())
    {
      if e.mode != mode {
        return false;
      }
      if e.messageId != "" {
        if e.messageId in seen {
          return false;
        }
        seen := seen + {e.messageId};
      }
      transcript := transcript + [e];
      proceed := true;
    }

    method TakeCommitment(e: Envelope) returns (raised: bool)
      modifies this
      ensures raised <==> parseCommitment(e.payload).None?
      ensures Fields() == if raised then old(Fields())
        else old(Fields()).(commitment := parseCommitment(e.payload), phase := COMMITTED)
    {
      var payload := parseCommitment(e.payload);
      if payload.None? {
        return true;
      }
      commitment := payload;
      phase := COMMITTED;
      raised := false;
    }

    /** The rollback: only the entry this call made. */
    method Undo(e: Envelope)
      modifies this
      ensures Fields() == Undone(old(Fields()), e)
    {
      if transcript != [] && transcript[|transcript| - 1] == e {
        transcript := transcript[..|transcript| - 1];
      }
      if e.messageId != "" {
        seen := seen - {e.messageId};
      }
    }

    method AssignPhase(request: string)
      modifies this
      ensures Fields() == old(Fields()).(phase := SetPhase(old(phase), Some(request)))
    {
      if phase == COMMITTED {
        return;
      }
      phase := request;
    }

    method RecordAnomaly(kind: string, e: Envelope, subjectId: string, detail: string)
      modifies this
      ensures Fields() == old(Fields()).(anomalies := old(anomalies)
        + [Anomaly(kind, mode, e.messageType, e.messageId, e.sender, subjectId, detail)])
    {
      anomalies := anomalies + [Anomaly(kind, mode, e.messageType, e.messageId, e.sender, subjectId, detail)];
    }
  }
}
