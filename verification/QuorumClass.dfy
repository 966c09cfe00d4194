/** The Quorum projection as the object it is: its dicts updated in place. */
module QuorumClass {
  import opened Basics
  import opened Projection
  import opened Ledger
  import opened QuorumModel

  class QuorumProjection {
    const base: BaseProjection
    const codec: Codec
    var requests: map<string, Request>
    var ballots: Book<Ballot>

    function Own(): Quorum
      reads this
    {
      Quorum(requests, ballots)
    }

    function Model(): State<Quorum>
      reads this, base
    {
      State(base.Fields(), Own())
    }

    ghost predicate Valid() { base.mode == MODE_QUORUM && base.parseCommitment == codec.commitment }

    constructor (codec: Codec)
      ensures Valid() && fresh(base) && this.codec == codec && Model() == Initial()
    {
      this.codec := codec;
      base := new BaseProjection(MODE_QUORUM, codec.commitment, "Pending");
      requests, ballots := map[], map[];
    }

    method ApplyEnvelope(e: Envelope) returns (raised: bool)
      requires Valid()
      modifies this, base
      ensures (Model(), raised) == Apply(QuorumMode(codec), old(Model()), e)
    {
      var proceed := base.Enter(e);
      if !proceed {
        return false;
      }
      if e.messageType == "Commitment" {
        raised := base.TakeCommitment(e);
      } else {
        raised := ApplyModeMessage(e);
      }
      if raised {
        base.Undo(e);
      }
    }

    /** Parses before it changes anything. */
    method ApplyModeMessage(e: Envelope) returns (raised: bool)
      requires Valid()
      modifies this, base
      ensures match Handle(codec, old(Own()), old(base.phase), e)
        case Raised => raised && Model() == old(Model())
        case Done(own, phase, anomaly) =>
          && !raised && Own() == own
          && base.Fields() == old(base.Fields()).(
            phase := SetPhase(old(base.phase), phase),
            anomalies := old(base.anomalies) + if anomaly.Some? then [anomaly.value] else [])
    {
      raised := false;
      if e.messageType == "ApprovalRequest" {
        var payload := codec.request(e.payload);
        if payload.None? {
          return true;
        }
        var p := payload.value;
        requests := requests[p.requestId := Request(p.requestId, p.action, p.summary, p.requiredApprovals, e.sender)];
        base.AssignPhase("Voting");
      } else if e.messageType == "Approve" {
        var payload := codec.approve(e.payload);
        if payload.None? {
          return true;
        }
        CastBallot(e, payload.value.requestId, "approve", payload.value.reason);
      } else if e.messageType == "Reject" {
        var payload := codec.reject(e.payload);
        if payload.None? {
          return true;
        }
        CastBallot(e, payload.value.requestId, "reject", payload.value.reason);
      } else if e.messageType == "Abstain" {
        var payload := codec.abstain(e.payload);
        if payload.None? {
          return true;
        }
        CastBallot(e, payload.value.requestId, "abstain", payload.value.reason);
      }
    }

    /** `_set_ballot`: the one way in for all three kinds. */
    method CastBallot(e: Envelope, requestId: string, vote: string, reason: string)
      requires Valid()
      modifies this, base
      ensures var effect := SetBallot(codec, old(Own()), e, Ballot(requestId, vote, reason, e.sender));
        && effect.Done? && Own() == effect.own
        && base.Fields() == old(base.Fields()).(
          phase := SetPhase(old(base.phase), effect.phase),
          anomalies := old(base.anomalies) + if effect.anomaly.Some? then [effect.anomaly.value] else [])
    {
      if requestId !in requests {
        return;
      }
      var column := if requestId in ballots then ballots[requestId] else map[];
      if e.sender in column {
        base.RecordAnomaly(DUPLICATE_BALLOT, e, requestId,
          "kept first ballot " + codec.repr(column[e.sender].vote) + "; discarded " + codec.repr(vote));
        return;
      }
      ballots := ballots[requestId := column[e.sender := Ballot(requestId, vote, reason, e.sender)]];
    }
  }
}
