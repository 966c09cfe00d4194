/**
  The Decision projection as the object it is: its fields updated in place, and
  its vote queries. Dicts are walked in an arbitrary order.
 */
module DecisionClass {
  import opened Basics
  import opened Projection
  import opened DecisionModel

  class DecisionProjection {
    const base: BaseProjection
    const codec: Codec
    var proposals: map<string, Proposal>
    var evaluations: seq<Evaluation>
    var objections: seq<Objection>
    var votes: Votes

    function Own(): Decision
      reads this
    {
      Decision(proposals, evaluations, objections, votes)
    }

    function Model(): State<Decision>
      reads this, base
    {
      State(base.Fields(), Own())
    }

    ghost predicate Valid() { base.mode == MODE_DECISION && base.parseCommitment == codec.commitment }

    constructor (codec: Codec)
      ensures Valid() && fresh(base) && this.codec == codec && Model() == Initial()
    {
      this.codec := codec;
      base := new BaseProjection(MODE_DECISION, codec.commitment, "Proposal");
      proposals, evaluations, objections, votes := map[], [], [], map[];
    }

    method ApplyEnvelope(e: Envelope) returns (raised: bool)
      requires Valid()
      modifies this, base
      ensures (Model(), raised) == Apply(DecisionMode(codec), old(Model()), e)
    {
      var proceed := base.Enter(e);
      if !proceed {
        return false;
      }
      if e.messageType == "Commitment" {
        raised := base.TakeCommitment(e);
      } else {
        raised := ApplyModeMessage(e);
      }
      if raised {
        base.Undo(e);
      }
    }

    /** Parses before it changes anything. */
    method ApplyModeMessage(e: Envelope) returns (raised: bool)
      requires Valid()
      modifies this, base
      ensures match Handle(codec, old(Own()), old(base.phase), e)
        case Raised => raised && Model() == old(Model())
        case Done(own, phase, anomaly) =>
          && !raised && Own() == own
          && base.Fields() == old(base.Fields()).(
            phase := SetPhase(old(base.phase), phase),
            anomalies := old(base.anomalies) + if anomaly.Some? then [anomaly.value] else [])
    {
      raised := false;
      if e.messageType == "Proposal" {
        var payload := codec.proposal(e.payload);
        if payload.None? {
          return true;
        }
        var p := payload.value;
        proposals := proposals[p.proposalId := Proposal(p.proposalId, p.option, p.rationale, e.sender)];
        if base.phase == "Proposal" {
          base.AssignPhase("Evaluation");
        }
      } else if e.messageType == "Evaluation" {
        var payload := codec.evaluation(e.payload);
        if payload.None? {
          return true;
        }
        var p := payload.value;
        evaluations := evaluations
          + [Evaluation(p.proposalId, p.recommendation, p.confidence, p.reason, e.sender)];
        base.AssignPhase("Evaluation");
      } else if e.messageType == "Objection" {
        var payload := codec.objection(e.payload);
        if payload.None? {
          return true;
        }
        var p := payload.value;
        var severity := if p.severity != "" then p.severity else "medium";
        objections := objections + [Objection(p.proposalId, p.reason, severity, e.sender)];
      } else if e.messageType == "Vote" {
        var payload := codec.vote(e.payload);
        if payload.None? {
          return true;
        }
        ApplyVote(e, payload.value);
      }
    }

    method ApplyVote(e: Envelope, p: VotePayload)
      requires Valid()
      modifies this, base
      ensures var effect := HandleVote(codec, old(Own()), e, p);
        && effect.Done? && Own() == effect.own
        && base.Fields() == old(base.Fields()).(
          phase := SetPhase(old(base.phase), effect.phase),
          anomalies := old(base.anomalies) + if effect.anomaly.Some? then [effect.anomaly.value] else [])
    {
      if p.proposalId !in proposals {
        return;
      }
      var column := if p.proposalId in votes then votes[p.proposalId] else map[];
      if e.sender in column {
        base.RecordAnomaly(DUPLICATE_VOTE, e, p.proposalId,
          "kept first vote " + codec.repr(column[e.sender].vote) + "; discarded " + codec.repr(p.vote));
        return;
      }
      votes := votes[p.proposalId := column[e.sender := Vote(p.proposalId, p.vote, p.reason, e.sender)]];
      base.AssignPhase("Voting");
    }

    // ----- queries

    method VoteTotals() returns (totals: map<string, nat>)
      ensures totals.Keys == votes.Keys
      ensures forall id | id in votes :: totals[id] == Approvals(codec, votes, id)
    {
      totals := map[];
      var left := votes.Keys;
      while left != {}
        invariant left <= votes.Keys && totals.Keys == votes.Keys - left
        invariant forall id | id in totals :: totals[id] == Approvals(codec, votes, id)
      {
        var id :| id in left;
        left := left - {id};
        var count := CountWhere(votes[id], Approving(codec));
        totals := totals[id := count];
      }
    }

    /** The proposal with more than half of all non-abstain votes, if there is one. */
    method MajorityWinner() returns (winner: Option<string>)
      ensures winner.Some? ==> HasMajority(codec, votes, winner.value)
      ensures winner.None? ==> forall id :: !HasMajority(codec, votes, id)
    {
      var totals := VoteTotals();
      if totals == map[] {
        assert votes.Keys == {};
        return None;
      }
      var nonAbstain := CountNonAbstain();
      if nonAbstain == 0 {
        return None;
      }
      var left := totals.Keys;
      while left != {}
        invariant left <= votes.Keys
        invariant forall id | id in votes.Keys - left :: !HasMajority(codec, votes, id)
      {
        var id :| id in left;
        left := left - {id};
        if 2 * totals[id] > nonAbstain {
          return Some(id);
        }
      }
      winner := None;
    }

    method CountNonAbstain() returns (count: nat)
      ensures count == |NonAbstain(codec, votes, votes.Keys)|
    {
      count := 0;
      var left := votes.Keys;
      while left != {}
        invariant left <= votes.Keys && count == |NonAbstain(codec, votes, votes.Keys - left)|
      {
        var id :| id in left;
        var more := CountWhere(votes[id], NotAbstaining(codec));
        NonAbstainNext(codec, votes, votes.Keys - left, id);
        assert votes.Keys - (left - {id}) == votes.Keys - left + {id};
        left := left - {id};
        count := count + more;
      }
      assert votes.Keys - left == votes.Keys;
    }
  }

  /** How many of a proposal's votes satisfy `p`. */
  method CountWhere(column: map<string, Vote>, p: Vote -> bool) returns (count: nat)
    ensures count == |Senders(column, p)|
  {
    count := 0;
    var left := column.Keys;
    assert Senders(column, p) - left == {};
    while left != {}
      invariant left <= column.Keys && count == |Senders(column, p) - left|
    {
      var s :| s in left;
      SendersNext(column, p, left, s);
      left := left - {s};
      if p(column[s]) {
        count := count + 1;
      }
    }
    assert Senders(column, p) - left == Senders(column, p);
  }

  lemma SendersNext(column: map<string, Vote>, p: Vote -> bool, left: set<string>, s: string)
    requires s in left && left <= column.Keys
    ensures |Senders(column, p) - (left - {s})| == |Senders(column, p) - left| + if p(column[s]) then 1 else 0
  {
    var before, after := Senders(column, p) - left, Senders(column, p) - (left - {s});
    assert after == before + if p(column[s]) then {s} else {};
  }
}
