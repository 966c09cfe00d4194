/**
  The Decision projection: proposals, evaluations, objections and first-wins
  votes, with the majority query over them.
 */
module DecisionModel {
  import opened Basics
  import Commitment
  import opened Projection
  import opened Ledger

  const MODE_DECISION := "macp.mode.decision.v1"
  const DUPLICATE_VOTE := "duplicate_vote"

  datatype ProposalPayload = ProposalPayload(proposalId: string, option: string, rationale: string)
  datatype EvaluationPayload =
    EvaluationPayload(proposalId: string, recommendation: string, confidence: real, reason: string)
  datatype ObjectionPayload = ObjectionPayload(proposalId: string, reason: string, severity: string)
  datatype VotePayload = VotePayload(proposalId: string, vote: string, reason: string)

  /** Payload parsing, which may fail, and Python's text functions. */
  datatype Codec = Codec(
    commitment: Bytes -> Option<Commitment.Payload>,
    proposal: Bytes -> Option<ProposalPayload>,
    evaluation: Bytes -> Option<EvaluationPayload>,
    objection: Bytes -> Option<ObjectionPayload>,
    vote: Bytes -> Option<VotePayload>,
    repr: string -> string, strip: string -> string, upper: string -> string)

  datatype Proposal = Proposal(proposalId: string, option: string, rationale: string, sender: string)
  datatype Evaluation =
    Evaluation(proposalId: string, recommendation: string, confidence: real, reason: string, sender: string)
  datatype Objection = Objection(proposalId: string, reason: string, severity: string, sender: string)
  datatype Vote = Vote(proposalId: string, vote: string, reason: string, sender: string)

  type Votes = Book<Vote>

  datatype Decision = Decision(
    proposals: map<string, Proposal>, evaluations: seq<Evaluation>, objections: seq<Objection>, votes: Votes)

  // ----- the handler

  function MakeProposal(p: ProposalPayload, sender: string): Proposal {
    Proposal(p.proposalId, p.option, p.rationale, sender)
  }

  function MakeEvaluation(p: EvaluationPayload, sender: string): Evaluation {
    Evaluation(p.proposalId, p.recommendation, p.confidence, p.reason, sender)
  }

  function MakeObjection(p: ObjectionPayload, sender: string): Objection {
    Objection(p.proposalId, p.reason, if p.severity == "" then "medium" else p.severity, sender)
  }

  function MakeVote(p: VotePayload, sender: string): Vote { Vote(p.proposalId, p.vote, p.reason, sender) }

  function Discarded(c: Codec, e: Envelope, subject: string, kept: string, dropped: string): Anomaly {
    Anomaly(DUPLICATE_VOTE, MODE_DECISION, e.messageType, e.messageId, e.sender, subject,
      "kept first vote " + c.repr(kept) + "; discarded " + c.repr(dropped))
  }

  function HandleVote(c: Codec, own: Decision, e: Envelope, p: VotePayload): Effect<Decision> {
    if p.proposalId !in own.proposals then Done(own, None, None)
    else
      var column := Column(own.votes, p.proposalId);
      if e.sender in column then
        Done(own, None, Some(Discarded(c, e, p.proposalId, column[e.sender].vote, p.vote)))
      else
        Done(own.(votes := own.votes[p.proposalId := column[e.sender := MakeVote(p, e.sender)]]), Some("Voting"), None)
  }

  function Handle(c: Codec, own: Decision, phase: string, e: Envelope): Effect<Decision> {
    if e.messageType == "Proposal" then
      match c.proposal(e.payload)
      case None => Raised
      case Some(p) =>
        Done(own.(proposals := own.proposals[p.proposalId := MakeProposal(p, e.sender)]),
          if phase == "Proposal" then Some("Evaluation") else None, None)
    else if e.messageType == "Evaluation" then
      match c.evaluation(e.payload)
      case None => Raised
      case Some(p) => Done(own.(evaluations := own.evaluations + [MakeEvaluation(p, e.sender)]), Some("Evaluation"), None)
    else if e.messageType == "Objection" then
      match c.objection(e.payload)
      case None => Raised
      case Some(p) => Done(own.(objections := own.objections + [MakeObjection(p, e.sender)]), None, None)
    else if e.messageType == "Vote" then
      match c.vote(e.payload)
      case None => Raised
      case Some(p) => HandleVote(c, own, e, p)
    else Done(own, None, None)
  }

  function DecisionMode(c: Codec): Mode<Decision> {
    Mode(MODE_DECISION, c.commitment, (own, phase, e) => Handle(c, own, phase, e))
  }

  function Initial(): State<Decision> {
    State(Core([], "Proposal", None, {}, []), Decision(map[], [], [], map[]))
  }

  /** Any feed at all, from a new projection. */
  function After(c: Codec, feed: seq<Envelope>): State<Decision> { Run(DecisionMode(c), Initial(), feed) }

  // ----- what a state is, in terms of its transcript

  function Act(c: Codec, e: Envelope): Act<Vote> {
    if e.messageType == "Proposal" && c.proposal(e.payload).Some? then Opens(c.proposal(e.payload).value.proposalId)
    else if e.messageType == "Vote" && c.vote(e.payload).Some? then
      var p := c.vote(e.payload).value;
      Casts(p.proposalId, e.sender, MakeVote(p, e.sender))
    else Neither
  }

  function VoteActs(c: Codec, transcript: seq<Envelope>): seq<Act<Vote>> { Acts(transcript, e => Act(c, e)) }

  function ProposalOf(c: Codec, e: Envelope): Option<(string, Proposal)> {
    if e.messageType == "Proposal" && c.proposal(e.payload).Some? then
      var p := c.proposal(e.payload).value;
      Some((p.proposalId, MakeProposal(p, e.sender)))
    else None
  }

  function EvaluationOf(c: Codec, e: Envelope): Option<Evaluation> {
    if e.messageType == "Evaluation" && c.evaluation(e.payload).Some? then
      Some(MakeEvaluation(c.evaluation(e.payload).value, e.sender))
    else None
  }

  function ObjectionOf(c: Codec, e: Envelope): Option<Objection> {
    if e.messageType == "Objection" && c.objection(e.payload).Some? then
      Some(MakeObjection(c.objection(e.payload).value, e.sender))
    else None
  }

  ghost predicate IsLedger(c: Codec, s: State<Decision>) {
    Keep(VoteActs(c, s.core.transcript)) == Ledger(s.own.proposals.Keys, s.own.votes, |s.core.anomalies|)
  }

  lemma LedgerStep(c: Codec, s: State<Decision>, e: Envelope)
    requires IsLedger(c, s)
    ensures IsLedger(c, Apply(DecisionMode(c), s, e).0)
  {
    hide Keep, Acts;
    var mode := DecisionMode(c);
    KeptOrDropped(mode, s, e);
    if Apply(mode, s, e).0 != s {
      ActsNext(s.core.transcript, e' => Act(c, e'), e);
    }
  }

  lemma {:induction false} RunIsLedger(c: Codec, feed: seq<Envelope>)
    ensures IsLedger(c, After(c, feed))
  {
    if feed == [] {
      assert VoteActs(c, []) == [];
    } else {
      RunIsLedger(c, feed[..|feed| - 1]);
      LedgerStep(c, After(c, feed[..|feed| - 1]), feed[|feed| - 1]);
    }
  }

  /**
    In every reachable state the vote recorded for a proposal and a sender is the
    first in the transcript after the proposal was known, and there is one
    whenever there was such a vote.
   */
  lemma FirstVoteStands(c: Codec, feed: seq<Envelope>, proposalId: string, sender: string, vote: Vote)
    ensures var s := After(c, feed); var acts := VoteActs(c, s.core.transcript);
      Holds(s.own.votes, proposalId, sender, vote) <==>
        exists i: nat :: FirstAt(acts, i, proposalId, sender) && acts[i].value == vote
  {
    RunIsLedger(c, feed);
    FirstWins(VoteActs(c, After(c, feed).core.transcript), proposalId, sender, vote);
  }

  /** Votes on known proposals are recorded or reported as anomalies. */
  lemma NoVoteLost(c: Codec, feed: seq<Envelope>)
    ensures var s := After(c, feed);
      CastCount(VoteActs(c, s.core.transcript)) == |Entries(s.own.votes)| + |s.core.anomalies|
  {
    RunIsLedger(c, feed);
    NothingLost(VoteActs(c, After(c, feed).core.transcript));
  }

  function Proposals(c: Codec, transcript: seq<Envelope>): map<string, Proposal> {
    Overwritten(Collect(transcript, e => ProposalOf(c, e)))
  }

  function Evaluations(c: Codec, transcript: seq<Envelope>): seq<Evaluation> {
    Collect(transcript, e => EvaluationOf(c, e))
  }

  function Objections(c: Codec, transcript: seq<Envelope>): seq<Objection> {
    Collect(transcript, e => ObjectionOf(c, e))
  }

  lemma RecordsNext(c: Codec, transcript: seq<Envelope>, e: Envelope)
    ensures Proposals(c, transcript + [e]) ==
      match ProposalOf(c, e) case None => Proposals(c, transcript) case Some(r) => Proposals(c, transcript)[r.0 := r.1]
    ensures Evaluations(c, transcript + [e]) ==
      Evaluations(c, transcript) + match EvaluationOf(c, e) case None => [] case Some(r) => [r]
    ensures Objections(c, transcript + [e]) ==
      Objections(c, transcript) + match ObjectionOf(c, e) case None => [] case Some(r) => [r]
  {
    hide Collect, Overwritten, ProposalOf, EvaluationOf, ObjectionOf;
    var f := (e: Envelope) => ProposalOf(c, e);
    CollectNext(transcript, f, e);
    CollectNext(transcript, e => EvaluationOf(c, e), e);
    CollectNext(transcript, e => ObjectionOf(c, e), e);
    assert Proposals(c, transcript + [e]) == Overwritten(Collect(transcript + [e], f));
    if ProposalOf(c, e).Some? {
      OverwrittenNext(Collect(transcript, f), ProposalOf(c, e).value);
    } else {
      assert Collect(transcript, f) + [] == Collect(transcript, f);
    }
  }

  ghost predicate KeepsRecords(c: Codec, s: State<Decision>) {
    && s.own.proposals == Proposals(c, s.core.transcript)
    && s.own.evaluations == Evaluations(c, s.core.transcript)
    && s.own.objections == Objections(c, s.core.transcript)
  }

  /** What one message adds. */
  lemma RecordAdded(c: Codec, own: Decision, phase: string, e: Envelope)
    requires e.messageType == "Commitment" || Handle(c, own, phase, e).Done?
    ensures var next := if e.messageType == "Commitment" then own else Handle(c, own, phase, e).own;
      && next.proposals == (match ProposalOf(c, e) case None => own.proposals case Some(r) => own.proposals[r.0 := r.1])
      && next.evaluations == own.evaluations + (match EvaluationOf(c, e) case None => [] case Some(r) => [r])
      && next.objections == own.objections + (match ObjectionOf(c, e) case None => [] case Some(r) => [r])
  {
  }

  lemma RecordsStep(c: Codec, s: State<Decision>, e: Envelope)
    requires KeepsRecords(c, s)
    ensures KeepsRecords(c, Apply(DecisionMode(c), s, e).0)
  {
    hide Apply, Handle, Proposals, Evaluations, Objections, ProposalOf, EvaluationOf, ObjectionOf;
    var mode := DecisionMode(c);
    if Apply(mode, s, e).0 != s {
      Effects(mode, s, e);
      RecordAdded(c, s.own, s.core.phase, e);
      RecordsNext(c, s.core.transcript, e);
    }
  }

  /** Proposals are the latest of each id; evaluations and objections are all kept, in order. */
  lemma {:induction false} RecordsKept(c: Codec, feed: seq<Envelope>)
    ensures KeepsRecords(c, After(c, feed))
  {
    if feed != [] {
      RecordsKept(c, feed[..|feed| - 1]);
      RecordsStep(c, After(c, feed[..|feed| - 1]), feed[|feed| - 1]);
    }
  }

  ghost predicate PhaseRight(s: State<Decision>) {
    && (s.core.phase != COMMITTED ==>
      (s.core.phase == "Proposal" <==> s.own.proposals.Keys == {} && s.own.evaluations == []))
    && (s.core.phase == "Voting" ==> s.own.votes.Keys != {})
  }

  ghost predicate PhaseFits(own: Decision, phase: string) {
    && (phase == "Proposal" <==> own.proposals.Keys == {} && own.evaluations == [])
    && (phase == "Voting" ==> own.votes.Keys != {})
  }

  /** What one message that is not a commitment does to the phase. */
  lemma HandledPhase(c: Codec, own: Decision, phase: string, e: Envelope)
    requires Handle(c, own, phase, e).Done? && PhaseFits(own, phase)
    ensures var effect := Handle(c, own, phase, e);
      PhaseFits(effect.own, if effect.phase.None? then phase else effect.phase.value)
  {
    hide Discarded, MakeProposal, MakeEvaluation, MakeObjection, MakeVote;
    var after := Handle(c, own, phase, e).own;
    if c.proposal(e.payload).Some? && after.proposals != own.proposals {
      assert c.proposal(e.payload).value.proposalId in after.proposals.Keys;
    }
    if c.vote(e.payload).Some? && after.votes != own.votes {
      assert c.vote(e.payload).value.proposalId in after.votes.Keys;
    }
  }

  lemma PhaseStep(c: Codec, s: State<Decision>, e: Envelope)
    requires PhaseRight(s)
    ensures PhaseRight(Apply(DecisionMode(c), s, e).0)
  {
    hide Apply, Handle;
    var mode := DecisionMode(c);
    if Apply(mode, s, e).0 != s {
      Effects(mode, s, e);
      if e.messageType == "Commitment" {
        CommitmentCommits(mode, s, e);
      } else if s.core.phase != COMMITTED {
        HandledPhase(c, s.own, s.core.phase, e);
      }
    }
  }

  /** While uncommitted, the phase is the initial one exactly until a proposal or evaluation; voting needs a vote. */
  lemma {:induction false} PhaseTold(c: Codec, feed: seq<Envelope>)
    ensures PhaseRight(After(c, feed))
  {
    if feed != [] {
      PhaseTold(c, feed[..|feed| - 1]);
      PhaseStep(c, After(c, feed[..|feed| - 1]), feed[|feed| - 1]);
    }
  }

  /** A first proposal or any evaluation asks for "Evaluation", a sender's first vote on a known proposal for "Voting". */
  function PhaseAsked(c: Codec, own: Decision, phase: string, e: Envelope): Option<string> {
    match e.messageType
    case "Proposal" => if c.proposal(e.payload).Some? && phase == "Proposal" then Some("Evaluation") else None
    case "Evaluation" => if c.evaluation(e.payload).Some? then Some("Evaluation") else None
    case "Vote" =>
      var p := c.vote(e.payload);
      if p.Some? && p.value.proposalId in own.proposals && e.sender !in Column(own.votes, p.value.proposalId)
      then Some("Voting")
      else None
    case _ => None
  }

  lemma PhaseAskedRight(c: Codec)
    ensures AsksRight(DecisionMode(c), (own, phase, e) => PhaseAsked(c, own, phase, e)) && NeverCommits(DecisionMode(c))
  {
    hide Discarded;
  }

  /** The phase is the last one asked for, "Proposal" at first, and "Committed" with a commitment. */
  lemma PhaseIsTold(c: Codec, feed: seq<Envelope>)
    ensures var core := After(c, feed).core;
      core.phase == if core.commitment.Some? then "Committed"
        else LastPhase(DecisionMode(c), Initial(), (own, phase, e) => PhaseAsked(c, own, phase, e), core.transcript)
    ensures Initial().core.phase == "Proposal"
  {
    hide Handle, PhaseAsked, Run, LastPhase;
    PhaseAskedRight(c);
    PhaseIsLast(DecisionMode(c), Initial(), (own, phase, e) => PhaseAsked(c, own, phase, e), feed);
  }

  // ----- messages by their words

  lemma ProposalIff(c: Codec, e: Envelope, id: string, r: Proposal)
    ensures ProposalOf(c, e) == Some((id, r)) <==>
      && e.messageType == "Proposal" && r.proposalId == id && r.sender == e.sender
      && c.proposal(e.payload) == Some(ProposalPayload(id, r.option, r.rationale))
  {
  }

  lemma EvaluationIff(c: Codec, e: Envelope, r: Evaluation)
    ensures EvaluationOf(c, e) == Some(r) <==>
      && e.messageType == "Evaluation" && r.sender == e.sender
      && c.evaluation(e.payload) == Some(EvaluationPayload(r.proposalId, r.recommendation, r.confidence, r.reason))
  {
  }

  /** An objection without a severity is a "medium" one. */
  lemma ObjectionIff(c: Codec, e: Envelope, r: Objection)
    ensures ObjectionOf(c, e) == Some(r) <==>
      && e.messageType == "Objection" && r.sender == e.sender && c.objection(e.payload).Some?
      && (var p := c.objection(e.payload).value;
          && p == ObjectionPayload(r.proposalId, r.reason, p.severity)
          && (p.severity == r.severity != "" || (p.severity == "" && r.severity == "medium")))
  {
  }

  lemma ActIff(c: Codec, e: Envelope, id: string, v: Vote)
    ensures Act(c, e) == Casts(id, e.sender, v) <==>
      && e.messageType == "Vote" && v.proposalId == id && v.sender == e.sender
      && c.vote(e.payload) == Some(VotePayload(id, v.vote, v.reason))
    ensures Act(c, e) == Opens(id) <==>
      e.messageType == "Proposal" && c.proposal(e.payload).Some? && c.proposal(e.payload).value.proposalId == id
  {
  }

  /** A second vote on a known proposal is reported with both votes, and nothing else is. */
  lemma SecondVoteReported(c: Codec, s: State<Decision>, e: Envelope)
    ensures var after := Apply(DecisionMode(c), s, e).0; var p := c.vote(e.payload);
      after.core.anomalies == s.core.anomalies +
        if !Ignored(DecisionMode(c), s.core, e) && e.messageType == "Vote" && p.Some?
          && p.value.proposalId in s.own.proposals && e.sender in Column(s.own.votes, p.value.proposalId)
        then
          var kept := Column(s.own.votes, p.value.proposalId)[e.sender];
          [Anomaly("duplicate_vote", "macp.mode.decision.v1", "Vote", e.messageId, e.sender, p.value.proposalId,
            "kept first vote " + c.repr(kept.vote) + "; discarded " + c.repr(p.value.vote))]
        else []
  {
  }

  /** Replay determinism and the final phase, for this mode. */
  lemma DecisionReplays(c: Codec, feed: seq<Envelope>)
    ensures var s := After(c, feed);
      After(c, s.core.transcript) == s && (s.core.phase == COMMITTED <==> s.core.commitment.Some?)
  {
    ReplayDeterminism(DecisionMode(c), Initial(), feed);
    CommittedIff(DecisionMode(c), Initial(), feed);
  }

  // ----- majority

  /** `_is_positive_vote`. */
  predicate IsPositive(c: Codec, vote: string) {
    c.upper(c.strip(vote)) in {"APPROVE", "APPROVED", "YES", "ACCEPT", "ACCEPTED"}
  }

  predicate Abstains(c: Codec, vote: string) { c.upper(vote) == "ABSTAIN" }

  function Approving(c: Codec): Vote -> bool { (v: Vote) => IsPositive(c, v.vote) }

  function NotAbstaining(c: Codec): Vote -> bool { (v: Vote) => !Abstains(c, v.vote) }

  function Senders(column: map<string, Vote>, p: Vote -> bool): set<string> {
    set s | s in column && p(column[s])
  }

  function Approvals(c: Codec, votes: Votes, id: string): nat {
    |Senders(Column(votes, id), Approving(c))|
  }

  function Tagged(id: string, senders: set<string>): set<(string, string)> {
    set s | s in senders :: (id, s)
  }

  /** The votes, by proposal and sender, that are not abstentions. */
  function NonAbstain(c: Codec, votes: Votes, ids: set<string>): set<(string, string)> {
    set id, s | id in ids && id in votes && s in votes[id] && !Abstains(c, votes[id][s].vote) :: (id, s)
  }

  /** More than half of the non-abstain votes, of which there must be some. */
  predicate HasMajority(c: Codec, votes: Votes, id: string) {
    id in votes &&
    var counted := |NonAbstain(c, votes, votes.Keys)|;
    counted > 0 && 2 * Approvals(c, votes, id) > counted
  }

  /** The words that approve. */
  predicate ApprovingWord(w: string) { w == "APPROVE" || w == "APPROVED" || w == "YES" || w == "ACCEPT" || w == "ACCEPTED" }

  /** A proposal has the majority when more than half of the votes that are not "ABSTAIN" are approving words for it. */
  lemma MajorityByWords(c: Codec, votes: Votes, id: string)
    ensures HasMajority(c, votes, id) <==>
      && id in votes
      && (var approving := set s | s in votes[id] && ApprovingWord(c.upper(c.strip(votes[id][s].vote)));
          var counted := set p, s | p in votes && s in votes[p] && c.upper(votes[p][s].vote) != "ABSTAIN" :: (p, s);
          |counted| > 0 && 2 * |approving| > |counted|)
  {
    var counted := set p, s | p in votes && s in votes[p] && c.upper(votes[p][s].vote) != "ABSTAIN" :: (p, s);
    assert NonAbstain(c, votes, votes.Keys) == counted;
    if id in votes {
      var approving := set s | s in votes[id] && ApprovingWord(c.upper(c.strip(votes[id][s].vote)));
      assert Senders(Column(votes, id), Approving(c)) == approving;
    }
  }

  lemma {:induction false} TaggedSize(id: string, senders: set<string>)
    ensures |Tagged(id, senders)| == |senders|
  {
    if senders != {} {
      var s :| s in senders;
      TaggedSize(id, senders - {s});
      assert Tagged(id, senders) == Tagged(id, senders - {s}) + {(id, s)};
      assert (id, s) !in Tagged(id, senders - {s});
    }
  }

  lemma NonAbstainIff(c: Codec, votes: Votes, ids: set<string>, e: (string, string))
    ensures e in NonAbstain(c, votes, ids) <==>
      e.0 in ids && e.0 in votes && e.1 in votes[e.0] && !Abstains(c, votes[e.0][e.1].vote)
  {
  }

  lemma NonAbstainNext(c: Codec, votes: Votes, ids: set<string>, id: string)
    requires id in votes && id !in ids
    ensures |NonAbstain(c, votes, ids + {id})| ==
      |NonAbstain(c, votes, ids)| + |Senders(votes[id], NotAbstaining(c))|
  {
    hide NonAbstain, Abstains;
    var senders := Senders(votes[id], NotAbstaining(c));
    TaggedSize(id, senders);
    forall e: (string, string)
      ensures e in NonAbstain(c, votes, ids + {id}) <==> e in NonAbstain(c, votes, ids) || e in Tagged(id, senders)
      ensures !(e in NonAbstain(c, votes, ids) && e in Tagged(id, senders))
    {
      NonAbstainIff(c, votes, ids + {id}, e);
      NonAbstainIff(c, votes, ids, e);
      assert e in Tagged(id, senders) <==> e.0 == id && e.1 in senders;
    }
    assert NonAbstain(c, votes, ids + {id}) == NonAbstain(c, votes, ids) + Tagged(id, senders);
  }

  /** Stripping changes no text whose capitals spell ABSTAIN: it holds no spaces. */
  ghost predicate TextLaw(c: Codec) {
    forall v :: c.upper(v) == "ABSTAIN" ==> c.strip(v) == v
  }

  /** Approvals are votes that are not abstentions. */
  lemma ApprovalsCounted(c: Codec, votes: Votes, id: string)
    requires id in votes && TextLaw(c)
    ensures var tagged := Tagged(id, Senders(votes[id], Approving(c)));
      |tagged| == Approvals(c, votes, id) && tagged <= NonAbstain(c, votes, votes.Keys)
      && |tagged| <= |NonAbstain(c, votes, votes.Keys)|
  {
    hide NonAbstain;
    var senders := Senders(votes[id], Approving(c));
    TaggedSize(id, senders);
    forall e | e in Tagged(id, senders)
      ensures e in NonAbstain(c, votes, votes.Keys)
    {
      NonAbstainIff(c, votes, votes.Keys, e);
    }
    SubsetSize(Tagged(id, senders), NonAbstain(c, votes, votes.Keys));
  }

  /** At most one proposal has a majority, so the order of the dict does not matter. */
  lemma MajorityUnique(c: Codec, votes: Votes, a: string, b: string)
    requires TextLaw(c) && HasMajority(c, votes, a) && HasMajority(c, votes, b)
    ensures a == b
  {
    hide NonAbstain, Approvals;
    if a != b {
      ApprovalsCounted(c, votes, a);
      ApprovalsCounted(c, votes, b);
      var x := Tagged(a, Senders(votes[a], Approving(c)));
      var y := Tagged(b, Senders(votes[b], Approving(c)));
      assert x * y == {};
      SubsetSize(x + y, NonAbstain(c, votes, votes.Keys));
    }
  }
}
