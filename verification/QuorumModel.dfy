/**
  The Quorum projection: approval requests, first-wins ballots, and the readiness
  queries over them, with what those queries foretell.
 */
module QuorumModel {
  import opened Basics
  import Commitment
  import opened Projection
  import opened Ledger

  const MODE_QUORUM := "macp.mode.quorum.v1"
  const DUPLICATE_BALLOT := "duplicate_ballot"

  datatype RequestPayload = RequestPayload(requestId: string, action: string, summary: string, requiredApprovals: nat)
  datatype BallotPayload = BallotPayload(requestId: string, reason: string)

  /** Payload parsing, which may fail, and Python's `repr`. */
  datatype Codec = Codec(
    commitment: Bytes -> Option<Commitment.Payload>,
    request: Bytes -> Option<RequestPayload>,
    approve: Bytes -> Option<BallotPayload>,
    reject: Bytes -> Option<BallotPayload>,
    abstain: Bytes -> Option<BallotPayload>,
    repr: string -> string)

  datatype Request =
    Request(requestId: string, action: string, summary: string, requiredApprovals: nat, sender: string)
  datatype Ballot = Ballot(requestId: string, vote: string, reason: string, sender: string)

  datatype Quorum = Quorum(requests: map<string, Request>, ballots: Book<Ballot>)

  // ----- the handler

  function MakeRequest(p: RequestPayload, sender: string): Request {
    Request(p.requestId, p.action, p.summary, p.requiredApprovals, sender)
  }

  function MakeBallot(p: BallotPayload, vote: string, sender: string): Ballot {
    Ballot(p.requestId, vote, p.reason, sender)
  }

  function Discarded(c: Codec, e: Envelope, subject: string, kept: string, dropped: string): Anomaly {
    Anomaly(DUPLICATE_BALLOT, MODE_QUORUM, e.messageType, e.messageId, e.sender, subject,
      "kept first ballot " + c.repr(kept) + "; discarded " + c.repr(dropped))
  }

  /** `_set_ballot`. */
  function SetBallot(c: Codec, own: Quorum, e: Envelope, ballot: Ballot): Effect<Quorum> {
    if ballot.requestId !in own.requests then Done(own, None, None)
    else
      var column := Column(own.ballots, ballot.requestId);
      if e.sender in column then
        Done(own, None, Some(Discarded(c, e, ballot.requestId, column[e.sender].vote, ballot.vote)))
      else Done(own.(ballots := own.ballots[ballot.requestId := column[e.sender := ballot]]), None, None)
  }

  /** The ballot a message carries, if it is one and parses. */
  function BallotOf(c: Codec, e: Envelope): Option<Ballot> {
    if e.messageType == "Approve" then
      var p :- c.approve(e.payload);
      Some(MakeBallot(p, "approve", e.sender))
    else if e.messageType == "Reject" then
      var p :- c.reject(e.payload);
      Some(MakeBallot(p, "reject", e.sender))
    else if e.messageType == "Abstain" then
      var p :- c.abstain(e.payload);
      Some(MakeBallot(p, "abstain", e.sender))
    else None
  }

  predicate IsBallotType(t: string) { t == "Approve" || t == "Reject" || t == "Abstain" }

  function Handle(c: Codec, own: Quorum, phase: string, e: Envelope): Effect<Quorum> {
    if e.messageType == "ApprovalRequest" then
      match c.request(e.payload)
      case None => Raised
      case Some(p) => Done(own.(requests := own.requests[p.requestId := MakeRequest(p, e.sender)]), Some("Voting"), None)
    else if IsBallotType(e.messageType) then
      match BallotOf(c, e)
      case None => Raised
      case Some(ballot) => SetBallot(c, own, e, ballot)
    else Done(own, None, None)
  }

  function QuorumMode(c: Codec): Mode<Quorum> {
    Mode(MODE_QUORUM, c.commitment, (own, phase, e) => Handle(c, own, phase, e))
  }

  function Initial(): State<Quorum> {
    State(Core([], "Pending", None, {}, []), Quorum(map[], map[]))
  }

  function After(c: Codec, feed: seq<Envelope>): State<Quorum> { Run(QuorumMode(c), Initial(), feed) }

  // ----- what a state is, in terms of its transcript

  function RequestOf(c: Codec, e: Envelope): Option<RequestPayload> {
    if e.messageType == "ApprovalRequest" then c.request(e.payload) else None
  }

  function Act(c: Codec, e: Envelope): Act<Ballot> {
    if RequestOf(c, e).Some? then Opens(RequestOf(c, e).value.requestId)
    else if BallotOf(c, e).Some? then Casts(BallotOf(c, e).value.requestId, e.sender, BallotOf(c, e).value)
    else Neither
  }

  function BallotActs(c: Codec, transcript: seq<Envelope>): seq<Act<Ballot>> { Acts(transcript, e => Act(c, e)) }

  ghost predicate IsLedger(c: Codec, s: State<Quorum>) {
    Keep(BallotActs(c, s.core.transcript)) == Ledger(s.own.requests.Keys, s.own.ballots, |s.core.anomalies|)
  }

  lemma LedgerStep(c: Codec, s: State<Quorum>, e: Envelope)
    requires IsLedger(c, s)
    ensures IsLedger(c, Apply(QuorumMode(c), s, e).0)
  {
    hide Keep, Acts;
    var mode := QuorumMode(c);
    KeptOrDropped(mode, s, e);
    if Apply(mode, s, e).0 != s {
      ActsNext(s.core.transcript, e' => Act(c, e'), e);
    }
  }

  lemma {:induction false} RunIsLedger(c: Codec, feed: seq<Envelope>)
    ensures IsLedger(c, After(c, feed))
  {
    if feed == [] {
      assert BallotActs(c, []) == [];
    } else {
      RunIsLedger(c, feed[..|feed| - 1]);
      LedgerStep(c, After(c, feed[..|feed| - 1]), feed[|feed| - 1]);
    }
  }

  /**
    In every reachable state the ballot recorded for a request and a sender is the
    first in the transcript, of whatever kind, after the request was known.
   */
  lemma FirstBallotStands(c: Codec, feed: seq<Envelope>, requestId: string, sender: string, ballot: Ballot)
    ensures var s := After(c, feed); var acts := BallotActs(c, s.core.transcript);
      Holds(s.own.ballots, requestId, sender, ballot) <==>
        exists i: nat :: FirstAt(acts, i, requestId, sender) && acts[i].value == ballot
  {
    RunIsLedger(c, feed);
    FirstWins(BallotActs(c, After(c, feed).core.transcript), requestId, sender, ballot);
  }

  /** Ballots on known requests are recorded or reported as anomalies. */
  lemma NoBallotLost(c: Codec, feed: seq<Envelope>)
    ensures var s := After(c, feed);
      CastCount(BallotActs(c, s.core.transcript)) == |Entries(s.own.ballots)| + |s.core.anomalies|
  {
    RunIsLedger(c, feed);
    NothingLost(BallotActs(c, After(c, feed).core.transcript));
  }

  function NamedRequest(c: Codec, e: Envelope): Option<(string, Request)> {
    var p :- RequestOf(c, e);
    Some((p.requestId, MakeRequest(p, e.sender)))
  }

  function Requests(c: Codec, transcript: seq<Envelope>): map<string, Request> {
    Overwritten(Collect(transcript, e => NamedRequest(c, e)))
  }

  lemma RequestsNext(c: Codec, transcript: seq<Envelope>, e: Envelope)
    ensures Requests(c, transcript + [e]) ==
      match NamedRequest(c, e) case None => Requests(c, transcript) case Some(r) => Requests(c, transcript)[r.0 := r.1]
  {
    hide Collect, Overwritten, NamedRequest;
    var f := (e: Envelope) => NamedRequest(c, e);
    CollectNext(transcript, f, e);
    assert Requests(c, transcript + [e]) == Overwritten(Collect(transcript + [e], f));
    if NamedRequest(c, e).Some? {
      OverwrittenNext(Collect(transcript, f), NamedRequest(c, e).value);
    } else {
      assert Collect(transcript, f) + [] == Collect(transcript, f);
    }
  }

  /** The requests known are the latest of each id in the transcript. */
  lemma {:induction false} RequestsKept(c: Codec, feed: seq<Envelope>)
    ensures After(c, feed).own.requests == Requests(c, After(c, feed).core.transcript)
  {
    hide Requests, Apply;
    if feed == [] {
      assert Requests(c, []) == map[] by { RequestsNone(c); }
    } else {
      var before, e := After(c, feed[..|feed| - 1]), feed[|feed| - 1];
      RequestsKept(c, feed[..|feed| - 1]);
      if Apply(QuorumMode(c), before, e).0 != before {
        Effects(QuorumMode(c), before, e);
        RequestsNext(c, before.core.transcript, e);
      }
    }
  }

  lemma RequestsNone(c: Codec)
    ensures Requests(c, []) == map[]
  {
  }

  /** Replay determinism and the final phase, for this mode. */
  lemma QuorumReplays(c: Codec, feed: seq<Envelope>)
    ensures var s := After(c, feed);
      After(c, s.core.transcript) == s && (s.core.phase == COMMITTED <==> s.core.commitment.Some?)
  {
    ReplayDeterminism(QuorumMode(c), Initial(), feed);
    CommittedIff(QuorumMode(c), Initial(), feed);
  }

  // ----- queries

  function VotedSenders(q: Quorum, requestId: string): set<string> { Column(q.ballots, requestId).Keys }

  function Voted(column: map<string, Ballot>, vote: string): set<string> {
    set s | s in column && column[s].vote == vote
  }

  function CountVotes(q: Quorum, requestId: string, vote: string): nat { |Voted(Column(q.ballots, requestId), vote)| }

  function ApprovalCount(q: Quorum, requestId: string): nat { CountVotes(q, requestId, "approve") }

  /** The `effective_threshold` argument: not given, a number, or the verdict "unsatisfiable". */
  datatype Threshold = Unset | Given(approvals: int) | Unsatisfiable

  datatype Bar = Approvals(count: int) | Infinite

  function Required(q: Quorum, requestId: string, t: Threshold): Option<Bar> {
    if requestId !in q.requests then None
    else
      match t
      case Unset => Some(Approvals(q.requests[requestId].requiredApprovals))
      case Given(n) => Some(Approvals(n))
      case Unsatisfiable => Some(Infinite)
  }

  predicate Reaches(count: int, bar: Bar) { bar.Approvals? && count >= bar.count }

  predicate HasQuorum(q: Quorum, requestId: string, t: Threshold) {
    var required := Required(q, requestId, t);
    required.Some? && Reaches(ApprovalCount(q, requestId), required.value)
  }

  predicate IsThresholdUnreachable(q: Quorum, requestId: string, totalEligible: int, t: Threshold) {
    var required := Required(q, requestId, t);
    required.Some? &&
    var remaining := totalEligible - |VotedSenders(q, requestId)|;
    !Reaches(ApprovalCount(q, requestId) + remaining, required.value)
  }

  /** How many more approvals are needed; `None` stands for infinitely many. */
  function RemainingVotesNeeded(q: Quorum, requestId: string, t: Threshold): Option<int> {
    match Required(q, requestId, t)
    case None => Some(0)
    case Some(Infinite) => None
    case Some(Approvals(n)) =>
      var missing := n - ApprovalCount(q, requestId);
      Some(if missing > 0 then missing else 0)
  }

  /** Nothing more is needed exactly when the quorum of a known request is there. */
  lemma QuorumMeansNoneNeeded(q: Quorum, requestId: string, t: Threshold)
    requires requestId in q.requests
    ensures HasQuorum(q, requestId, t) <==> RemainingVotesNeeded(q, requestId, t) == Some(0)
  {
  }

  // ----- continuations

  /** A later message that could change the bar: a new request under the same id, when no threshold overrides it. */
  predicate MovesBar(c: Codec, e: Envelope, requestId: string, t: Threshold) {
    t.Unset? && RequestOf(c, e).Some? && RequestOf(c, e).value.requestId == requestId
  }

  ghost predicate KeepsBar(c: Codec, feed: seq<Envelope>, requestId: string, t: Threshold) {
    forall i | 0 <= i < |feed| :: !MovesBar(c, feed[i], requestId, t)
  }

  /** Ballots on the request come from the electorate. */
  ghost predicate FromElectorate(c: Codec, feed: seq<Envelope>, requestId: string, electorate: set<string>) {
    forall i | 0 <= i < |feed| && BallotOf(c, feed[i]).Some? && BallotOf(c, feed[i]).value.requestId == requestId ::
      feed[i].sender in electorate
  }

  /** More entries, and the old ones as they were. */
  ghost predicate Extends(before: map<string, Ballot>, after: map<string, Ballot>) {
    forall s | s in before :: s in after && after[s] == before[s]
  }

  lemma BallotsStep(c: Codec, s: State<Quorum>, e: Envelope, requestId: string, t: Threshold)
    requires requestId in s.own.requests && !MovesBar(c, e, requestId, t)
    ensures var after := Apply(QuorumMode(c), s, e).0;
      && requestId in after.own.requests
      && Required(after.own, requestId, t) == Required(s.own, requestId, t)
      && Extends(Column(s.own.ballots, requestId), Column(after.own.ballots, requestId))
      && VotedSenders(after.own, requestId) <= VotedSenders(s.own, requestId)
        + if BallotOf(c, e).Some? && BallotOf(c, e).value.requestId == requestId then {e.sender} else {}
  {
    hide Apply;
    var mode := QuorumMode(c);
    if Apply(mode, s, e).0 != s {
      Effects(mode, s, e);
    }
  }

  lemma {:induction false} BallotsRun(
      c: Codec, s: State<Quorum>, feed: seq<Envelope>, requestId: string, t: Threshold, electorate: set<string>)
    requires requestId in s.own.requests && KeepsBar(c, feed, requestId, t)
    requires FromElectorate(c, feed, requestId, electorate) && VotedSenders(s.own, requestId) <= electorate
    ensures var after := Run(QuorumMode(c), s, feed);
      && requestId in after.own.requests
      && Required(after.own, requestId, t) == Required(s.own, requestId, t)
      && Extends(Column(s.own.ballots, requestId), Column(after.own.ballots, requestId))
      && VotedSenders(after.own, requestId) <= electorate
  {
    hide Apply, Required, BallotOf;
    if feed != [] {
      var init, last := feed[..|feed| - 1], feed[|feed| - 1];
      assert forall i | 0 <= i < |init| :: init[i] == feed[i];
      BallotsRun(c, s, init, requestId, t, electorate);
      BallotsStep(c, Run(QuorumMode(c), s, init), last, requestId, t);
    }
  }

  /** New approvals come from new voters. */
  lemma ApprovalsGrow(before: map<string, Ballot>, after: map<string, Ballot>, electorate: set<string>)
    requires Extends(before, after) && after.Keys <= electorate
    ensures |Voted(before, "approve")| <= |Voted(after, "approve")|
    ensures |Voted(after, "approve")| <= |Voted(before, "approve")| + |electorate| - |before.Keys|
  {
    var a, b := Voted(before, "approve"), Voted(after, "approve");
    assert before.Keys <= electorate;
    SubsetSize(a, b);
    SubsetSize(before.Keys, electorate);
    assert b - a <= electorate - before.Keys;
    SubsetSize(b - a, electorate - before.Keys);
  }

  /** A quorum, once reached, stays reached. */
  lemma QuorumStays(c: Codec, s: State<Quorum>, feed: seq<Envelope>, requestId: string, t: Threshold)
    requires HasQuorum(s.own, requestId, t) && KeepsBar(c, feed, requestId, t)
    ensures HasQuorum(Run(QuorumMode(c), s, feed).own, requestId, t)
  {
    var everyone := VotedSenders(s.own, requestId) + (set i | 0 <= i < |feed| :: feed[i].sender);
    BallotsRun(c, s, feed, requestId, t, everyone);
    ApprovalsGrow(Column(s.own.ballots, requestId), Column(Run(QuorumMode(c), s, feed).own.ballots, requestId), everyone);
  }

  /** An approval, in an envelope without an id. */
  function Approval(payload: Bytes, sender: string): Envelope { Envelope(MODE_QUORUM, "Approve", "", "", sender, payload) }

  /** The first ballot of a sender on a known request is recorded. */
  lemma BallotApplied(c: Codec, s: State<Quorum>, e: Envelope, ballot: Ballot)
    requires !Ignored(QuorumMode(c), s.core, e) && BallotOf(c, e) == Some(ballot)
    requires ballot.requestId in s.own.requests && e.sender !in VotedSenders(s.own, ballot.requestId)
    ensures var after := Apply(QuorumMode(c), s, e).0;
      var column := Column(s.own.ballots, ballot.requestId)[e.sender := ballot];
      after.own == s.own.(ballots := s.own.ballots[ballot.requestId := column])
      && after.core.transcript == s.core.transcript + [e]
  {
  }

  lemma OneMore(before: map<string, Ballot>, sender: string, ballot: Ballot)
    requires sender !in before
    ensures |Voted(before[sender := ballot], "approve")| ==
      |Voted(before, "approve")| + if ballot.vote == "approve" then 1 else 0
  {
    var after := before[sender := ballot];
    var added := if ballot.vote == "approve" then {sender} else {};
    forall x
      ensures x in Voted(after, "approve") <==> x in Voted(before, "approve") + added
    {
    }
    assert Voted(after, "approve") == Voted(before, "approve") + added;
  }

  lemma ApprovalIs(c: Codec, payload: Bytes, sender: string, p: BallotPayload)
    requires c.approve(payload) == Some(p)
    ensures BallotOf(c, Approval(payload, sender)) == Some(MakeBallot(p, "approve", sender))
  {
  }

  lemma ApprovalCounts(c: Codec, s: State<Quorum>, payload: Bytes, sender: string, requestId: string)
    requires c.approve(payload).Some? && c.approve(payload).value.requestId == requestId
    requires requestId in s.own.requests && sender !in VotedSenders(s.own, requestId)
    ensures var after := Apply(QuorumMode(c), s, Approval(payload, sender)).0;
      && after.own.requests == s.own.requests
      && VotedSenders(after.own, requestId) == VotedSenders(s.own, requestId) + {sender}
      && ApprovalCount(after.own, requestId) == ApprovalCount(s.own, requestId) + 1
  {
    hide Apply, Handle, BallotOf, Voted;
    var p := c.approve(payload).value;
    ApprovalIs(c, payload, sender, p);
    BallotApplied(c, s, Approval(payload, sender), MakeBallot(p, "approve", sender));
    OneMore(Column(s.own.ballots, requestId), sender, MakeBallot(p, "approve", sender));
  }

  ghost predicate ApprovedBy(feed: seq<Envelope>, voters: set<string>) {
    forall i | 0 <= i < |feed| :: feed[i].messageType == "Approve" && feed[i].sender in voters
  }

  lemma OneMoreApproves(feed: seq<Envelope>, voters: set<string>, payload: Bytes, sender: string)
    requires ApprovedBy(feed, voters)
    ensures ApprovedBy(feed + [Approval(payload, sender)], voters + {sender})
  {
  }

  /** Everyone who has not voted approves. */
  lemma {:induction false} AllApprove(
      c: Codec, s: State<Quorum>, payload: Bytes, requestId: string, voters: set<string>) returns (feed: seq<Envelope>)
    requires c.approve(payload).Some? && c.approve(payload).value.requestId == requestId
    requires requestId in s.own.requests && voters !! VotedSenders(s.own, requestId)
    ensures ApprovedBy(feed, voters)
    ensures var after := Run(QuorumMode(c), s, feed);
      && after.own.requests == s.own.requests
      && VotedSenders(after.own, requestId) == VotedSenders(s.own, requestId) + voters
      && ApprovalCount(after.own, requestId) == ApprovalCount(s.own, requestId) + |voters|
    decreases voters
  {
    hide Apply, ApprovalCount, BallotOf, VotedSenders, Handle, Run, Approval;
    if voters == {} {
      feed := [];
      RunNone(QuorumMode(c), s);
    } else {
      var sender :| sender in voters;
      var others := voters - {sender};
      var init := AllApprove(c, s, payload, requestId, others);
      var before := Run(QuorumMode(c), s, init);
      ApprovalCounts(c, before, payload, sender, requestId);
      RunNext(QuorumMode(c), s, init, Approval(payload, sender));
      feed := init + [Approval(payload, sender)];
      OneMoreApproves(init, others, payload, sender);
      assert others + {sender} == voters;
      assert VotedSenders(s.own, requestId) + others + {sender} == VotedSenders(s.own, requestId) + voters;
    }
  }

  /** Messages in which only the electorate votes on the request, under an unchanged bar. */
  ghost predicate Continuation(c: Codec, feed: seq<Envelope>, requestId: string, t: Threshold, electorate: set<string>) {
    KeepsBar(c, feed, requestId, t) && FromElectorate(c, feed, requestId, electorate)
  }

  /**
    For a known request, a fixed bar and an electorate that includes all past voters,
    the threshold is reported unreachable exactly when no continuation reaches it.
   */
  lemma UnreachableIff(
      c: Codec, s: State<Quorum>, requestId: string, t: Threshold, electorate: set<string>, payload: Bytes)
    requires requestId in s.own.requests && VotedSenders(s.own, requestId) <= electorate
    requires c.approve(payload).Some? && c.approve(payload).value.requestId == requestId
    ensures IsThresholdUnreachable(s.own, requestId, |electorate|, t) <==>
      forall feed | Continuation(c, feed, requestId, t, electorate) ::
        !HasQuorum(Run(QuorumMode(c), s, feed).own, requestId, t)
  {
    hide Apply, BallotOf, Run;
    if IsThresholdUnreachable(s.own, requestId, |electorate|, t) {
      forall feed | Continuation(c, feed, requestId, t, electorate)
        ensures !HasQuorum(Run(QuorumMode(c), s, feed).own, requestId, t)
      {
        BallotsRun(c, s, feed, requestId, t, electorate);
        var after := Run(QuorumMode(c), s, feed);
        ApprovalsGrow(Column(s.own.ballots, requestId), Column(after.own.ballots, requestId), electorate);
      }
    } else {
      var rest := electorate - VotedSenders(s.own, requestId);
      SubsetSize(VotedSenders(s.own, requestId), electorate);
      var feed := AllApprove(c, s, payload, requestId, rest);
      assert Continuation(c, feed, requestId, t, electorate);
      assert HasQuorum(Run(QuorumMode(c), s, feed).own, requestId, t);
    }
  }

  // ----- how many are missing

  /**
    `remaining_votes_needed` is exact: when people who have not voted all approve, the
    quorum is there exactly when they are that many, and never where it is infinite.
   */
  lemma NeededAreEnough(
      c: Codec, s: State<Quorum>, payload: Bytes, requestId: string, t: Threshold, voters: set<string>)
      returns (feed: seq<Envelope>)
    requires c.approve(payload).Some? && c.approve(payload).value.requestId == requestId
    requires requestId in s.own.requests && voters !! VotedSenders(s.own, requestId)
    ensures ApprovedBy(feed, voters)
    ensures var needed := RemainingVotesNeeded(s.own, requestId, t);
      HasQuorum(Run(QuorumMode(c), s, feed).own, requestId, t) <==> needed.Some? && |voters| >= needed.value
  {
    hide Run, ApprovalCount;
    feed := AllApprove(c, s, payload, requestId, voters);
  }

  lemma VotersFrom(c: Codec, feed: seq<Envelope>, requestId: string, before: set<string>)
    ensures FromElectorate(c, feed, requestId, before + (set i | 0 <= i < |feed| :: feed[i].sender))
  {
    hide BallotOf;
  }

  /** And no feed under the same bar does with fewer: a quorum takes that many new voters. */
  lemma NeededAreLeast(c: Codec, s: State<Quorum>, feed: seq<Envelope>, requestId: string, t: Threshold)
    requires requestId in s.own.requests && KeepsBar(c, feed, requestId, t)
    requires HasQuorum(Run(QuorumMode(c), s, feed).own, requestId, t)
    ensures var needed := RemainingVotesNeeded(s.own, requestId, t); var after := Run(QuorumMode(c), s, feed).own;
      needed.Some? && |VotedSenders(after, requestId) - VotedSenders(s.own, requestId)| >= needed.value
  {
    hide Run, BallotOf, Voted, KeepsBar, FromElectorate;
    VotersFrom(c, feed, requestId, VotedSenders(s.own, requestId));
    var everyone := VotedSenders(s.own, requestId) + (set i | 0 <= i < |feed| :: feed[i].sender);
    BallotsRun(c, s, feed, requestId, t, everyone);
    var before, later := Column(s.own.ballots, requestId), Column(Run(QuorumMode(c), s, feed).own.ballots, requestId);
    ApprovalsGrow(before, later, later.Keys);
    assert before.Keys <= later.Keys;
    assert |later.Keys - before.Keys| == |later.Keys| - |before.Keys|;
  }

  // ----- messages by their words

  /** A message that votes on a request: an approval, a rejection or an abstention, with its reason. */
  ghost predicate Ballots(c: Codec, e: Envelope, requestId: string, vote: string, reason: string) {
    || (e.messageType == "Approve" && vote == "approve" && c.approve(e.payload) == Some(BallotPayload(requestId, reason)))
    || (e.messageType == "Reject" && vote == "reject" && c.reject(e.payload) == Some(BallotPayload(requestId, reason)))
    || (e.messageType == "Abstain" && vote == "abstain" && c.abstain(e.payload) == Some(BallotPayload(requestId, reason)))
  }

  lemma BallotIff(c: Codec, e: Envelope, ballot: Ballot)
    ensures BallotOf(c, e) == Some(ballot) <==>
      Ballots(c, e, ballot.requestId, ballot.vote, ballot.reason) && ballot.sender == e.sender
  {
  }

  lemma RequestIff(c: Codec, e: Envelope, id: string, r: Request)
    ensures NamedRequest(c, e) == Some((id, r)) <==>
      && e.messageType == "ApprovalRequest" && r.requestId == id && r.sender == e.sender
      && c.request(e.payload) == Some(RequestPayload(id, r.action, r.summary, r.requiredApprovals))
  {
  }

  /** A second ballot on a known request is reported with both votes, and nothing else is. */
  lemma SecondBallotReported(c: Codec, s: State<Quorum>, e: Envelope)
    ensures var after := Apply(QuorumMode(c), s, e).0; var ballot := BallotOf(c, e);
      after.core.anomalies == s.core.anomalies +
        if !Ignored(QuorumMode(c), s.core, e) && ballot.Some? && ballot.value.requestId in s.own.requests
          && e.sender in Column(s.own.ballots, ballot.value.requestId)
        then
          var kept := Column(s.own.ballots, ballot.value.requestId)[e.sender];
          [Anomaly("duplicate_ballot", "macp.mode.quorum.v1", e.messageType, e.messageId, e.sender, ballot.value.requestId,
            "kept first ballot " + c.repr(kept.vote) + "; discarded " + c.repr(ballot.value.vote))]
        else []
  {
  }

  function PhaseAsked(c: Codec, e: Envelope): Option<string> {
    if e.messageType == "ApprovalRequest" && c.request(e.payload).Some? then Some("Voting") else None
  }

  lemma PhaseAskedRight(c: Codec)
    ensures AsksRight(QuorumMode(c), (own, phase, e) => PhaseAsked(c, e)) && NeverCommits(QuorumMode(c))
  {
    hide BallotOf, Discarded;
  }

  /** The phase is "Pending" until a request, then "Voting", and "Committed" with a commitment. */
  lemma PhaseTold(c: Codec, feed: seq<Envelope>)
    ensures var core := After(c, feed).core;
      core.phase == if core.commitment.Some? then "Committed"
        else LastPhase(QuorumMode(c), Initial(), (own, phase, e) => PhaseAsked(c, e), core.transcript)
    ensures Initial().core.phase == "Pending"
  {
    hide Handle, PhaseAsked, Run, LastPhase;
    PhaseAskedRight(c);
    PhaseIsLast(QuorumMode(c), Initial(), (own, phase, e) => PhaseAsked(c, e), feed);
  }

  /** Of a request that is not known, nothing is reported. */
  lemma UnknownRequest(q: Quorum, requestId: string, totalEligible: int, t: Threshold)
    requires requestId !in q.requests
    ensures !HasQuorum(q, requestId, t) && !IsThresholdUnreachable(q, requestId, totalEligible, t)
    ensures RemainingVotesNeeded(q, requestId, t) == Some(0)
  {
  }
}
