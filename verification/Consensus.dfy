/**
  The consensus engine's early-stopping tally: its ballot loops, the full count
  they agree with, and the session's own projection.
 */
module Consensus {
  import opened Basics
  import opened Projection
  import opened Ledger
  import opened QuorumModel

  datatype Outcome = Approved | Rejected

  /** `_Tally.outcome`. */
  function Decide(approvals: int, cast: int, voters: int, threshold: int): Option<Outcome> {
    if approvals >= threshold then Some(Approved)
    else if approvals + (voters - cast) < threshold then Some(Rejected)
    else None
  }

  class Tally {
    const voters: nat
    const threshold: int
    var cast: nat
    var approvals: nat

    constructor (voters: nat, threshold: int)
      ensures this.voters == voters && this.threshold == threshold && cast == 0 && approvals == 0
    {
      this.voters, this.threshold := voters, threshold;
      cast, approvals := 0, 0;
    }

    method Add(approved: bool)
      modifies this
      ensures cast == old(cast) + 1 && approvals == old(approvals) + if approved then 1 else 0
    {
      cast := cast + 1;
      if approved {
        approvals := approvals + 1;
      }
    }

    function Result(): Option<Outcome>
      reads this
    {
      Decide(approvals, cast, voters, threshold)
    }
  }

  // ----- the full count

  function Yes(ballots: seq<bool>): nat {
    if ballots == [] then 0 else Yes(ballots[..|ballots| - 1]) + if ballots[|ballots| - 1] then 1 else 0
  }

  /** What the tally says after the first `k` ballots. */
  function AfterBallots(ballots: seq<bool>, k: nat, threshold: int): Option<Outcome>
    requires k <= |ballots|
  {
    Decide(Yes(ballots[..k]), k, |ballots|, threshold)
  }

  lemma YesNext(ballots: seq<bool>, k: nat)
    requires k < |ballots|
    ensures Yes(ballots[..k + 1]) == Yes(ballots[..k]) + if ballots[k] then 1 else 0
  {
    assert ballots[..k + 1][..k] == ballots[..k];
  }

  /** Each further ballot adds at most one approval. */
  lemma {:induction false} YesBounds(ballots: seq<bool>, k: nat, m: nat)
    requires k <= m <= |ballots|
    ensures Yes(ballots[..k]) <= Yes(ballots[..m]) <= Yes(ballots[..k]) + (m - k)
    decreases m
  {
    if k < m {
      YesBounds(ballots, k, m - 1);
      YesNext(ballots, m - 1);
    }
  }

  /** All ballots together always decide, and by the threshold alone. */
  lemma FullCountDecides(ballots: seq<bool>, threshold: int)
    ensures AfterBallots(ballots, |ballots|, threshold) ==
      Some(if Yes(ballots) >= threshold then Approved else Rejected)
  {
    assert ballots[..|ballots|] == ballots;
  }

  /** Once decided, no further ballot changes the outcome, so it is that of the full count. */
  lemma DecidedEarly(ballots: seq<bool>, k: nat, m: nat, threshold: int)
    requires k <= m <= |ballots| && AfterBallots(ballots, k, threshold).Some?
    ensures AfterBallots(ballots, m, threshold) == AfterBallots(ballots, k, threshold)
  {
    YesBounds(ballots, k, m);
  }

  /** The tally of a loop that stopped after `k` ballots. */
  ghost predicate Settled(tally: Tally, ballots: seq<bool>, threshold: int, k: nat)
    reads tally
  {
    && k <= |ballots| && tally.voters == |ballots| && tally.threshold == threshold
    && tally.cast == k && tally.approvals == Yes(ballots[..k])
    && (forall j: nat | j < k :: AfterBallots(ballots, j, threshold) == None)
  }

  /** A settled tally that has an outcome, or every ballot, has the outcome of the full count. */
  lemma SettledOutcome(tally: Tally, ballots: seq<bool>, threshold: int, k: nat)
    requires Settled(tally, ballots, threshold, k) && (k == |ballots| || tally.Result().Some?)
    ensures tally.Result() == Some(if Yes(ballots) >= threshold then Approved else Rejected)
  {
    FullCountDecides(ballots, threshold);
    if k < |ballots| {
      DecidedEarly(ballots, k, |ballots|, threshold);
    }
  }

  // ----- the loops of `_settle`

  /** A Decision vote approves; a participant that declines to vote does not. */
  function Approves(votes: seq<Option<string>>): (r: seq<bool>)
    ensures |r| == |votes| && forall i | 0 <= i < |votes| :: r[i] == (votes[i] == Some("APPROVE"))
  {
    seq(|votes|, i requires 0 <= i < |votes| => votes[i] == Some("APPROVE"))
  }

  /** The votes sent: those of the first participants, without the declined ones. */
  function VotesSent(ids: seq<string>, votes: seq<Option<string>>): seq<(string, string)>
    requires |ids| == |votes|
  {
    if ids == [] then []
    else
      var last := |ids| - 1;
      VotesSent(ids[..last], votes[..last]) + if votes[last].Some? then [(ids[last], votes[last].value)] else []
  }

  lemma NoVotesYet(ids: seq<string>, votes: seq<Option<string>>)
    requires |ids| == |votes|
    ensures VotesSent(ids[..0], votes[..0]) == [] && Yes(Approves(votes)[..0]) == 0
  {
  }

  lemma VoteNext(ids: seq<string>, votes: seq<Option<string>>, k: nat)
    requires |ids| == |votes| && k < |ids|
    ensures VotesSent(ids[..k + 1], votes[..k + 1]) ==
      VotesSent(ids[..k], votes[..k]) + if votes[k].Some? then [(ids[k], votes[k].value)] else []
  {
    assert ids[..k + 1][..k] == ids[..k] && votes[..k + 1][..k] == votes[..k];
  }

  function CountCast(votes: seq<Option<string>>): nat {
    if votes == [] then 0
    else CountCast(votes[..|votes| - 1]) + if votes[|votes| - 1].Some? then 1 else 0
  }

  /** Every vote that is cast goes out with its voter, after those of the voters before, and nothing else does. */
  lemma {:induction false} EachVoteSent(ids: seq<string>, votes: seq<Option<string>>, i: nat)
    requires |ids| == |votes| && i < |votes|
    ensures |VotesSent(ids, votes)| == CountCast(votes)
    ensures votes[i].Some? ==>
      var k := CountCast(votes[..i]); k < |VotesSent(ids, votes)| && VotesSent(ids, votes)[k] == (ids[i], votes[i].value)
    decreases |ids|
  {
    var last := |ids| - 1;
    assert votes[..last][..if i < last then i else 0] == votes[..if i < last then i else 0];
    if last > 0 {
      EachVoteSent(ids[..last], votes[..last], if i < last then i else 0);
    }
  }

  /** The voters' decisions are given; the method returns what it sent. */
  method SettleDecision(ids: seq<string>, votes: seq<Option<string>>, threshold: int)
    returns (tally: Tally, sent: seq<(string, string)>)
    requires |ids| == |votes| && 1 <= threshold <= |ids|
    ensures fresh(tally) && Settled(tally, Approves(votes), threshold, tally.cast)
    ensures tally.Result() == Some(if Yes(Approves(votes)) >= threshold then Approved else Rejected)
    ensures sent == VotesSent(ids[..tally.cast], votes[..tally.cast])
  {
    hide VotesSent, Yes;
    var ballots := Approves(votes);
    tally := new Tally(|ids|, threshold);
    sent := [];
    NoVotesYet(ids, votes);
    for k := 0 to |ids|
      invariant fresh(tally) && Settled(tally, ballots, threshold, k) && tally.Result() == None
      invariant sent == VotesSent(ids[..k], votes[..k])
    {
      VoteNext(ids, votes, k);
      if votes[k].Some? {
        sent := sent + [(ids[k], votes[k].value)];
        tally.Add(votes[k].value == "APPROVE");
      } else {
        tally.Add(false);
      }
      YesNext(ballots, k);
      if tally.Result() != None {
        SettledOutcome(tally, ballots, threshold, k + 1);
        return;
      }
    }
  }

  predicate IsRecommendation(r: string) { r == "APPROVE" || r == "REVIEW" || r == "REJECT" || r == "BLOCK" }

  /** `_BALLOTS`, for the four recommendations there are. */
  function BallotFor(recommendation: string): string
    requires IsRecommendation(recommendation)
  {
    if recommendation == "APPROVE" then "APPROVE" else if recommendation == "REVIEW" then "ABSTAIN" else "REJECT"
  }

  /** The message type by which a ballot is sent. */
  function MessageFor(ballot: string): string {
    if ballot == "APPROVE" then "Approve" else if ballot == "REJECT" then "Reject" else "Abstain"
  }

  predicate Normalized(recommendations: seq<string>) {
    forall i | 0 <= i < |recommendations| :: IsRecommendation(recommendations[i])
  }

  function Recommended(recommendations: seq<string>): (r: seq<bool>)
    requires Normalized(recommendations)
    ensures |r| == |recommendations|
    ensures forall i | 0 <= i < |r| :: r[i] == (BallotFor(recommendations[i]) == "APPROVE")
  {
    seq(|recommendations|, i requires 0 <= i < |recommendations| => BallotFor(recommendations[i]) == "APPROVE")
  }

  function Messages(ids: seq<string>, recommendations: seq<string>): (r: seq<(string, string)>)
    requires |ids| == |recommendations| && Normalized(recommendations)
    ensures |r| == |ids| && forall i | 0 <= i < |r| :: r[i] == (ids[i], MessageFor(BallotFor(recommendations[i])))
  {
    seq(|ids|, i requires 0 <= i < |ids| => (ids[i], MessageFor(BallotFor(recommendations[i]))))
  }

  /** What goes out for a recommendation: an approval, an abstention or a rejection. */
  lemma MessageSent(ids: seq<string>, recommendations: seq<string>, i: nat)
    requires |ids| == |recommendations| && Normalized(recommendations) && i < |ids|
    ensures var (sender, kind) := Messages(ids, recommendations)[i]; var r := recommendations[i];
      && sender == ids[i]
      && (r == "APPROVE" ==> kind == "Approve") && (r == "REVIEW" ==> kind == "Abstain")
      && (r == "REJECT" || r == "BLOCK" ==> kind == "Reject")
  {
  }

  method SettleQuorum(ids: seq<string>, recommendations: seq<string>, threshold: int)
    returns (tally: Tally, sent: seq<(string, string)>)
    requires |ids| == |recommendations| && Normalized(recommendations) && 1 <= threshold <= |ids|
    ensures fresh(tally) && Settled(tally, Recommended(recommendations), threshold, tally.cast)
    ensures tally.Result() == Some(if Yes(Recommended(recommendations)) >= threshold then Approved else Rejected)
    ensures sent == Messages(ids, recommendations)[..tally.cast]
  {
    hide BallotFor, MessageFor, Messages, Recommended, IsRecommendation;
    var ballots := Recommended(recommendations);
    tally := new Tally(|ids|, threshold);
    sent := [];
    for k := 0 to |ids|
      invariant fresh(tally) && Settled(tally, ballots, threshold, k) && tally.Result() == None
      invariant sent == Messages(ids, recommendations)[..k]
    {
      var ballot := BallotFor(recommendations[k]);
      sent := sent + [(ids[k], MessageFor(ballot))];
      tally.Add(ballot == "APPROVE");
      YesNext(ballots, k);
      if tally.Result() != None {
        SettledOutcome(tally, ballots, threshold, k + 1);
        return;
      }
    }
  }

  /** The outcome `run` commits for a Decision session: that of the full count, so the `or "reject"` is never taken. */
  method RunDecision(ids: seq<string>, votes: seq<Option<string>>, threshold: int) returns (outcome: Outcome)
    requires |ids| == |votes| && 1 <= threshold <= |ids|
    ensures outcome == Approved <==> Yes(Approves(votes)) >= threshold
  {
    var tally, _ := SettleDecision(ids, votes, threshold);
    outcome := if tally.Result().Some? then tally.Result().value else Rejected;
  }

  /** Ballots go out in order up to the first that decides. */
  ghost predicate SentUntilDecided(
    ids: seq<string>, recommendations: seq<string>, threshold: int, sent: seq<(string, string)>, outcome: Outcome)
    requires |ids| == |recommendations| && Normalized(recommendations)
  {
    && |sent| <= |ids| && sent == Messages(ids, recommendations)[..|sent|]
    && (forall j: nat | j < |sent| :: AfterBallots(Recommended(recommendations), j, threshold) == None)
    && AfterBallots(Recommended(recommendations), |sent|, threshold) == Some(outcome)
  }

  /** And for a Quorum session, with what was sent. */
  method RunQuorum(ids: seq<string>, recommendations: seq<string>, threshold: int)
    returns (outcome: Outcome, sent: seq<(string, string)>)
    requires |ids| == |recommendations| && Normalized(recommendations) && 1 <= threshold <= |ids|
    ensures outcome == Approved <==> Yes(Recommended(recommendations)) >= threshold
    ensures SentUntilDecided(ids, recommendations, threshold, sent, outcome)
  {
    hide BallotFor, MessageFor, Yes, Decide, Recommended;
    var tally: Tally;
    tally, sent := SettleQuorum(ids, recommendations, threshold);
    outcome := if tally.Result().Some? then tally.Result().value else Rejected;
  }

  // ----- the projection of the session

  /** An envelope that carries a participant's ballot on a request. */
  ghost predicate Carries(c: Codec, e: Envelope, requestId: string, sender: string, approves: bool) {
    && e.mode == MODE_QUORUM && e.sender == sender
    && BallotOf(c, e).Some? && BallotOf(c, e).value.requestId == requestId
    && (BallotOf(c, e).value.vote == "approve" <==> approves)
  }

  /** What a quorum session sends: the request with the threshold, then the ballots in participant order. */
  ghost predicate SessionFeed(
    c: Codec, feed: seq<Envelope>, requestId: string, threshold: int, ids: seq<string>, ballots: seq<bool>)
  {
    && |ids| == |ballots| && 1 <= |feed| <= |ids| + 1
    && feed[0].mode == MODE_QUORUM && RequestOf(c, feed[0]).Some?
    && RequestOf(c, feed[0]).value.requestId == requestId && RequestOf(c, feed[0]).value.requiredApprovals == threshold
    && (forall i | 1 <= i < |feed| :: Carries(c, feed[i], requestId, ids[i - 1], ballots[i - 1]))
    && IdsDistinct(feed)
    && (forall i, j | 0 <= i < j < |ids| :: ids[i] != ids[j])
  }

  function FirstIds(ids: seq<string>, k: nat): (r: set<string>)
    requires k <= |ids|
  {
    set i | 0 <= i < k :: ids[i]
  }

  lemma NextId(ids: seq<string>, k: nat)
    requires k < |ids| && forall i, j | 0 <= i < j < |ids| :: ids[i] != ids[j]
    ensures FirstIds(ids, k + 1) == FirstIds(ids, k) + {ids[k]} && ids[k] !in FirstIds(ids, k)
  {
  }

  lemma {:induction false} FirstIdsSize(ids: seq<string>, k: nat)
    requires k <= |ids| && forall i, j | 0 <= i < j < |ids| :: ids[i] != ids[j]
    ensures |FirstIds(ids, k)| == k
  {
    if k > 0 {
      FirstIdsSize(ids, k - 1);
      NextId(ids, k - 1);
    }
  }

  ghost predicate Mirrors(s: State<Quorum>, feed: seq<Envelope>, requestId: string, threshold: int,
    ids: seq<string>, ballots: seq<bool>)
    requires 1 <= |feed| <= |ids| + 1 && |ids| == |ballots|
  {
    && s.core.transcript == feed
    && requestId in s.own.requests && s.own.requests[requestId].requiredApprovals == threshold
    && VotedSenders(s.own, requestId) == FirstIds(ids, |feed| - 1)
    && ApprovalCount(s.own, requestId) == Yes(ballots[..|feed| - 1])
  }

  lemma FirstMirrors(c: Codec, feed: seq<Envelope>, requestId: string, threshold: int, ids: seq<string>, ballots: seq<bool>)
    requires SessionFeed(c, feed, requestId, threshold, ids, ballots) && |feed| == 1
    ensures Mirrors(After(c, feed), feed, requestId, threshold, ids, ballots)
  {
    assert feed == [] + [feed[0]];
    RunNext(QuorumMode(c), Initial(), [], feed[0]);
    RunNone(QuorumMode(c), Initial());
    assert After(c, feed).own.ballots == map[];
    assert Voted(map[], "approve") == {};
  }

  lemma NextMirrors(c: Codec, feed: seq<Envelope>, requestId: string, threshold: int, ids: seq<string>, ballots: seq<bool>)
    requires SessionFeed(c, feed, requestId, threshold, ids, ballots) && |feed| > 1
    requires Mirrors(After(c, feed[..|feed| - 1]), feed[..|feed| - 1], requestId, threshold, ids, ballots)
    ensures Mirrors(After(c, feed), feed, requestId, threshold, ids, ballots)
  {
    hide Apply, BallotOf, Voted, Yes, FirstIds;
    var k := |feed| - 1;
    var before, e := After(c, feed[..k]), feed[k];
    TranscriptDistinct(QuorumMode(c), Initial(), feed[..k]);
    NextId(ids, k - 1);
    YesNext(ballots, k - 1);
    var ballot := BallotOf(c, e).value;
    BallotApplied(c, before, e, ballot);
    OneMore(Column(before.own.ballots, requestId), e.sender, ballot);
    assert feed == feed[..k] + [e];
  }

  lemma {:induction false} SessionMirrors(
      c: Codec, feed: seq<Envelope>, requestId: string, threshold: int, ids: seq<string>, ballots: seq<bool>)
    requires SessionFeed(c, feed, requestId, threshold, ids, ballots)
    ensures Mirrors(After(c, feed), feed, requestId, threshold, ids, ballots)
    decreases |feed|
  {
    if |feed| == 1 {
      FirstMirrors(c, feed, requestId, threshold, ids, ballots);
    } else {
      var init := feed[..|feed| - 1];
      assert forall i | 0 <= i < |init| :: init[i] == feed[i];
      SessionMirrors(c, init, requestId, threshold, ids, ballots);
      NextMirrors(c, feed, requestId, threshold, ids, ballots);
    }
  }

  /**
    After every ballot the tally's outcome is what the session's own projection
    reports: approved with a quorum, rejected when it is unreachable.
   */
  lemma TallyMatchesProjection(
      c: Codec, feed: seq<Envelope>, requestId: string, threshold: int, ids: seq<string>, ballots: seq<bool>)
    requires SessionFeed(c, feed, requestId, threshold, ids, ballots)
    ensures var q := After(c, feed).own; var outcome := AfterBallots(ballots, |feed| - 1, threshold);
      && (outcome == Some(Approved) <==> HasQuorum(q, requestId, Unset))
      && (outcome == Some(Rejected) <==> IsThresholdUnreachable(q, requestId, |ids|, Unset))
  {
    SessionMirrors(c, feed, requestId, threshold, ids, ballots);
    FirstIdsSize(ids, |feed| - 1);
  }

  /** The request with the threshold, and one envelope for each ballot sent. */
  ghost predicate CarriesSent(
    c: Codec, feed: seq<Envelope>, requestId: string, threshold: int, sent: seq<(string, string)>)
  {
    && |feed| == |sent| + 1 && IdsDistinct(feed)
    && feed[0].mode == MODE_QUORUM && RequestOf(c, feed[0]).Some?
    && RequestOf(c, feed[0]).value.requestId == requestId && RequestOf(c, feed[0]).value.requiredApprovals == threshold
    && (forall i | 0 <= i < |sent| ::
          && feed[i + 1].mode == MODE_QUORUM && feed[i + 1].sender == sent[i].0 && feed[i + 1].messageType == sent[i].1
          && BallotOf(c, feed[i + 1]).Some? && BallotOf(c, feed[i + 1]).value.requestId == requestId)
  }

  lemma ApproveIsApproval(c: Codec, e: Envelope, recommendation: string)
    requires IsRecommendation(recommendation) && BallotOf(c, e).Some?
    requires e.messageType == MessageFor(BallotFor(recommendation))
    ensures BallotOf(c, e).value.vote == "approve" <==> BallotFor(recommendation) == "APPROVE"
  {
  }

  /**
    The session's own projection, fed the request and exactly the ballots sent, has its
    quorum if and only if approval is committed, and reports the threshold out of
    reach if and only if rejection is.
   */
  lemma CommittedAsProjected(
      c: Codec, feed: seq<Envelope>, requestId: string, threshold: int, ids: seq<string>, recommendations: seq<string>,
      sent: seq<(string, string)>, outcome: Outcome)
    requires |ids| == |recommendations| && Normalized(recommendations)
    requires forall i, j | 0 <= i < j < |ids| :: ids[i] != ids[j]
    requires SentUntilDecided(ids, recommendations, threshold, sent, outcome)
    requires CarriesSent(c, feed, requestId, threshold, sent)
    ensures var q := After(c, feed).own;
      && (outcome == Approved <==> HasQuorum(q, requestId, Unset))
      && (outcome == Rejected <==> IsThresholdUnreachable(q, requestId, |ids|, Unset))
  {
    hide BallotOf, BallotFor, MessageFor, Decide, Yes, HasQuorum, IsThresholdUnreachable;
    forall i | 1 <= i < |feed|
      ensures Carries(c, feed[i], requestId, ids[i - 1], Recommended(recommendations)[i - 1])
    {
      assert sent[i - 1] == Messages(ids, recommendations)[i - 1];
      assert feed[i - 1 + 1] == feed[i];
      ApproveIsApproval(c, feed[i], recommendations[i - 1]);
    }
    TallyMatchesProjection(c, feed, requestId, threshold, ids, Recommended(recommendations));
  }
}
