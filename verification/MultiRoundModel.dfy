/**
  The multi-round projection: each participant's latest value, a round that
  advances with every change, and sticky convergence.
 */
module MultiRoundModel {
  import opened Basics
  import Commitment
  import Contribute
  import Utf8
  import opened Projection

  const MODE_MULTI_ROUND := "ext.multi_round.v1"

  /** Payload parsing, which may fail; a Contribute is decoded by its own two parsers. */
  datatype Codec = Codec(
    commitment: Bytes -> Option<Commitment.Payload>,
    sessionStart: Bytes -> Option<seq<string>>)

  datatype Rounds = Rounds(
    participants: seq<string>, initiator: Option<string>, contributions: map<string, string>,
    round: nat, converged: bool, convergedValue: Option<string>)

  // ----- the handler

  /** Every participant has contributed, and all their values are equal. */
  predicate AllAgree(participants: seq<string>, contributions: map<string, string>) {
    && participants != []
    && (forall p | p in participants :: p in contributions)
    && (forall p | p in participants :: contributions[p] == contributions[participants[0]])
  }

  /** `_check_convergence`. */
  function Checked(own: Rounds): Rounds {
    if AllAgree(own.participants, own.contributions) then
      own.(converged := true, convergedValue := Some(own.contributions[own.participants[0]]))
    else own
  }

  predicate MayContribute(own: Rounds, sender: string) { own.participants == [] || sender in own.participants }

  predicate Differs(own: Rounds, sender: string, value: string) {
    sender !in own.contributions || own.contributions[sender] != value
  }

  function HandleValue(own: Rounds, sender: string, value: string): Effect<Rounds> {
    if own.converged || !MayContribute(own, sender) then Done(own, None, None)
    else
      var counted :=
        if Differs(own, sender, value) then
          own.(round := own.round + 1, contributions := own.contributions[sender := value])
        else own;
      Done(Checked(counted),
        if AllAgree(counted.participants, counted.contributions) then Some("Converged") else None, None)
  }

  function Handle(c: Codec, own: Rounds, e: Envelope): Effect<Rounds> {
    if e.messageType == "SessionStart" then
      match c.sessionStart(e.payload)
      case None => Raised
      case Some(participants) =>
        var initiator := if e.sender != "" then Some(e.sender) else own.initiator;
        Done(own.(participants := participants, initiator := initiator), Some("Contributing"), None)
    else if e.messageType == "Contribute" then
      match Contribute.ContributeValue(e.payload)
      case None => Done(own, None, None)
      case Some(value) => HandleValue(own, e.sender, value)
    else Done(own, None, None)
  }

  function MultiRoundMode(c: Codec): Mode<Rounds> {
    Mode(MODE_MULTI_ROUND, c.commitment, (own, phase, e) => Handle(c, own, e))
  }

  function Initial(participants: seq<string>, initiator: Option<string>): State<Rounds> {
    State(Core([], "Pending", None, {}, []), Rounds(participants, initiator, map[], 0, false, None))
  }

  lemma NeverAsksToCommit(c: Codec)
    ensures NeverCommits(MultiRoundMode(c))
  {
    hide Contribute.ContributeValue;
  }

  /** Replay determinism, with the same constructor arguments, and the final phase. */
  lemma {:induction false} MultiRoundReplays(
      c: Codec, participants: seq<string>, initiator: Option<string>, feed: seq<Envelope>)
    ensures var start := Initial(participants, initiator); var s := Run(MultiRoundMode(c), start, feed);
      && Run(MultiRoundMode(c), start, s.core.transcript) == s
      && (s.core.phase == COMMITTED <==> s.core.commitment.Some?)
  {
    hide Handle;
    NeverAsksToCommit(c);
    ReplayDeterminism(MultiRoundMode(c), Initial(participants, initiator), feed);
    CommittedIff(MultiRoundMode(c), Initial(participants, initiator), feed);
  }

  // ----- convergence is sticky

  predicate Frozen(own: Rounds, later: Rounds) {
    later.converged && later.convergedValue == own.convergedValue
    && later.contributions == own.contributions && later.round == own.round
  }

  lemma StaysConverged(c: Codec, s: State<Rounds>, e: Envelope)
    requires s.own.converged
    ensures Frozen(s.own, Apply(MultiRoundMode(c), s, e).0.own)
  {
    hide Contribute.ContributeValue;
  }

  /** After convergence no feed changes a value, the round or the outcome. */
  lemma {:induction false} ConvergenceSticky(c: Codec, s: State<Rounds>, feed: seq<Envelope>)
    requires s.own.converged
    ensures Frozen(s.own, Run(MultiRoundMode(c), s, feed).own)
  {
    hide Apply;
    if feed != [] {
      ConvergenceSticky(c, s, feed[..|feed| - 1]);
      StaysConverged(c, Run(MultiRoundMode(c), s, feed[..|feed| - 1]), feed[|feed| - 1]);
    }
  }

  // ----- what convergence means

  ghost predicate Consistent(own: Rounds) {
    && (own.converged <==> AllAgree(own.participants, own.contributions))
    && own.convergedValue == if own.converged then Some(own.contributions[own.participants[0]]) else None
  }

  lemma ValueConsistent(own: Rounds, sender: string, value: string)
    requires Consistent(own)
    ensures Consistent(HandleValue(own, sender, value).own)
  {
  }

  predicate Starts(e: Envelope) { e.messageType == "SessionStart" }

  predicate Contributes(e: Envelope) { e.messageType == "Contribute" }

  /** A SessionStart that is applied. */
  predicate Restarts(c: Codec, s: State<Rounds>, e: Envelope) {
    Starts(e) && !Ignored(MultiRoundMode(c), s.core, e) && c.sessionStart(e.payload).Some?
  }

  /**
    Who starts, against what is held: before convergence they must not all agree
    already, and after it they must all hold the converged value.
   */
  predicate Fits(own: Rounds, participants: seq<string>) {
    if own.converged then
      AllAgree(participants, own.contributions) && Some(own.contributions[participants[0]]) == own.convergedValue
    else !AllAgree(participants, own.contributions)
  }

  /** Only a SessionStart can make a consistent projection inconsistent, and it does exactly when it does not fit. */
  lemma StepConsistent(c: Codec, s: State<Rounds>, e: Envelope)
    requires Consistent(s.own)
    ensures Consistent(Apply(MultiRoundMode(c), s, e).0.own) <==>
      (Restarts(c, s, e) ==> Fits(s.own, c.sessionStart(e.payload).value))
  {
    hide Contribute.ContributeValue, Apply, AllAgree, Ignored;
    var mode := MultiRoundMode(c);
    if Restarts(c, s, e) {
      StartTaken(c, s, e);
    } else if Apply(mode, s, e).0 != s {
      Effects(mode, s, e);
      NotIgnored(mode, s, e);
      if Contributes(e) && Contribute.ContributeValue(e.payload).Some? {
        ValueConsistent(s.own, e.sender, Contribute.ContributeValue(e.payload).value);
      }
    }
  }

  lemma NotIgnored<M>(mode: Mode<M>, s: State<M>, e: Envelope)
    requires Apply(mode, s, e).0 != s
    ensures !Ignored(mode, s.core, e)
  {
  }

  lemma StartTaken(c: Codec, s: State<Rounds>, e: Envelope)
    requires Restarts(c, s, e)
    ensures var after := Apply(MultiRoundMode(c), s, e).0.own;
      after == s.own.(participants := c.sessionStart(e.payload).value, initiator := after.initiator)
  {
    hide Contribute.ContributeValue;
  }

  ghost function Before(c: Codec, start: State<Rounds>, feed: seq<Envelope>, k: nat): State<Rounds>
    requires k <= |feed|
  {
    Run(MultiRoundMode(c), start, feed[..k])
  }

  ghost predicate ConsistentThroughout(c: Codec, start: State<Rounds>, feed: seq<Envelope>) {
    forall k | 0 <= k <= |feed| :: Consistent(Before(c, start, feed, k).own)
  }

  ghost predicate StartFits(c: Codec, start: State<Rounds>, feed: seq<Envelope>, k: nat)
    requires k < |feed|
  {
    var s := Before(c, start, feed, k);
    Restarts(c, s, feed[k]) ==> Fits(s.own, c.sessionStart(feed[k].payload).value)
  }

  ghost predicate StartsFit(c: Codec, start: State<Rounds>, feed: seq<Envelope>) {
    forall k | 0 <= k < |feed| :: StartFits(c, start, feed, k)
  }

  lemma BeforeNext(c: Codec, start: State<Rounds>, feed: seq<Envelope>, k: nat)
    requires k < |feed|
    ensures Before(c, start, feed, k + 1) == Apply(MultiRoundMode(c), Before(c, start, feed, k), feed[k]).0
  {
    hide Apply;
    assert feed[..k + 1] == feed[..k] + [feed[k]];
    RunNext(MultiRoundMode(c), start, feed[..k], feed[k]);
  }

  lemma {:induction false} FitsSoFar(c: Codec, start: State<Rounds>, feed: seq<Envelope>, k: nat)
    requires Consistent(start.own) && StartsFit(c, start, feed) && k <= |feed|
    ensures Consistent(Before(c, start, feed, k).own)
  {
    hide Apply, Consistent, Fits, Restarts, Run;
    if k == 0 {
      RunNone(MultiRoundMode(c), start);
      assert feed[..0] == [];
    } else {
      FitsSoFar(c, start, feed, k - 1);
      assert StartFits(c, start, feed, k - 1);
      BeforeNext(c, start, feed, k - 1);
      StepConsistent(c, Before(c, start, feed, k - 1), feed[k - 1]);
    }
  }

  lemma NewConsistent(participants: seq<string>, initiator: Option<string>)
    ensures Consistent(Initial(participants, initiator).own)
  {
    if participants != [] {
      assert participants[0] in participants;
    }
  }

  /**
    Over any feed, the projection is converged exactly when all its participants hold
    equal values, and on that value, after every message: if and only if every
    SessionStart applied fits what is held when it comes.
   */
  lemma ConsistentIff(c: Codec, participants: seq<string>, initiator: Option<string>, feed: seq<Envelope>)
    ensures var start := Initial(participants, initiator);
      ConsistentThroughout(c, start, feed) <==> StartsFit(c, start, feed)
  {
    hide Apply, Consistent, Fits, Restarts, Run;
    var start := Initial(participants, initiator);
    NewConsistent(participants, initiator);
    if StartsFit(c, start, feed) {
      forall k | 0 <= k <= |feed|
        ensures Consistent(Before(c, start, feed, k).own)
      {
        FitsSoFar(c, start, feed, k);
      }
    }
    if ConsistentThroughout(c, start, feed) {
      forall k | 0 <= k < |feed|
        ensures StartFits(c, start, feed, k)
      {
        assert Consistent(Before(c, start, feed, k).own) && Consistent(Before(c, start, feed, k + 1).own);
        BeforeNext(c, start, feed, k);
        StepConsistent(c, Before(c, start, feed, k), feed[k]);
      }
    }
  }

  /** No SessionStart comes after a Contribute. */
  ghost predicate StartsFirst(feed: seq<Envelope>) {
    forall i, j | 0 <= i < j < |feed| && Contributes(feed[i]) :: !Starts(feed[j])
  }

  lemma {:induction false} NothingContributed(c: Codec, start: State<Rounds>, feed: seq<Envelope>, k: nat)
    requires k <= |feed| && start.own.contributions == map[] && !start.own.converged
    requires forall i | 0 <= i < k :: !Contributes(feed[i])
    ensures Before(c, start, feed, k).own.contributions == map[] && !Before(c, start, feed, k).own.converged
  {
    hide Apply;
    if k == 0 {
      assert feed[..0] == [];
    } else {
      NothingContributed(c, start, feed, k - 1);
      BeforeNext(c, start, feed, k - 1);
      if Before(c, start, feed, k) != Before(c, start, feed, k - 1) {
        Effects(MultiRoundMode(c), Before(c, start, feed, k - 1), feed[k - 1]);
      }
    }
  }

  /** Where sessions start before anyone contributes, they all fit. */
  lemma StartsFirstFit(c: Codec, participants: seq<string>, initiator: Option<string>, feed: seq<Envelope>)
    requires StartsFirst(feed)
    ensures StartsFit(c, Initial(participants, initiator), feed)
  {
    hide Run, Apply, Restarts, Consistent;
    var start := Initial(participants, initiator);
    forall k | 0 <= k < |feed|
      ensures StartFits(c, start, feed, k)
    {
      if Restarts(c, Before(c, start, feed, k), feed[k]) {
        RestartStarts(c, Before(c, start, feed, k), feed[k]);
        NothingContributed(c, start, feed, k);
        NobodyAgrees(c.sessionStart(feed[k].payload).value);
      }
    }
  }

  lemma RestartStarts(c: Codec, s: State<Rounds>, e: Envelope)
    requires Restarts(c, s, e)
    ensures Starts(e) && c.sessionStart(e.payload).Some?
  {
  }

  lemma NobodyAgrees(participants: seq<string>)
    ensures !AllAgree(participants, map[])
  {
    if participants != [] {
      assert participants[0] in participants;
    }
  }

  // ----- the two ways a SessionStart does not fit, each reached

  function Contribution(sender: string, value: string): Envelope {
    Envelope(MODE_MULTI_ROUND, "Contribute", "", "", sender, Contribute.CanonicalProto(value))
  }

  function SessionStart(sender: string, payload: Bytes): Envelope {
    Envelope(MODE_MULTI_ROUND, "SessionStart", "", "", sender, payload)
  }

  lemma ContributionValue(sender: string, value: string)
    requires value != "" && Utf8.Ascii(value) && |value| < 100
    ensures Contribute.ContributeValue(Contribution(sender, value).payload) == Some(value)
  {
    Utf8.EncodeAscii(value);
    Contribute.TieBreak(value);
  }

  lemma RunTwo(c: Codec, start: State<Rounds>, a: Envelope, b: Envelope)
    ensures var mode := MultiRoundMode(c);
      Run(mode, start, [a, b]) == Apply(mode, Apply(mode, start, a).0, b).0
  {
    hide Apply;
    var mode := MultiRoundMode(c);
    RunNone(mode, start);
    RunNext(mode, start, [], a);
    RunNext(mode, start, [a], b);
    assert [] + [a] == [a] && [a] + [b] == [a, b];
  }

  /** `a` contributes while the participants are unknown, then a session of just `a` starts: all agree, unconverged. */
  lemma StartAfterAgreement(c: Codec, payload: Bytes)
    requires c.sessionStart(payload) == Some(["a"])
    ensures var own := Run(MultiRoundMode(c), Initial([], None), [Contribution("a", "x"), SessionStart("s", payload)]).own;
      AllAgree(own.participants, own.contributions) && !own.converged && !Consistent(own)
  {
    hide Contribute.ContributeValue, Run;
    ContributionValue("a", "x");
    RunTwo(c, Initial([], None), Contribution("a", "x"), SessionStart("s", payload));
  }

  /** `a` converges alone, then a session of `a` and `b` starts: converged, and not all have contributed. */
  lemma StartAfterConvergence(c: Codec, payload: Bytes)
    requires c.sessionStart(payload) == Some(["a", "b"])
    ensures var feed := [Contribution("a", "x"), SessionStart("s", payload)];
      var own := Run(MultiRoundMode(c), Initial(["a"], None), feed).own;
      own.converged && !AllAgree(own.participants, own.contributions) && !Consistent(own)
  {
    hide Contribute.ContributeValue, Run;
    ContributionValue("a", "x");
    RunTwo(c, Initial(["a"], None), Contribution("a", "x"), SessionStart("s", payload));
    assert ["a", "b"][1] == "b" && "b" in ["a", "b"];
  }

  // ----- when the projection has converged, over any feed at all

  /** At `k` a Contribute counts, and leaves all participants of that moment in agreement. */
  ghost predicate AgreedAt(c: Codec, start: State<Rounds>, feed: seq<Envelope>, k: nat) {
    k < |feed| &&
    var s, e := Before(c, start, feed, k), feed[k];
    var value := Contribute.ContributeValue(e.payload);
    && !Ignored(MultiRoundMode(c), s.core, e) && Contributes(e) && value.Some? && MayContribute(s.own, e.sender)
    && AllAgree(s.own.participants, Before(c, start, feed, k + 1).own.contributions)
  }

  /** The value they agree on. */
  ghost function AgreedValue(c: Codec, start: State<Rounds>, feed: seq<Envelope>, k: nat): string
    requires AgreedAt(c, start, feed, k)
  {
    var s := Before(c, start, feed, k);
    Before(c, start, feed, k + 1).own.contributions[s.own.participants[0]]
  }

  ghost predicate FirstAgreed(c: Codec, start: State<Rounds>, feed: seq<Envelope>, k: nat) {
    AgreedAt(c, start, feed, k) && forall j: nat | j < k :: !AgreedAt(c, start, feed, j)
  }

  /** One message converges the projection exactly if it is such a Contribute. */
  lemma ConvergingStep(c: Codec, s: State<Rounds>, e: Envelope)
    requires !s.own.converged
    ensures var after := Apply(MultiRoundMode(c), s, e).0.own; var value := Contribute.ContributeValue(e.payload);
      && (after.converged <==>
            !Ignored(MultiRoundMode(c), s.core, e) && Contributes(e) && value.Some? && MayContribute(s.own, e.sender)
            && AllAgree(s.own.participants, after.contributions))
      && (after.converged ==> after.convergedValue == Some(after.contributions[s.own.participants[0]]))
  {
    hide Contribute.ContributeValue;
  }

  lemma {:induction false} ConvergedBy(c: Codec, start: State<Rounds>, feed: seq<Envelope>, k: nat)
    requires !start.own.converged && k <= |feed|
    ensures Before(c, start, feed, k).own.converged <==> exists j: nat :: j < k && AgreedAt(c, start, feed, j)
    ensures forall j: nat | j < k && FirstAgreed(c, start, feed, j) ::
      Before(c, start, feed, k).own.convergedValue == Some(AgreedValue(c, start, feed, j))
  {
    hide Apply, Run, Contribute.ContributeValue, AllAgree, Ignored;
    if k == 0 {
      RunNone(MultiRoundMode(c), start);
      assert feed[..0] == [];
    } else {
      var before := Before(c, start, feed, k - 1);
      ConvergedBy(c, start, feed, k - 1);
      BeforeNext(c, start, feed, k - 1);
      if before.own.converged {
        StaysConverged(c, before, feed[k - 1]);
      } else {
        ConvergingStep(c, before, feed[k - 1]);
        assert Before(c, start, feed, k).own.converged <==> AgreedAt(c, start, feed, k - 1) by {
          assert k - 1 + 1 == k;
        }
      }
    }
  }

  /**
    Over any feed, whatever SessionStarts it holds and when: the projection has
    converged exactly when some Contribute left all participants of that moment in
    agreement, and on the value the first such Contribute left them with.
   */
  lemma ConvergedIff(c: Codec, participants: seq<string>, initiator: Option<string>, feed: seq<Envelope>)
    ensures var start := Initial(participants, initiator); var own := Run(MultiRoundMode(c), start, feed).own;
      && (own.converged <==> exists k: nat :: AgreedAt(c, start, feed, k))
      && (forall k: nat | FirstAgreed(c, start, feed, k) ::
            own.convergedValue == Some(AgreedValue(c, start, feed, k)))
  {
    hide Run, AgreedValue;
    assert feed[..|feed|] == feed;
    ConvergedBy(c, Initial(participants, initiator), feed, |feed|);
  }

  // ----- the round

  /** How often a value was new or changed as the transcript was applied. */
  ghost function Changes(c: Codec, start: State<Rounds>, transcript: seq<Envelope>): nat {
    if transcript == [] then 0
    else
      var init := transcript[..|transcript| - 1];
      Changes(c, start, init) +
      if Run(MultiRoundMode(c), start, init).own.contributions !=
        Run(MultiRoundMode(c), start, transcript).own.contributions then 1 else 0
  }

  lemma RoundStep(c: Codec, own: Rounds, e: Envelope)
    requires Handle(c, own, e).Done?
    ensures var next := Handle(c, own, e).own;
      next.round == own.round + if next.contributions != own.contributions then 1 else 0
  {
    hide Contribute.ContributeValue;
    if Contributes(e) && Contribute.ContributeValue(e.payload).Some? {
      var value := Contribute.ContributeValue(e.payload).value;
      if Differs(own, e.sender, value) {
        assert own.contributions[e.sender := value][e.sender] == value;
      }
    }
  }

  lemma ChangesNext(c: Codec, start: State<Rounds>, transcript: seq<Envelope>, e: Envelope)
    ensures Changes(c, start, transcript + [e]) == Changes(c, start, transcript) +
      if Run(MultiRoundMode(c), start, transcript).own.contributions !=
        Run(MultiRoundMode(c), start, transcript + [e]).own.contributions then 1 else 0
  {
    hide Run;
    assert (transcript + [e])[..|transcript|] == transcript;
  }

  lemma RoundKept(c: Codec, s: State<Rounds>, e: Envelope)
    requires Apply(MultiRoundMode(c), s, e).0 != s
    ensures var after := Apply(MultiRoundMode(c), s, e).0;
      && after.core.transcript == s.core.transcript + [e]
      && after.own.round == s.own.round + if after.own.contributions != s.own.contributions then 1 else 0
  {
    hide Apply, Handle;
    Effects(MultiRoundMode(c), s, e);
    if e.messageType != "Commitment" {
      RoundStep(c, s.own, e);
    }
  }

  /** The round is the number of changes, so re-sent values do not advance it. */
  lemma {:induction false} RoundCountsChanges(
      c: Codec, participants: seq<string>, initiator: Option<string>, feed: seq<Envelope>)
    ensures var start := Initial(participants, initiator); var s := Run(MultiRoundMode(c), start, feed);
      s.own.round == Changes(c, start, s.core.transcript)
  {
    hide Apply, Handle, Changes;
    var mode, start := MultiRoundMode(c), Initial(participants, initiator);
    if feed == [] {
      ChangesNone(c, start);
    } else {
      var init, last := feed[..|feed| - 1], feed[|feed| - 1];
      var before := Run(mode, start, init);
      RoundCountsChanges(c, participants, initiator, init);
      var after := Apply(mode, before, last).0;
      assert Run(mode, start, feed) == after;
      if after != before {
        RoundKept(c, before, last);
        ChangesNext(c, start, before.core.transcript, last);
        ReplayDeterminism(mode, start, init);
        ReplayDeterminism(mode, start, feed);
      }
    }
  }

  lemma ChangesNone(c: Codec, start: State<Rounds>)
    ensures Changes(c, start, []) == 0
  {
  }

  // ----- values, participants and phase, from the transcript

  /** A sender's value: the one of its latest Contribute that decoded and was allowed, before convergence. */
  function NextValue(sender: string, own: Rounds, e: Envelope, held: Option<string>): Option<string> {
    if e.messageType == "Contribute" && e.sender == sender && !own.converged
      && (own.participants == [] || sender in own.participants)
    then
      var value := Contribute.ContributeValue(e.payload);
      if value.Some? then value else held
    else held
  }

  function Held(sender: string): Rounds -> Option<string> {
    (own: Rounds) => if sender in own.contributions then Some(own.contributions[sender]) else None
  }

  lemma ValueSeen(c: Codec, sender: string, own: Rounds, e: Envelope)
    requires Handle(c, own, e).Done?
    ensures Held(sender)(Handle(c, own, e).own) == NextValue(sender, own, e, Held(sender)(own))
  {
    hide Contribute.ContributeValue, AllAgree;
  }

  /** What a participant is held to have said, whatever the feed. */
  lemma ValuesTold(c: Codec, participants: seq<string>, initiator: Option<string>, feed: seq<Envelope>, sender: string)
    ensures var mode, start := MultiRoundMode(c), Initial(participants, initiator); var s := Run(mode, start, feed);
      Held(sender)(s.own) == Told(mode, start, None, (own, e, v) => NextValue(sender, own, e, v), s.core.transcript)
  {
    hide Handle, NextValue, Run, Told;
    forall own, e | Handle(c, own, e).Done?
      ensures Held(sender)(Handle(c, own, e).own) == NextValue(sender, own, e, Held(sender)(own))
    {
      ValueSeen(c, sender, own, e);
    }
    SeenAsTold(MultiRoundMode(c), Initial(participants, initiator), Held(sender),
      (own, e, v) => NextValue(sender, own, e, v), feed);
  }

  /** Who takes part and who began: the constructor's until a SessionStart, whose empty sender names nobody. */
  function NextParties(
      c: Codec, e: Envelope, parties: (seq<string>, Option<string>)): (seq<string>, Option<string>) {
    if e.messageType == "SessionStart" && c.sessionStart(e.payload).Some? then
      (c.sessionStart(e.payload).value, if e.sender == "" then parties.1 else Some(e.sender))
    else parties
  }

  lemma PartiesSeen(c: Codec, own: Rounds, e: Envelope)
    requires Handle(c, own, e).Done?
    ensures var next := Handle(c, own, e).own;
      (next.participants, next.initiator) == NextParties(c, e, (own.participants, own.initiator))
  {
    hide Contribute.ContributeValue, AllAgree;
  }

  lemma PartiesTold(c: Codec, participants: seq<string>, initiator: Option<string>, feed: seq<Envelope>)
    ensures var mode, start := MultiRoundMode(c), Initial(participants, initiator); var s := Run(mode, start, feed);
      (s.own.participants, s.own.initiator) ==
        Told(mode, start, (participants, initiator), (own, e, x) => NextParties(c, e, x), s.core.transcript)
  {
    hide Handle, NextParties, Run, Told;
    forall own, e | Handle(c, own, e).Done?
      ensures var next := Handle(c, own, e).own;
        (next.participants, next.initiator) == NextParties(c, e, (own.participants, own.initiator))
    {
      PartiesSeen(c, own, e);
    }
    SeenAsTold(MultiRoundMode(c), Initial(participants, initiator), (own: Rounds) => (own.participants, own.initiator),
      (own, e, x) => NextParties(c, e, x), feed);
  }

  /** A SessionStart asks for "Contributing", a Contribute that brings convergence for "Converged". */
  function PhaseAsked(c: Codec, own: Rounds, e: Envelope): Option<string> {
    if e.messageType == "SessionStart" && c.sessionStart(e.payload).Some? then Some("Contributing")
    else if e.messageType == "Contribute" && Handle(c, own, e).own.converged && !own.converged then Some("Converged")
    else None
  }

  lemma PhaseAskedRight(c: Codec)
    ensures AsksRight(MultiRoundMode(c), (own, phase, e) => PhaseAsked(c, own, e))
  {
    hide Contribute.ContributeValue, AllAgree;
  }

  /** The phase is the last one asked for, "Pending" at first, and "Committed" with a commitment. */
  lemma PhaseTold(c: Codec, participants: seq<string>, initiator: Option<string>, feed: seq<Envelope>)
    ensures var mode, start := MultiRoundMode(c), Initial(participants, initiator); var core := Run(mode, start, feed).core;
      && mode.name == "ext.multi_round.v1" && start.core.phase == "Pending"
      && core.phase == if core.commitment.Some? then "Committed"
        else LastPhase(mode, start, (own, phase, e) => PhaseAsked(c, own, e), core.transcript)
  {
    hide Handle, PhaseAsked, Run, LastPhase;
    NeverAsksToCommit(c);
    PhaseAskedRight(c);
    PhaseIsLast(MultiRoundMode(c), Initial(participants, initiator), (own, phase, e) => PhaseAsked(c, own, e), feed);
  }

  predicate AllHold(participants: seq<string>, contributions: map<string, string>, v: string) {
    forall i | 0 <= i < |participants| :: participants[i] in contributions && contributions[participants[i]] == v
  }

  /** All agree when there are participants and each holds one and the same value. */
  lemma AllAgreeIff(participants: seq<string>, contributions: map<string, string>)
    ensures AllAgree(participants, contributions) <==>
      participants != [] && exists v :: AllHold(participants, contributions, v)
  {
    if AllAgree(participants, contributions) {
      assert forall i | 0 <= i < |participants| :: participants[i] in participants;
      assert AllHold(participants, contributions, contributions[participants[0]]);
    }
  }
}
