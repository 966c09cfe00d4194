/** The multi-round projection as the object it is: its fields updated in place. */
module MultiRoundClass {
  import opened Basics
  import Contribute
  import opened Projection
  import opened MultiRoundModel

  class MultiRoundProjection {
    const base: BaseProjection
    const codec: Codec
    var participants: seq<string>
    var initiator: Option<string>
    var contributions: map<string, string>
    var round: nat
    var converged: bool
    var convergedValue: Option<string>

    function Own(): Rounds
      reads this
    {
      Rounds(participants, initiator, contributions, round, converged, convergedValue)
    }

    function Model(): State<Rounds>
      reads this, base
    {
      State(base.Fields(), Own())
    }

    ghost predicate Valid() { base.mode == MODE_MULTI_ROUND && base.parseCommitment == codec.commitment }

    constructor (codec: Codec, participants: seq<string>, initiator: Option<string>)
      ensures Valid() && fresh(base) && this.codec == codec && Model() == Initial(participants, initiator)
    {
      this.codec := codec;
      base := new BaseProjection(MODE_MULTI_ROUND, codec.commitment, "Pending");
      this.participants, this.initiator := participants, initiator;
      contributions, round := map[], 0;
      converged, convergedValue := false, None;
    }

    method ApplyEnvelope(e: Envelope) returns (raised: bool)
      requires Valid()
      modifies this, base
      ensures (Model(), raised) == Apply(MultiRoundMode(codec), old(Model()), e)
    {
      hide Handle;
      var proceed := base.Enter(e);
      if !proceed {
        return false;
      }
      if e.messageType == "Commitment" {
        raised := base.TakeCommitment(e);
      } else {
        raised := ApplyModeMessage(e);
      }
      if raised {
        base.Undo(e);
      }
    }

    /** Parses before it changes anything. */
    method ApplyModeMessage(e: Envelope) returns (raised: bool)
      requires Valid()
      modifies this, base
      ensures match Handle(codec, old(Own()), e)
        case Raised => raised && Model() == old(Model())
        case Done(own, phase, anomaly) =>
          && !raised && Own() == own
          && base.Fields() == old(base.Fields()).(
            phase := SetPhase(old(base.phase), phase),
            anomalies := old(base.anomalies) + if anomaly.Some? then [anomaly.value] else [])
    {
      hide Contribute.ContributeValue, Contribute.Decide;
      raised := false;
      if e.messageType == "SessionStart" {
        var payload := codec.sessionStart(e.payload);
        if payload.None? {
          return true;
        }
        participants := payload.value;
        if e.sender != "" {
          initiator := Some(e.sender);
        }
        base.AssignPhase("Contributing");
      } else if e.messageType == "Contribute" {
        var value := Contribute.ContributeValue(e.payload);
        if value.None? || converged {
          return;
        }
        if participants != [] && e.sender !in participants {
          return;
        }
        if e.sender !in contributions || contributions[e.sender] != value.value {
          round := round + 1;
          contributions := contributions[e.sender := value.value];
        }
        CheckConvergence();
      }
    }

    method CheckConvergence()
      modifies this, base
      ensures Own() == Checked(old(Own()))
      ensures base.Fields() == old(base.Fields()).(phase := SetPhase(old(base.phase),
        if AllAgree(participants, contributions) then Some("Converged") else None))
    {
      if participants == [] {
        return;
      }
      if exists p | p in participants :: p !in contributions {
        return;
      }
      var values := set p | p in participants :: contributions[p];
      AgreeIff(participants, contributions, values);
      if |values| == 1 {
        converged := true;
        var value :| value in values;
        convergedValue := Some(value);
        base.AssignPhase("Converged");
      }
    }
  }

  /** A set of one holds only one. */
  lemma OneValue(values: set<string>, x: string)
    requires x in values
    ensures |values| == 1 <==> forall y | y in values :: y == x
  {
    SubsetSize({x}, values);
    if |values| == 1 {
      assert values - {x} == {};
    }
    if forall y | y in values :: y == x {
      assert values == {x};
    }
  }

  lemma AgreeIff(participants: seq<string>, contributions: map<string, string>, values: set<string>)
    requires participants != [] && (forall p | p in participants :: p in contributions)
    requires values == set p | p in participants :: contributions[p]
    ensures AllAgree(participants, contributions) <==> |values| == 1
    ensures contributions[participants[0]] in values
    ensures |values| == 1 ==> forall y | y in values :: y == contributions[participants[0]]
  {
    var x := contributions[participants[0]];
    assert participants[0] in participants;
    OneValue(values, x);
    if |values| == 1 {
      forall p | p in participants
        ensures contributions[p] == x
      {
        assert contributions[p] in values;
      }
    }
  }
}
