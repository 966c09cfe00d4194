/**
  `effective_quorum_threshold` of policy.py for whole numbers: the approval bar a
  bound policy sets, and what that bar means for the participants.
 */
module PolicyThreshold {
  import opened Basics
  import opened Ledger
  import opened QuorumModel

  const U32_MAX := 0xFFFF_FFFF

  /** A member of the decoded rules: missing, a string, a whole number, or anything else. */
  datatype Member = Missing | Text(text: string) | Number(value: int) | Other

  /** The decoded rules as far as the function reads them. */
  datatype Rules = NotMapping | NoThreshold | ThresholdNotMapping | Rules(kind: Member, value: Member)

  /** Python's `-(-a // b)`. */
  function CeilDiv(a: int, b: int): int
    requires b > 0
  {
    -(-a / b)
  }

  function Clamp(n: int): int {
    var least := if n > 1 then n else 1;
    if least < U32_MAX then least else U32_MAX
  }

  function EffectiveThreshold(rules: Rules, participants: nat, requiredApprovals: int): Option<int> {
    if !rules.Rules? then Some(requiredApprovals)
    else
      var kind := if rules.kind.Missing? then Text("n_of_m") else rules.kind;
      var value := if rules.value.Missing? then Number(0) else rules.value;
      if !kind.Text? || !value.Number? then Some(requiredApprovals)
      else if !(value.value > 0) then Some(requiredApprovals)
      else if kind.text == "percentage" then
        if participants == 0 then None
        else Some(Clamp(CeilDiv(value.value * participants, 100)))
      else if kind.text == "n_of_m" || kind.text == "count" then Some(Clamp(value.value))
      else None
  }

  function Percentage(value: int): Rules { Rules(Text("percentage"), Number(value)) }

  /** Enough of `n` participants for `value` percent. */
  predicate Enough(t: int, value: int, n: int) { t >= 1 && 100 * t >= value * n }

  lemma CeilIsLeast(a: int, t: int)
    ensures 100 * t >= a <==> t >= CeilDiv(a, 100)
  {
    hide CeilDiv;
    CeilBounds(a);
  }

  lemma CeilBounds(a: int)
    ensures 100 * CeilDiv(a, 100) - 100 < a <= 100 * CeilDiv(a, 100)
  {
    var q, r := -a / 100, -a % 100;
    assert -a == 100 * q + r;
  }

  lemma Product(value: int, n: int)
    requires value >= 1 && n >= 1
    ensures value * n >= 1 && (value <= 100 <==> value * n <= 100 * n)
  {
    if value <= 100 {
      assert value * n <= 100 * n by { Monotone(value, 100, n); }
    } else {
      assert 100 * n < value * n by { Monotone(101, value, n); }
    }
    assert n <= value * n by { Monotone(1, value, n); }
  }

  lemma Monotone(a: int, b: int, n: int)
    requires a <= b && n >= 0
    ensures a * n <= b * n
  {
    assert (b - a) * n >= 0;
    assert b * n == a * n + (b - a) * n;
  }

  /**
    A whole percentage of at least one participant sets the least number that is
    enough, up to the 32-bit limit; it is within the participants exactly for
    percentages up to 100 (or at that limit).
   */
  lemma PercentageIsLeast(value: int, n: nat, requiredApprovals: int)
    requires value >= 1 && n >= 1
    ensures EffectiveThreshold(Percentage(value), n, requiredApprovals).Some?
    ensures var t := EffectiveThreshold(Percentage(value), n, requiredApprovals).value;
      && (t < U32_MAX ==> Enough(t, value, n))
      && (forall u | Enough(u, value, n) :: t <= u)
      && (n <= U32_MAX && value <= 100 ==> Enough(t, value, n) && t <= n)
      && (t <= n <==> value <= 100 || n >= U32_MAX)
  {
    var raw := CeilDiv(value * n, 100);
    Product(value, n);
    forall u: int
      ensures 100 * u >= value * n <==> u >= raw
    {
      CeilIsLeast(value * n, u);
    }
    assert 100 * 0 < value * n;
    assert value <= 100 <==> n >= raw;
  }

  /** What the readiness helpers are given. */
  function AsThreshold(t: Option<int>): Threshold { if t.None? then Unsatisfiable else Given(t.value) }

  /** A percentage of nobody, or an unknown kind of threshold. */
  predicate Unmeetable(rules: Rules, n: nat) {
    && rules.Rules? && rules.kind.Text? && rules.value.Number? && rules.value.value > 0
    && rules.kind.text != "n_of_m" && rules.kind.text != "count" && (rules.kind.text == "percentage" ==> n == 0)
  }

  /** Those are exactly the rules under which a known request is out of reach of every electorate. */
  lemma UnsatisfiableIff(q: Quorum, requestId: string, rules: Rules, n: nat, requiredApprovals: int)
    requires requestId in q.requests
    ensures var t := AsThreshold(EffectiveThreshold(rules, n, requiredApprovals));
      (forall totalEligible: nat :: IsThresholdUnreachable(q, requestId, totalEligible, t)) <==> Unmeetable(rules, n)
  {
    var t := AsThreshold(EffectiveThreshold(rules, n, requiredApprovals));
    if t.Given? {
      var enough: nat := |VotedSenders(q, requestId)| + if t.approvals > 0 then t.approvals else 0;
      assert !IsThresholdUnreachable(q, requestId, enough, t);
    }
  }

  /** Before any ballot, a percentage bar is reported unreachable exactly when it is over 100. */
  lemma OverHundredUnreachable(q: Quorum, requestId: string, value: int, n: nat, requiredApprovals: int)
    requires requestId in q.requests && Column(q.ballots, requestId) == map[]
    requires value >= 1 && 1 <= n < U32_MAX
    ensures var t := AsThreshold(EffectiveThreshold(Percentage(value), n, requiredApprovals));
      IsThresholdUnreachable(q, requestId, n, t) <==> value > 100
  {
    PercentageIsLeast(value, n, requiredApprovals);
    assert Voted(map[], "approve") == {};
    assert VotedSenders(q, requestId) == {};
  }

  /** Rules by which a number of approvals is asked for, whatever the number of participants. */
  predicate AsksCount(rules: Rules, v: int) {
    && rules.Rules? && rules.value == Number(v) && v >= 1
    && (rules.kind.Missing? || rules.kind == Text("n_of_m") || rules.kind == Text("count"))
  }

  /**
    Under such rules a known request has its quorum exactly with that many approvals,
    up to the 32-bit limit, and is out of reach exactly when the voters left cannot
    bring it there: before any ballot, when there are fewer participants.
   */
  lemma CountIsBar(q: Quorum, requestId: string, rules: Rules, v: int, n: nat, requiredApprovals: int)
    requires requestId in q.requests && AsksCount(rules, v)
    ensures var t := AsThreshold(EffectiveThreshold(rules, n, requiredApprovals));
      var bar := if v < 0xFFFF_FFFF then v else 0xFFFF_FFFF; var approvals := ApprovalCount(q, requestId);
      && (HasQuorum(q, requestId, t) <==> approvals >= bar)
      && (IsThresholdUnreachable(q, requestId, n, t) <==> approvals + n - |VotedSenders(q, requestId)| < bar)
      && (Column(q.ballots, requestId) == map[] ==> (IsThresholdUnreachable(q, requestId, n, t) <==> n < bar))
  {
    if Column(q.ballots, requestId) == map[] {
      assert Voted(map[], "approve") == {};
      assert VotedSenders(q, requestId) == {};
    }
  }

  /** Rules that set no bar: none, no threshold, mistyped members, or a value that is not positive. */
  predicate SetsNoBar(rules: Rules) {
    rules.Rules? ==>
      rules.kind.Number? || rules.kind.Other? || !rules.value.Number? || rules.value.value <= 0
  }

  /** Under them the queries answer by the request's own number; under any others, never for its sake. */
  lemma NoBarIff(rules: Rules, n: nat)
    ensures SetsNoBar(rules) <==> forall own: int :: EffectiveThreshold(rules, n, own) == Some(own)
    ensures !SetsNoBar(rules) ==> forall a: int, b: int ::
      EffectiveThreshold(rules, n, a) == EffectiveThreshold(rules, n, b)
  {
    assert !SetsNoBar(rules) ==> EffectiveThreshold(rules, n, 0) != Some(0) || EffectiveThreshold(rules, n, 1) != Some(1);
  }

  lemma OwnNumberStands(q: Quorum, requestId: string, rules: Rules, n: nat, totalEligible: int)
    requires requestId in q.requests && SetsNoBar(rules)
    ensures var t := AsThreshold(EffectiveThreshold(rules, n, q.requests[requestId].requiredApprovals));
      && (HasQuorum(q, requestId, t) <==> HasQuorum(q, requestId, Unset))
      && (IsThresholdUnreachable(q, requestId, totalEligible, t) <==>
            IsThresholdUnreachable(q, requestId, totalEligible, Unset))
      && RemainingVotesNeeded(q, requestId, t) == RemainingVotesNeeded(q, requestId, Unset)
  {
  }
}
