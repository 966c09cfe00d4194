/**
  The nine-field projection of a commitment: printed by hand in
  commitment_hash.py, as a dict in receipt.py, and read back from one.
 */
module Commitment {
  import opened Basics
  import Utf8
  import opened JsonEscape
  import opened Sorting
  import opened Jcs

  /** `unknown` holds the numbers of wire fields the schema does not know. */
  datatype Ref = Ref(sessionId: string, commitmentHash: string, unknown: seq<nat>)

  datatype Payload = Payload(
    commitmentId: string,
    action: string,
    authorityScope: string,
    reason: string,
    modeVersion: string,
    policyVersion: string,
    configurationVersion: string,
    outcomePositive: bool,
    supersedes: Option<Ref>,
    unknown: seq<nat>)

  /** No field outside the frozen set, at either level. */
  predicate Hashable(p: Payload) {
    p.unknown == [] && (p.supersedes.Some? ==> p.supersedes.value.unknown == [])
  }

  const NAMES := [
    "action", "authority_scope", "commitment_id", "configuration_version", "mode_version",
    "outcome_positive", "policy_version", "reason", "supersedes"]

  const REF_NAMES := ["commitment_hash", "session_id"]

  /** The field names of the installed message types. */
  datatype Descriptor = Descriptor(payloadFields: set<string>, refFields: set<string>)

  /** The installed types have no field that the projection does not know; the inner one matters only when set. */
  predicate Frozen(d: Descriptor, p: Payload) {
    && (forall name | name in d.payloadFields :: name in NAMES)
    && (p.supersedes.Some? ==> forall name | name in d.refFields :: name in REF_NAMES)
  }

  // ----- commitment_hash.py

  function JsonBool(b: bool): string { if b then "true" else "false" }

  function MemberText(name: string, value: string): string { EscapeString(name) + (":" + value) }

  function SupersedesText(r: Ref): string {
    "{" + (Join([MemberText("commitment_hash", EscapeString(r.commitmentHash)),
                 MemberText("session_id", EscapeString(r.sessionId))]) + "}")
  }

  /** The eight members every payload has, in the order the code lists them. */
  function Fixed(p: Payload): (r: seq<(string, string)>)
    ensures |r| == 8
  {
    [("action", EscapeString(p.action)),
     ("authority_scope", EscapeString(p.authorityScope)),
     ("commitment_id", EscapeString(p.commitmentId)),
     ("configuration_version", EscapeString(p.configurationVersion)),
     ("mode_version", EscapeString(p.modeVersion)),
     ("outcome_positive", JsonBool(p.outcomePositive)),
     ("policy_version", EscapeString(p.policyVersion)),
     ("reason", EscapeString(p.reason))]
  }

  function CodePoints(s: string): (r: seq<int>)
    ensures |r| == |s| && forall i | 0 <= i < |s| :: r[i] == s[i] as int
  {
    seq(|s|, i requires 0 <= i < |s| => s[i] as int)
  }

  function MemberKey(m: (string, string)): seq<int> { CodePoints(m.0) }

  /** Members in the order they are written: by name, `supersedes` last and only when set. */
  function Members(p: Payload): seq<(string, string)> {
    if p.supersedes.Some? then Fixed(p) + [("supersedes", SupersedesText(p.supersedes.value))] else Fixed(p)
  }

  function MemberTexts(ms: seq<(string, string)>): (r: seq<string>)
    ensures |r| == |ms|
  {
    seq(|ms|, i requires 0 <= i < |ms| => MemberText(ms[i].0, ms[i].1))
  }

  function ProjectionText(p: Payload): string { "{" + (Join(MemberTexts(Members(p))) + "}") }

  function Projection(p: Payload): Option<Bytes> {
    if Hashable(p) then Some(Utf8.Encode(ProjectionText(p))) else None
  }

  method CanonicalProjection(d: Descriptor, p: Payload) returns (r: Option<Bytes>)
    ensures r == if Frozen(d, p) then Projection(p) else None
  {
    hide EscapeBody, EscapeChar, Join;
    if exists name :: name in d.payloadFields && name !in NAMES {
      return None;
    }
    if p.unknown != [] {
      return None;
    }
    if p.supersedes.Some? {
      if exists name :: name in d.refFields && name !in REF_NAMES {
        return None;
      }
      if p.supersedes.value.unknown != [] {
        return None;
      }
    }
    var members := Fixed(p);
    if p.supersedes.Some? {
      members := members + [("supersedes", SupersedesText(p.supersedes.value))];
      MembersOrdered(p);
      SortIs(members, members, MemberKey);
      members := Sort(members, MemberKey);
    }
    r := Some(Utf8.Encode("{" + (Join(MemberTexts(members)) + "}")));
  }

  // ----- the order of the names

  /** Each name comes before the next, in code points. */
  lemma NamesAscend()
    ensures forall i | 0 < i < 9 :: Less(CodePoints(NAMES[i - 1]), CodePoints(NAMES[i]))
  {
    LessAt(CodePoints(NAMES[0]), CodePoints(NAMES[1]), 1);
    LessAt(CodePoints(NAMES[1]), CodePoints(NAMES[2]), 0);
    LessAt(CodePoints(NAMES[2]), CodePoints(NAMES[3]), 2);
    LessAt(CodePoints(NAMES[3]), CodePoints(NAMES[4]), 0);
    LessAt(CodePoints(NAMES[4]), CodePoints(NAMES[5]), 0);
    LessAt(CodePoints(NAMES[5]), CodePoints(NAMES[6]), 0);
    LessAt(CodePoints(NAMES[6]), CodePoints(NAMES[7]), 0);
    LessAt(CodePoints(NAMES[7]), CodePoints(NAMES[8]), 0);
  }

  lemma MembersNamed(p: Payload)
    ensures |Members(p)| <= 9 && forall i | 0 <= i < |Members(p)| :: Members(p)[i].0 == NAMES[i]
  {
    hide EscapeBody, EscapeChar, Join;
  }

  lemma MembersOrdered(p: Payload)
    ensures Ordered(Members(p), MemberKey) && Distinct(Members(p), MemberKey)
  {
    hide Members, Less, CodePoints;
    NamesAscend();
    MembersNamed(p);
    ChainOrdered(Members(p), MemberKey);
    OrderedDistinct(Members(p), MemberKey);
  }

  lemma OrderedDistinct<T(!new)>(items: seq<T>, key: T -> seq<int>)
    requires Ordered(items, key)
    ensures Distinct(items, key)
  {
    forall i, j | 0 <= i < j < |items|
      ensures key(items[i]) != key(items[j])
    {
      LessIrreflexive(key(items[i]));
    }
  }
}
