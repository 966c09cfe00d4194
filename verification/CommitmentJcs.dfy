/**
  The hand-written projection is the JCS form of the projected dict, so it
  determines the commitment; and a dict is read back just when it is one.
 */
module CommitmentJcs {
  import opened Basics
  import Utf8
  import JsonGrammar
  import opened JsonEscape
  import opened Sorting
  import opened CodeUnits
  import opened Jcs
  import opened JcsTrees
  import JcsJson
  import opened Commitment

  // ----- receipt.py: the projection as a dict

  function ProjectRef(r: Ref): Value {
    Dict([("session_id", Text(r.sessionId)), ("commitment_hash", Text(r.commitmentHash))])
  }

  function Project(p: Payload): (r: Value)
    ensures r.Dict?
  {
    var fixed := [
      ("commitment_id", Text(p.commitmentId)),
      ("action", Text(p.action)),
      ("authority_scope", Text(p.authorityScope)),
      ("reason", Text(p.reason)),
      ("mode_version", Text(p.modeVersion)),
      ("policy_version", Text(p.policyVersion)),
      ("configuration_version", Text(p.configurationVersion)),
      ("outcome_positive", Bool(p.outcomePositive))];
    Dict(if p.supersedes.Some? then fixed + [("supersedes", ProjectRef(p.supersedes.value))] else fixed)
  }

  // ----- the names in code-unit order

  lemma {:induction false} AsciiUnits(s: string)
    requires Utf8.Ascii(s)
    ensures Units(s) == CodePoints(s)
  {
    if s != "" {
      AsciiUnits(s[1..]);
      assert CodePoints(s) == [s[0] as int] + CodePoints(s[1..]);
    }
  }

  /** Between ASCII names, code-unit order is code-point order. */
  lemma AsciiOrder(s: string, t: string)
    requires Utf8.Ascii(s) && Utf8.Ascii(t)
    ensures Less(Utf16(s), Utf16(t)) <==> Less(CodePoints(s), CodePoints(t))
  {
    NameOrder(s, t);
    AsciiUnits(s);
    AsciiUnits(t);
  }

  lemma NamesAscii()
    ensures forall i | 0 <= i < 9 :: Utf8.Ascii(NAMES[i])
  {
  }

  lemma NamesAscendUtf16()
    ensures forall i | 0 < i < 9 :: Less(Utf16(NAMES[i - 1]), Utf16(NAMES[i]))
  {
    hide Utf16, CodePoints, Less;
    NamesAscii();
    NamesAscend();
    forall i | 0 < i < 9
      ensures Less(Utf16(NAMES[i - 1]), Utf16(NAMES[i]))
    {
      AsciiOrder(NAMES[i - 1], NAMES[i]);
    }
  }

  /** The projected entries by name. */
  function Sorted(p: Payload): (r: seq<(string, Value)>)
    ensures |r| == if p.supersedes.Some? then 9 else 8
    ensures forall i | 0 <= i < |r| :: r[i].0 == NAMES[i]
  {
    var fixed := [
      (NAMES[0], Text(p.action)),
      (NAMES[1], Text(p.authorityScope)),
      (NAMES[2], Text(p.commitmentId)),
      (NAMES[3], Text(p.configurationVersion)),
      (NAMES[4], Text(p.modeVersion)),
      (NAMES[5], Bool(p.outcomePositive)),
      (NAMES[6], Text(p.policyVersion)),
      (NAMES[7], Text(p.reason))];
    if p.supersedes.Some? then fixed + [(NAMES[8], ProjectRef(p.supersedes.value))] else fixed
  }

  /** Where the i-th projected entry stands by name. */
  const PLACE := [2, 0, 1, 7, 4, 6, 3, 5, 8]

  lemma ProjectIsSorted(p: Payload, i: nat)
    requires i < |Sorted(p)|
    ensures |Project(p).entries| == |Sorted(p)|
    ensures PLACE[i] < |Sorted(p)| && Project(p).entries[i] == Sorted(p)[PLACE[i]]
  {
  }

  lemma PlaceCovers(i: nat) returns (j: nat)
    requires i < 9
    ensures j < 9 && PLACE[j] == i && (i < 8 ==> j < 8)
  {
    j := [1, 2, 0, 6, 4, 7, 5, 3, 8][i];
  }

  lemma SortedOrdered(p: Payload)
    ensures Ordered(Sorted(p), EntryKey) && Distinct(Sorted(p), EntryKey)
  {
    hide Utf16, Less, Sorted;
    NamesAscendUtf16();
    ChainOrdered(Sorted(p), EntryKey);
    OrderedDistinct(Sorted(p), EntryKey);
  }

  lemma ProjectDistinct(p: Payload)
    ensures Distinct(Project(p).entries, EntryKey) && Wf(Project(p))
  {
    hide Utf16, Sorted;
    var es, ss := Project(p).entries, Sorted(p);
    SortedOrdered(p);
    ProjectIsSorted(p, 0);
    forall i, j | 0 <= i < j < |es|
      ensures EntryKey(es[i]) != EntryKey(es[j]) && es[i].0 != es[j].0
    {
      ProjectIsSorted(p, i);
      ProjectIsSorted(p, j);
      assert PLACE[i] != PLACE[j];
    }
    RefWf(p);
  }

  lemma RefWf(p: Payload)
    ensures forall i | 0 <= i < |Project(p).entries| :: Wf(Project(p).entries[i].1)
  {
  }

  lemma ProjectSorts(p: Payload)
    ensures SortEntries(Project(p).entries) == Sorted(p)
  {
    hide Utf16, Sorted, Project;
    var es, ss := Project(p).entries, Sorted(p);
    ProjectIsSorted(p, 0);
    SortedOrdered(p);
    ProjectDistinct(p);
    forall e | e in es
      ensures e in ss
    {
      var i :| 0 <= i < |es| && es[i] == e;
      ProjectIsSorted(p, i);
    }
    forall e | e in ss
      ensures e in es
    {
      var i :| 0 <= i < |ss| && ss[i] == e;
      var j := PlaceCovers(i);
      ProjectIsSorted(p, j);
    }
    SortIs(es, ss, EntryKey);
  }

  // ----- the two printers agree

  lemma {:induction false} PrintEntriesIs(es: Entries, parent: Value, ms: seq<(string, string)>)
    requires Inside(es, parent) && |ms| == |es|
    requires forall i | 0 <= i < |es| :: es[i].0 == ms[i].0 && Print(es[i].1) == Some(ms[i].1)
    ensures PrintEntries(es, parent) == Some(MemberTexts(ms))
    decreases |es|
  {
    hide Print, EscapeString;
    if es == [] {
      assert MemberTexts(ms) == [];
    } else {
      assert es[0] in es;
      PrintEntriesIs(es[1..], parent, ms[1..]);
      assert MemberTexts(ms) == [MemberText(ms[0].0, ms[0].1)] + MemberTexts(ms[1..]);
    }
  }

  lemma PrintRef(r: Ref)
    ensures Print(ProjectRef(r)) == Some(SupersedesText(r))
  {
    hide EscapeString, Join, PrintEntries, Utf16, Less;
    var es := ProjectRef(r).entries;
    var ss := [("commitment_hash", Text(r.commitmentHash)), ("session_id", Text(r.sessionId))];
    RefNames();
    ChainOrdered(ss, EntryKey);
    OrderedDistinct(ss, EntryKey);
    assert es[0] == ss[1] && es[1] == ss[0];
    SortIs(es, ss, EntryKey);
    assert SortEntries(es) == ss;
    var ms := [("commitment_hash", EscapeString(r.commitmentHash)), ("session_id", EscapeString(r.sessionId))];
    PrintEntriesIs(ss, ProjectRef(r), ms);
    assert MemberTexts(ms) == [MemberText(ms[0].0, ms[0].1), MemberText(ms[1].0, ms[1].1)];
  }

  lemma RefNames()
    ensures Less(Utf16("commitment_hash"), Utf16("session_id"))
  {
    hide Utf16;
    LessAt(CodePoints("commitment_hash"), CodePoints("session_id"), 0);
    AsciiOrder("commitment_hash", "session_id");
  }

  lemma SortedPrints(p: Payload)
    ensures |Sorted(p)| == |Members(p)|
    ensures forall i | 0 <= i < |Sorted(p)| ::
      Sorted(p)[i].0 == Members(p)[i].0 && Print(Sorted(p)[i].1) == Some(Members(p)[i].1)
  {
    hide EscapeString, ProjectRef, SupersedesText;
    MembersNamed(p);
    if p.supersedes.Some? {
      PrintRef(p.supersedes.value);
    }
  }

  /** `_jcs(_project(p))` is the hand-written projection, byte for byte. */
  lemma ProjectionIsJcs(p: Payload)
    ensures Print(Project(p)) == Some(ProjectionText(p))
  {
    hide PrintEntries, SortEntries, Sorted, Members, Project, Join, EscapeString;
    var v := Project(p);
    ProjectSorts(p);
    SortedPrints(p);
    SortedInside(p);
    PrintEntriesIs(Sorted(p), v, Members(p));
  }

  lemma SortedInside(p: Payload)
    ensures Inside(Sorted(p), Project(p))
  {
    hide Sorted, Project, SortEntries;
    ProjectSorts(p);
    forall e | e in Sorted(p)
      ensures e.1 < Project(p)
    {
      assert e in Project(p).entries;
    }
  }

  // ----- the projection determines the commitment

  lemma FlatSame(a: Value, b: Value)
    requires Same(a, b) && !a.List? && !a.Dict?
    ensures a == b
  {
  }

  lemma TwinAt(p: Payload, q: Payload, i: nat)
    requires Same(Project(p), Project(q)) && i < |Project(p).entries|
    ensures i < |Project(q).entries| && Same(Project(p).entries[i].1, Project(q).entries[i].1)
  {
    hide Same, Sorted, EntryKey, Project;
    var es, fs := Project(p).entries, Project(q).entries;
    SameIsTwins(Project(p), Project(q));
    assert es[i] in es;
    var f :| f in fs && f.0 == es[i].0 && Same(es[i].1, f.1);
    var j :| 0 <= j < |fs| && fs[j] == f;
    SameName(p, i, q, j);
  }

  /** A projected entry's place is known from its name. */
  lemma SameName(p: Payload, i: nat, q: Payload, j: nat)
    requires i < |Project(p).entries| && j < |Project(q).entries|
    requires Project(p).entries[i].0 == Project(q).entries[j].0
    ensures i == j
  {
    hide Project, Sorted, Less, CodePoints;
    ProjectIsSorted(p, 0);
    ProjectIsSorted(q, 0);
    ProjectIsSorted(p, i);
    ProjectIsSorted(q, j);
    NamesAscend();
    NamesApart(PLACE[i], PLACE[j]);
  }

  lemma NamesApart(i: nat, j: nat)
    requires i < 9 && j < 9 && NAMES[i] == NAMES[j]
    ensures i == j
  {
    hide Less, CodePoints;
    NamesAscend();
    var names := NAMES;
    ChainOrdered(names, (s: string) => CodePoints(s));
    if i < j {
      LessIrreflexive(CodePoints(names[i]));
    } else if j < i {
      LessIrreflexive(CodePoints(names[j]));
    }
  }

  lemma RefSame(r: Ref, s: Ref)
    requires Same(ProjectRef(r), ProjectRef(s))
    ensures r.sessionId == s.sessionId && r.commitmentHash == s.commitmentHash
  {
    hide Same, ProjectRef;
    RefEntries(r);
    RefEntries(s);
    SameIsTwins(ProjectRef(r), ProjectRef(s));
    RefField(r, s, 0);
    RefField(r, s, 1);
  }

  lemma RefEntries(r: Ref)
    ensures ProjectRef(r).Dict? && |ProjectRef(r).entries| == 2
    ensures var es := ProjectRef(r).entries;
      es[0].1 == Text(r.sessionId) && es[1].1 == Text(r.commitmentHash) && |es[0].0| == 10 && |es[1].0| == 15
  {
  }

  /** A field's twin is the field of the same place. */
  lemma RefField(r: Ref, s: Ref, k: nat)
    requires k < 2 && |ProjectRef(r).entries| == |ProjectRef(s).entries| == 2
    requires Twins(ProjectRef(r).entries, ProjectRef(s).entries, Same)
    ensures ProjectRef(r).entries[k].1 == ProjectRef(s).entries[k].1
  {
    hide Same, ProjectRef;
    RefEntries(r);
    RefEntries(s);
    var es, fs := ProjectRef(r).entries, ProjectRef(s).entries;
    assert es[k] in es && HasTwin(es[k].0, es[k].1, fs, Same);
    var f :| f in fs && f.0 == es[k].0 && Same(es[k].1, f.1);
    var j :| 0 <= j < |fs| && fs[j] == f;
    assert |fs[j].0| == |es[k].0|;
    FlatSame(es[k].1, f.1);
  }

  lemma ProjectInjective(p: Payload, q: Payload)
    requires Same(Project(p), Project(q)) && Same(Project(q), Project(p)) && Hashable(p) && Hashable(q)
    ensures p == q
  {
    hide Same;
    var es, fs := Project(p).entries, Project(q).entries;
    TwinAt(p, q, |es| - 1);
    TwinAt(q, p, |fs| - 1);
    forall i: nat | i < 8
      ensures es[i].1 == fs[i].1
    {
      TwinAt(p, q, i);
      FlatSame(es[i].1, fs[i].1);
    }
    FieldsEqual(p, q);
    if p.supersedes.Some? {
      RefSame(p.supersedes.value, q.supersedes.value);
    }
  }

  lemma FieldsEqual(p: Payload, q: Payload)
    requires forall i: nat | i < 8 :: Project(p).entries[i].1 == Project(q).entries[i].1
    ensures p == q.(supersedes := p.supersedes, unknown := p.unknown)
  {
    var es, fs := Project(p).entries, Project(q).entries;
    assert es[0].1 == fs[0].1 && es[1].1 == fs[1].1 && es[2].1 == fs[2].1 && es[3].1 == fs[3].1;
    assert es[4].1 == fs[4].1 && es[5].1 == fs[5].1 && es[6].1 == fs[6].1 && es[7].1 == fs[7].1;
  }

  /** Two hashable payloads have the same canonical bytes only if they are the same commitment. */
  lemma ProjectionInjective(p: Payload, q: Payload)
    requires Projection(p).Some? && Projection(p) == Projection(q)
    ensures p == q
  {
    hide Project, ProjectionText, Same, Print, Utf8.Encode;
    Utf8.EncodeInjective(ProjectionText(p), ProjectionText(q));
    ProjectionIsJcs(p);
    ProjectionIsJcs(q);
    ProjectDistinct(p);
    ProjectDistinct(q);
    PrintIff(Project(p), Project(q));
    PrintIff(Project(q), Project(p));
    ProjectInjective(p, q);
  }

  // ----- the hash preimage

  const LABEL := "macp-commitment-hash/1"

  function Preimage(p: Payload): Option<Bytes> {
    var projection :- Projection(p);
    Some(Utf8.Encode(LABEL + ":") + projection)
  }

  /** `commitment_hash`, for whatever `digest` SHA-256 is. */
  function CommitmentHash(p: Payload, digest: Bytes -> string): Option<string> {
    var preimage :- Preimage(p);
    Some("sha256:" + digest(preimage))
  }

  /** Equal hashes of different commitments would be a collision of the digest itself. */
  lemma HashBinds(p: Payload, q: Payload, digest: Bytes -> string)
    requires CommitmentHash(p, digest).Some? && CommitmentHash(p, digest) == CommitmentHash(q, digest)
    ensures p == q || (Preimage(p).value != Preimage(q).value && digest(Preimage(p).value) == digest(Preimage(q).value))
  {
    hide Projection, Utf8.Encode;
    var a, b := digest(Preimage(p).value), digest(Preimage(q).value);
    assert a == ("sha256:" + a)[7..] == ("sha256:" + b)[7..] == b;
    if Preimage(p) == Preimage(q) {
      var head := Utf8.Encode(LABEL + ":");
      assert Projection(p).value == Preimage(p).value[|head|..] == Projection(q).value;
      ProjectionInjective(p, q);
    }
  }

  // ----- the text that is hashed

  /**
    The hash is that of the label and the one JSON text that writes the projection:
    compact, members by name, strings in their shortest form; and a commitment with
    a field outside the nine has none.
   */
  lemma HashedText(p: Payload, digest: Bytes -> string) returns (t: JsonGrammar.Json)
    requires Hashable(p)
    ensures JsonGrammar.Legal(t) && JcsJson.Writes(t, Project(p))
    ensures CommitmentHash(p, digest) ==
      Some("sha256:" + digest(Utf8.Encode("macp-commitment-hash/1:" + JsonGrammar.Print(t))))
  {
    hide JsonGrammar.Legal, JcsJson.Writes, Jcs.Print, JsonGrammar.Print, Utf8.Encode, Project, ProjectionText, Wf;
    ProjectionIsJcs(p);
    ProjectDistinct(p);
    t := JcsJson.PrintIsJson(Project(p));
    Utf8.EncodeConcat(LABEL + ":", ProjectionText(p));
    assert LABEL + ":" == "macp-commitment-hash/1:";
  }

  lemma Unhashed(p: Payload, digest: Bytes -> string)
    ensures CommitmentHash(p, digest).None? <==>
      p.unknown != [] || (p.supersedes.Some? && p.supersedes.value.unknown != [])
  {
  }
}
