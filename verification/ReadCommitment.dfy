/**
  `_read_commitment` of receipt.py: which dicts are a complete projection, and
  of which commitment.
 */
module ReadCommitment {
  import opened Basics
  import opened Sorting
  import opened Jcs
  import opened JcsTrees
  import opened Commitment
  import opened CommitmentJcs

  function Get(es: Entries, name: string): (r: Option<Value>)
    ensures r.Some? ==> (name, r.value) in es
    ensures r.None? ==> forall e | e in es :: e.0 != name
  {
    if es == [] then None
    else if es[0].0 == name then Some(es[0].1)
    else
      assert es == [es[0]] + es[1..];
      Get(es[1..], name)
  }

  predicate OneEach(es: Entries) { forall i, j | 0 <= i < j < |es| :: es[i].0 != es[j].0 }

  /** With distinct names, an entry is what a lookup finds. */
  lemma GetIs(es: Entries, name: string, v: Value)
    requires OneEach(es) && (name, v) in es
    ensures Get(es, name) == Some(v)
  {
    var found := Get(es, name);
    assert (name, v) in es;
    var i :| 0 <= i < |es| && es[i] == (name, v);
    var j :| 0 <= j < |es| && es[j] == (name, found.value);
  }

  // ----- a projection, field by field

  ghost predicate RefFields(w: Value, r: Ref) {
    && w.Dict?
    && (forall e | e in w.entries :: e.0 == "session_id" || e.0 == "commitment_hash")
    && ("session_id", Text(r.sessionId)) in w.entries
    && ("commitment_hash", Text(r.commitmentHash)) in w.entries
  }

  ghost predicate Allowed(es: Entries) { forall e | e in es :: e.0 in NAMES }

  ghost predicate FixedFields(es: Entries, p: Payload) {
    forall i | 0 <= i < 8 :: Sorted(p)[i] in es
  }

  ghost predicate SupersedesField(es: Entries, p: Payload) {
    if p.supersedes.Some?
    then exists w :: (NAMES[8], w) in es && RefFields(w, p.supersedes.value)
    else forall e | e in es :: e.0 != NAMES[8]
  }

  ghost predicate Fields(v: Value, p: Payload) {
    v.Dict? && Allowed(v.entries) && FixedFields(v.entries, p) && SupersedesField(v.entries, p)
  }

  lemma FlatSelf(v: Value)
    requires !v.List? && !v.Dict?
    ensures Same(v, v)
  {
  }

  lemma RefIff(w: Value, r: Ref)
    requires Wf(w)
    ensures Same(w, ProjectRef(r)) <==> RefFields(w, r)
  {
    hide Same;
    var fs := ProjectRef(r).entries;
    if w.Dict? {
      SameIsTwins(w, ProjectRef(r));
      if Same(w, ProjectRef(r)) {
        assert fs[0] in fs && fs[1] in fs;
        FieldOf(w.entries, fs, 0);
        FieldOf(w.entries, fs, 1);
        forall e | e in w.entries
          ensures e.0 == "session_id" || e.0 == "commitment_hash"
        {
          assert HasTwin(e.0, e.1, fs, Same);
        }
      }
      if RefFields(w, r) {
        FlatSelf(fs[0].1);
        FlatSelf(fs[1].1);
        forall e | e in w.entries
          ensures HasTwin(e.0, e.1, fs, Same)
        {
          GetIs(w.entries, e.0, e.1);
          var k := if e.0 == "session_id" then 0 else 1;
          GetIs(w.entries, fs[k].0, fs[k].1);
          assert fs[k] in fs;
        }
        forall f | f in fs
          ensures HasName(f.0, w.entries)
        {
        }
      }
    } else {
      assert !Same(w, ProjectRef(r)) by { NotDict(w, ProjectRef(r)); }
    }
  }

  lemma NotDict(a: Value, b: Value)
    requires !a.Dict? && b.Dict?
    ensures !Same(a, b)
  {
  }

  /** A flat entry of the other dict, one of its name, is an entry here. */
  lemma FieldOf(es: Entries, fs: Entries, k: nat)
    requires Twins(es, fs, Same) && OneEach(fs) && k < |fs| && !fs[k].1.List? && !fs[k].1.Dict?
    ensures fs[k] in es
  {
    hide Same;
    var w := TwinValue(es, fs, k);
    SameFlat(w, fs[k].1);
  }

  lemma SameFlat(a: Value, b: Value)
    requires Same(a, b) && !b.List? && !b.Dict?
    ensures a == b
  {
  }

  lemma TwinValue(es: Entries, fs: Entries, k: nat) returns (w: Value)
    requires Twins(es, fs, Same) && OneEach(fs) && k < |fs|
    ensures (fs[k].0, w) in es && Same(w, fs[k].1)
  {
    hide Same;
    assert fs[k] in fs;
    var e :| e in es && e.0 == fs[k].0;
    w := e.1;
    var f :| f in fs && f.0 == e.0 && Same(e.1, f.1);
    var j :| 0 <= j < |fs| && fs[j] == f;
    assert e == (fs[k].0, w);
  }

  lemma SortedOneEach(p: Payload)
    ensures OneEach(Sorted(p))
  {
    hide Utf16, Less, Sorted;
    forall i, j | 0 <= i < j < |Sorted(p)|
      ensures Sorted(p)[i].0 != Sorted(p)[j].0
    {
      if NAMES[i] == NAMES[j] {
        NamesApart(i, j);
      }
    }
  }

  lemma SortedFlat(p: Payload)
    ensures forall i | 0 <= i < 8 :: !Sorted(p)[i].1.List? && !Sorted(p)[i].1.Dict?
    ensures p.supersedes.Some? ==> Sorted(p)[8].1 == ProjectRef(p.supersedes.value)
  {
  }

  /** The dict and the sorted projection, entry by entry. */
  lemma SameIsSorted(v: Value, p: Payload)
    requires v.Dict?
    ensures Same(v, Project(p)) <==> Twins(v.entries, Sorted(p), Same)
  {
    hide Same, Project, Sorted, HasTwin, HasName, Twins, SortEntries;
    SameIsTwins(v, Project(p));
    ProjectSorts(p);
    var es, ss := Project(p).entries, Sorted(p);
    assert SameItems(es, ss);
    if Twins(v.entries, es, Same) {
      TwinsIgnoreOrder(v.entries, v.entries, es, ss, Same);
    }
    if Twins(v.entries, ss, Same) {
      TwinsIgnoreOrder(v.entries, v.entries, ss, es, Same);
    }
  }

  lemma TwinsAreFields(v: Value, p: Payload)
    requires v.Dict? && Wf(v) && Twins(v.entries, Sorted(p), Same)
    ensures Fields(v, p)
  {
    hide Same, Sorted, ProjectRef;
    var es, ss := v.entries, Sorted(p);
    SortedOneEach(p);
    SortedFlat(p);
    forall i | 0 <= i < 8
      ensures ss[i] in es
    {
      FieldOf(es, ss, i);
    }
    forall e | e in es
      ensures e.0 in NAMES && (p.supersedes.None? ==> e.0 != NAMES[8])
    {
      assert HasTwin(e.0, e.1, ss, Same);
      var f :| f in ss && f.0 == e.0;
      var i :| 0 <= i < |ss| && ss[i] == f;
      if e.0 == NAMES[8] {
        NamesApart(i, 8);
      }
    }
    if p.supersedes.Some? {
      var w := TwinValue(es, ss, 8);
      InsideWf(v, NAMES[8], w);
      RefIff(w, p.supersedes.value);
    }
  }

  lemma InsideWf(v: Value, name: string, w: Value)
    requires v.Dict? && Wf(v) && (name, w) in v.entries
    ensures Wf(w)
  {
    var i :| 0 <= i < |v.entries| && v.entries[i] == (name, w);
  }

  lemma FieldsAreTwins(v: Value, p: Payload)
    requires Wf(v) && Fields(v, p)
    ensures Twins(v.entries, Sorted(p), Same)
  {
    hide Same, Sorted, ProjectRef, Wf;
    var es, ss := v.entries, Sorted(p);
    SortedFlat(p);
    assert OneEach(es) by { WfOneEach(v); }
    forall e | e in es
      ensures HasTwin(e.0, e.1, ss, Same)
    {
      var i :| 0 <= i < 9 && NAMES[i] == e.0;
      GetIs(es, e.0, e.1);
      assert ss[if i < 8 then i else 0] in ss;
      if i < 8 {
        GetIs(es, ss[i].0, ss[i].1);
        FlatSelf(e.1);
      } else {
        var w :| (NAMES[8], w) in es && RefFields(w, p.supersedes.value);
        GetIs(es, NAMES[8], w);
        InsideWf(v, NAMES[8], w);
        RefIff(w, p.supersedes.value);
        assert ss[8] in ss;
      }
    }
    forall f | f in ss
      ensures HasName(f.0, es)
    {
      var i :| 0 <= i < |ss| && ss[i] == f;
      if i < 8 {
        assert ss[i] in es;
      } else {
        var w :| (NAMES[8], w) in es && RefFields(w, p.supersedes.value);
        assert (NAMES[8], w).0 == f.0;
      }
    }
  }

  lemma WfOneEach(v: Value)
    requires v.Dict? && Wf(v)
    ensures OneEach(v.entries)
  {
  }

  /** A dict is the projection of `p` exactly when its fields are those of `p` and no others. */
  lemma FieldsIff(v: Value, p: Payload)
    requires Wf(v)
    ensures Same(v, Project(p)) <==> Fields(v, p)
  {
    hide Same, Project, Twins, Allowed, FixedFields, SupersedesField, Wf;
    if v.Dict? {
      SameIsSorted(v, p);
      if Twins(v.entries, Sorted(p), Same) {
        TwinsAreFields(v, p);
      }
      if Fields(v, p) {
        FieldsAreTwins(v, p);
      }
    } else {
      NotDict(v, Project(p));
    }
  }

  // ----- reading

  function GetText(es: Entries, name: string): Option<string> {
    var v :- Get(es, name);
    if v.Text? then Some(v.s) else None
  }

  function GetBool(es: Entries, name: string): Option<bool> {
    var v :- Get(es, name);
    if v.Bool? then Some(v.b) else None
  }

  lemma GetTextIff(es: Entries, name: string, s: string)
    requires OneEach(es)
    ensures GetText(es, name) == Some(s) <==> (name, Text(s)) in es
  {
    if (name, Text(s)) in es {
      GetIs(es, name, Text(s));
    }
  }

  lemma GetBoolIff(es: Entries, name: string, b: bool)
    requires OneEach(es)
    ensures GetBool(es, name) == Some(b) <==> (name, Bool(b)) in es
  {
    if (name, Bool(b)) in es {
      GetIs(es, name, Bool(b));
    }
  }

  function ReadRef(w: Value): (r: Option<Ref>) {
    if !w.Dict? || exists i :: 0 <= i < |w.entries| && w.entries[i].0 != "session_id" && w.entries[i].0 != "commitment_hash"
    then None
    else
      var sessionId :- GetText(w.entries, "session_id");
      var hash :- GetText(w.entries, "commitment_hash");
      Some(Ref(sessionId, hash, []))
  }

  lemma ReadRefIff(w: Value, r: Ref)
    requires Wf(w) && r.unknown == []
    ensures ReadRef(w) == Some(r) <==> RefFields(w, r)
  {
    hide Get;
    if w.Dict? {
      WfOneEach(w);
      GetTextIff(w.entries, "session_id", r.sessionId);
      GetTextIff(w.entries, "commitment_hash", r.commitmentHash);
    }
  }

  /** What the lookups find, when the dict is the projection of `p`. */
  ghost predicate Finds(es: Entries, p: Payload) {
    && GetText(es, NAMES[0]) == Some(p.action)
    && GetText(es, NAMES[1]) == Some(p.authorityScope)
    && GetText(es, NAMES[2]) == Some(p.commitmentId)
    && GetText(es, NAMES[3]) == Some(p.configurationVersion)
    && GetText(es, NAMES[4]) == Some(p.modeVersion)
    && GetBool(es, NAMES[5]) == Some(p.outcomePositive)
    && GetText(es, NAMES[6]) == Some(p.policyVersion)
    && GetText(es, NAMES[7]) == Some(p.reason)
  }

  lemma SortedAre(p: Payload)
    ensures Sorted(p)[..8] == [
      (NAMES[0], Text(p.action)), (NAMES[1], Text(p.authorityScope)), (NAMES[2], Text(p.commitmentId)),
      (NAMES[3], Text(p.configurationVersion)), (NAMES[4], Text(p.modeVersion)),
      (NAMES[5], Bool(p.outcomePositive)), (NAMES[6], Text(p.policyVersion)), (NAMES[7], Text(p.reason))]
  {
  }

  lemma FindsIff(es: Entries, p: Payload)
    requires OneEach(es)
    ensures FixedFields(es, p) <==> Finds(es, p)
  {
    hide Sorted, GetText, GetBool, OneEach;
    SortedAre(p);
    var ss := Sorted(p)[..8];
    assert forall i | 0 <= i < 8 :: ss[i] == Sorted(p)[i];
    GetTextIff(es, NAMES[0], p.action);
    GetTextIff(es, NAMES[1], p.authorityScope);
    GetTextIff(es, NAMES[2], p.commitmentId);
    GetTextIff(es, NAMES[3], p.configurationVersion);
    GetTextIff(es, NAMES[4], p.modeVersion);
    GetBoolIff(es, NAMES[5], p.outcomePositive);
    GetTextIff(es, NAMES[6], p.policyVersion);
    GetTextIff(es, NAMES[7], p.reason);
    FixedAre(es, ss, p);
  }

  lemma FixedAre(es: Entries, ss: Entries, p: Payload)
    requires |ss| == 8 && forall i | 0 <= i < 8 :: ss[i] == Sorted(p)[i]
    ensures FixedFields(es, p) <==>
      ss[0] in es && ss[1] in es && ss[2] in es && ss[3] in es && ss[4] in es && ss[5] in es && ss[6] in es && ss[7] in es
  {
    hide Sorted;
  }

  /** The commitment a dict projects, ignoring what else it holds. */
  function ReadFixed(es: Entries): Option<Payload> {
    var action :- GetText(es, NAMES[0]);
    var authorityScope :- GetText(es, NAMES[1]);
    var commitmentId :- GetText(es, NAMES[2]);
    var configurationVersion :- GetText(es, NAMES[3]);
    var modeVersion :- GetText(es, NAMES[4]);
    var outcomePositive :- GetBool(es, NAMES[5]);
    var policyVersion :- GetText(es, NAMES[6]);
    var reason :- GetText(es, NAMES[7]);
    Some(Payload(commitmentId, action, authorityScope, reason, modeVersion, policyVersion,
                 configurationVersion, outcomePositive, None, []))
  }

  lemma ReadFixedIff(es: Entries, p: Payload)
    ensures Finds(es, p) <==> ReadFixed(es) == Some(p.(supersedes := None, unknown := []))
  {
    hide GetText, GetBool;
  }

  /** Reads a dict as a commitment just when it is the projection of one. */
  method Read(value: Value) returns (r: Option<Payload>)
    requires Wf(value)
    ensures r.Some? ==> Hashable(r.value) && Same(value, Project(r.value))
    ensures r.None? ==> forall p :: Hashable(p) ==> !Same(value, Project(p))
  {
    hide Same, Project, ReadFixed, Wf, ReadRef, Get, Hashable;
    if !value.Dict? {
      NotProjected(value);
      return None;
    }
    var es := value.entries;
    if exists i :: 0 <= i < |es| && es[i].0 !in NAMES {
      NotProjected(value);
      return None;
    }
    var read := ReadFixed(es);
    if read.None? {
      NotProjected(value);
      return None;
    }
    r := read;
    var sup := Get(es, "supersedes");
    if sup.Some? {
      var ref := ReadRef(sup.value);
      if ref.None? {
        NotProjected(value);
        return None;
      }
      r := Some(read.value.(supersedes := ref));
    }
    IsProjected(value, read.value, r.value);
  }

  lemma IsProjected(value: Value, fixed: Payload, p: Payload)
    requires Wf(value) && value.Dict? && ReadFixed(value.entries) == Some(fixed)
    requires forall i | 0 <= i < |value.entries| :: value.entries[i].0 in NAMES
    requires var sup := Get(value.entries, "supersedes");
      if sup.None? then p == fixed else ReadRef(sup.value).Some? && p == fixed.(supersedes := ReadRef(sup.value))
    ensures Hashable(p) && Same(value, Project(p))
  {
    hide Same, Project, ReadFixed, Wf, ReadRef, SupersedesField, FixedFields, Get, Finds;
    var es, sup := value.entries, Get(value.entries, "supersedes");
    FixedBare(es, fixed);
    WfOneEach(value);
    ReadFixedIff(es, p);
    FindsIff(es, p);
    if sup.Some? {
      InsideWf(value, "supersedes", sup.value);
      RefHashable(sup.value, p.supersedes.value);
      ReadRefIff(sup.value, p.supersedes.value);
    }
    SupersedesRead(es, p);
    FieldsIff(value, p);
  }

  lemma FixedBare(es: Entries, fixed: Payload)
    requires ReadFixed(es) == Some(fixed)
    ensures fixed.supersedes.None? && fixed.unknown == []
  {
    hide GetText, GetBool;
  }

  lemma RefHashable(w: Value, r: Ref)
    requires ReadRef(w) == Some(r)
    ensures r.unknown == []
  {
  }

  lemma SupersedesRead(es: Entries, p: Payload)
    requires var sup := Get(es, "supersedes");
      if sup.None? then p.supersedes.None? else p.supersedes.Some? && RefFields(sup.value, p.supersedes.value)
    ensures SupersedesField(es, p)
  {
  }

  /** Whatever the reader misses, every projection has. */
  lemma NotProjected(value: Value)
    requires Wf(value)
    requires
      || !value.Dict?
      || (exists i :: 0 <= i < |value.entries| && value.entries[i].0 !in NAMES)
      || ReadFixed(value.entries).None?
      || (var sup := Get(value.entries, "supersedes"); sup.Some? && ReadRef(sup.value).None?)
    ensures forall p :: Hashable(p) ==> !Same(value, Project(p))
  {
    hide Same, Project, ReadFixed, Wf, ReadRef, RefFields, FixedFields;
    forall p | Hashable(p) && Same(value, Project(p))
      ensures false
    {
      FieldsIff(value, p);
      WfOneEach(value);
      FindsIff(value.entries, p);
      ReadFixedIff(value.entries, p);
      if p.supersedes.Some? {
        var w :| (NAMES[8], w) in value.entries && RefFields(w, p.supersedes.value);
        GetIs(value.entries, NAMES[8], w);
        InsideWf(value, NAMES[8], w);
        ReadRefIff(w, p.supersedes.value);
      }
    }
  }
}
