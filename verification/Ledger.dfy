/**
  First-wins bookkeeping, common to Decision votes and Quorum ballots: one entry
  for a subject and a sender, the first after the subject became known; later
  ones are counted as discarded, and those on unknown subjects are not kept.
 */
module Ledger {
  import opened Basics

  datatype Act<V> = Opens(subject: string) | Casts(subject: string, sender: string, value: V) | Neither

  type Book<V> = map<string, map<string, V>>

  datatype Ledger<V> = Ledger(known: set<string>, book: Book<V>, discards: nat)

  function Column<V>(book: Book<V>, subject: string): map<string, V> {
    if subject in book then book[subject] else map[]
  }

  function Note<V>(l: Ledger<V>, act: Act<V>): Ledger<V> {
    match act
    case Opens(subject) => l.(known := l.known + {subject})
    case Casts(subject, sender, value) =>
      if subject !in l.known then l
      else if sender in Column(l.book, subject) then l.(discards := l.discards + 1)
      else l.(book := l.book[subject := Column(l.book, subject)[sender := value]])
    case Neither => l
  }

  function Keep<V>(acts: seq<Act<V>>): Ledger<V> {
    if acts == [] then Ledger({}, map[], 0) else Note(Keep(acts[..|acts| - 1]), acts[|acts| - 1])
  }

  // ----- by position, without the ledger

  ghost predicate OpenBefore<V>(acts: seq<Act<V>>, i: nat, subject: string) {
    exists j :: 0 <= j < i && j < |acts| && acts[j] == Opens(subject)
  }

  /** At `i`, `sender` casts on a subject opened before. */
  ghost predicate CastAt<V>(acts: seq<Act<V>>, i: nat, subject: string, sender: string) {
    i < |acts| && acts[i].Casts? && acts[i].subject == subject && acts[i].sender == sender && OpenBefore(acts, i, subject)
  }

  ghost predicate FirstAt<V>(acts: seq<Act<V>>, i: nat, subject: string, sender: string) {
    CastAt(acts, i, subject, sender) && forall k: nat | k < i :: !CastAt(acts, k, subject, sender)
  }

  ghost predicate Holds<V>(book: Book<V>, subject: string, sender: string, value: V) {
    subject in book && sender in book[subject] && book[subject][sender] == value
  }

  lemma EarlierSame<V>(acts: seq<Act<V>>, i: nat, subject: string, sender: string)
    requires i < |acts| - 1
    ensures CastAt(acts, i, subject, sender) <==> CastAt(acts[..|acts| - 1], i, subject, sender)
  {
    var init := acts[..|acts| - 1];
    if OpenBefore(acts, i, subject) {
      var j :| 0 <= j < i && j < |acts| && acts[j] == Opens(subject);
      assert init[j] == Opens(subject);
    }
    if OpenBefore(init, i, subject) {
      var j :| 0 <= j < i && j < |init| && init[j] == Opens(subject);
      assert acts[j] == Opens(subject);
    }
  }

  lemma {:induction false} KnownIff<V>(acts: seq<Act<V>>, subject: string)
    ensures subject in Keep(acts).known <==> OpenBefore(acts, |acts|, subject)
  {
    if acts != [] {
      var init, last := acts[..|acts| - 1], acts[|acts| - 1];
      KnownIff(init, subject);
      if OpenBefore(init, |init|, subject) {
        var j :| 0 <= j < |init| && init[j] == Opens(subject);
        assert acts[j] == Opens(subject);
      }
      if OpenBefore(acts, |acts|, subject) && last != Opens(subject) {
        var j :| 0 <= j < |acts| && acts[j] == Opens(subject);
        assert init[j] == Opens(subject);
      }
      if last == Opens(subject) {
        assert acts[|init|] == Opens(subject);
      }
    }
  }

  /** The last act casts on an open subject exactly when the ledger so far knows it. */
  lemma LastCast<V>(acts: seq<Act<V>>, subject: string, sender: string)
    requires acts != []
    ensures var last := acts[|acts| - 1];
      CastAt(acts, |acts| - 1, subject, sender) <==>
        last.Casts? && last.subject == subject && last.sender == sender && subject in Keep(acts[..|acts| - 1]).known
  {
    var init := acts[..|acts| - 1];
    KnownIff(init, subject);
    if OpenBefore(init, |init|, subject) {
      var j :| 0 <= j < |init| && init[j] == Opens(subject);
      assert acts[j] == Opens(subject);
    }
    if OpenBefore(acts, |init|, subject) {
      var j :| 0 <= j < |init| && j < |acts| && acts[j] == Opens(subject);
      assert init[j] == Opens(subject);
    }
  }

  // ----- the first stands

  /** Every first cast is in the book with its value. */
  lemma {:induction false} FirstKept<V>(acts: seq<Act<V>>, i: nat, subject: string, sender: string)
    requires FirstAt(acts, i, subject, sender)
    ensures Holds(Keep(acts).book, subject, sender, acts[i].value)
  {
    var init, last := acts[..|acts| - 1], acts[|acts| - 1];
    if i < |init| {
      forall k: nat | k <= i
        ensures CastAt(acts, k, subject, sender) <==> CastAt(init, k, subject, sender)
      {
        EarlierSame(acts, k, subject, sender);
      }
      FirstKept(init, i, subject, sender);
    } else {
      LastCast(acts, subject, sender);
      if sender in Column(Keep(init).book, subject) {
        var k := KeptFrom(init, subject, sender);
        EarlierSame(acts, k, subject, sender);
      }
    }
  }

  /** Every entry of the book comes from a first cast. */
  lemma {:induction false} KeptFrom<V>(acts: seq<Act<V>>, subject: string, sender: string) returns (i: nat)
    requires sender in Column(Keep(acts).book, subject)
    ensures FirstAt(acts, i, subject, sender) && Keep(acts).book[subject][sender] == acts[i].value
  {
    var init, last := acts[..|acts| - 1], acts[|acts| - 1];
    if sender in Column(Keep(init).book, subject) {
      i := KeptFrom(init, subject, sender);
      forall k: nat | k <= i
        ensures CastAt(acts, k, subject, sender) <==> CastAt(init, k, subject, sender)
      {
        EarlierSame(acts, k, subject, sender);
      }
    } else {
      i := |init|;
      LastCast(acts, subject, sender);
      forall k: nat | k < i
        ensures !CastAt(acts, k, subject, sender)
      {
        EarlierSame(acts, k, subject, sender);
        if CastAt(init, k, subject, sender) {
          CastIsKept(init, k, subject, sender);
        }
      }
    }
  }

  lemma {:induction false} CastIsKept<V>(acts: seq<Act<V>>, i: nat, subject: string, sender: string)
    requires CastAt(acts, i, subject, sender)
    ensures sender in Column(Keep(acts).book, subject)
  {
    var init := acts[..|acts| - 1];
    if i < |init| {
      EarlierSame(acts, i, subject, sender);
      CastIsKept(init, i, subject, sender);
    } else {
      LastCast(acts, subject, sender);
    }
  }

  /** First wins: the book holds exactly the first cast of each sender on each known subject. */
  lemma FirstWins<V>(acts: seq<Act<V>>, subject: string, sender: string, value: V)
    ensures Holds(Keep(acts).book, subject, sender, value) <==>
      exists i: nat :: FirstAt(acts, i, subject, sender) && acts[i].value == value
  {
    if Holds(Keep(acts).book, subject, sender, value) {
      var i := KeptFrom(acts, subject, sender);
    }
    forall i: nat | FirstAt(acts, i, subject, sender) && acts[i].value == value
      ensures Holds(Keep(acts).book, subject, sender, value)
    {
      FirstKept(acts, i, subject, sender);
    }
  }

  // ----- nothing is lost

  /** Casts on subjects known by then. */
  ghost function CastCount<V>(acts: seq<Act<V>>): nat {
    if acts == [] then 0
    else
      var init, last := acts[..|acts| - 1], acts[|acts| - 1];
      CastCount(init) + if last.Casts? && OpenBefore(init, |init|, last.subject) then 1 else 0
  }

  function Entries<V>(book: Book<V>): set<(string, string)> {
    set subject, sender | subject in book && sender in book[subject] :: (subject, sender)
  }

  lemma EntriesIff<V>(book: Book<V>, subject: string, sender: string)
    ensures (subject, sender) in Entries(book) <==> sender in Column(book, subject)
  {
  }

  lemma NewEntry<V>(book: Book<V>, subject: string, sender: string, value: V)
    requires sender !in Column(book, subject)
    ensures |Entries(book[subject := Column(book, subject)[sender := value]])| == |Entries(book)| + 1
  {
    hide Entries;
    var after := book[subject := Column(book, subject)[sender := value]];
    forall e: (string, string)
      ensures e in Entries(after) <==> e in Entries(book) + {(subject, sender)}
    {
      EntriesIff(after, e.0, e.1);
      EntriesIff(book, e.0, e.1);
    }
    assert Entries(after) == Entries(book) + {(subject, sender)};
    EntriesIff(book, subject, sender);
  }

  /** Every cast on a known subject is recorded or counted as discarded. */
  lemma {:induction false} NothingLost<V>(acts: seq<Act<V>>)
    ensures CastCount(acts) == |Entries(Keep(acts).book)| + Keep(acts).discards
  {
    if acts == [] {
      assert Entries(Keep(acts).book) == {};
    } else {
      var init, last := acts[..|acts| - 1], acts[|acts| - 1];
      NothingLost(init);
      if last.Casts? {
        KnownIff(init, last.subject);
        if last.subject in Keep(init).known && last.sender !in Column(Keep(init).book, last.subject) {
          NewEntry(Keep(init).book, last.subject, last.sender, last.value);
        }
      }
    }
  }

  // ----- acts of a transcript

  function Acts<E, V>(events: seq<E>, act: E -> Act<V>): (r: seq<Act<V>>)
    ensures |r| == |events| && forall i | 0 <= i < |events| :: r[i] == act(events[i])
  {
    seq(|events|, i requires 0 <= i < |events| => act(events[i]))
  }

  lemma ActsNext<E, V>(events: seq<E>, act: E -> Act<V>, e: E)
    ensures Keep(Acts(events + [e], act)) == Note(Keep(Acts(events, act)), act(e))
  {
    assert Acts(events + [e], act)[..|events|] == Acts(events, act);
  }

  // ----- records kept of a transcript

  /** What `f` makes of each event it applies to, in order. */
  function Collect<E, R>(events: seq<E>, f: E -> Option<R>): seq<R> {
    if events == [] then []
    else
      var made := f(events[|events| - 1]);
      Collect(events[..|events| - 1], f) + if made.Some? then [made.value] else []
  }

  lemma CollectNext<E, R>(events: seq<E>, f: E -> Option<R>, e: E)
    ensures Collect(events + [e], f) == Collect(events, f) + if f(e).Some? then [f(e).value] else []
  {
    assert (events + [e])[..|events|] == events;
  }

  /** A dict filled in order: the last value written under a key stands. */
  function Overwritten<R>(entries: seq<(string, R)>): map<string, R> {
    if entries == [] then map[]
    else Overwritten(entries[..|entries| - 1])[entries[|entries| - 1].0 := entries[|entries| - 1].1]
  }

  lemma OverwrittenNext<R>(entries: seq<(string, R)>, e: (string, R))
    ensures Overwritten(entries + [e]) == Overwritten(entries)[e.0 := e.1]
  {
    assert (entries + [e])[..|entries|] == entries;
  }

  ghost predicate LastAt<R>(entries: seq<(string, R)>, i: nat, key: string) {
    i < |entries| && entries[i].0 == key && forall k | i < k < |entries| :: entries[k].0 != key
  }

  lemma {:induction false} LastStands<R>(entries: seq<(string, R)>, key: string)
    ensures key in Overwritten(entries) <==> exists i :: 0 <= i < |entries| && entries[i].0 == key
    ensures forall i: nat | LastAt(entries, i, key) ::
      key in Overwritten(entries) && Overwritten(entries)[key] == entries[i].1
  {
    if entries != [] {
      var init, last := entries[..|entries| - 1], entries[|entries| - 1];
      LastStands(init, key);
      if last.0 == key {
        assert entries[|init|].0 == key;
      } else {
        forall i: nat | LastAt(entries, i, key)
          ensures LastAt(init, i, key) && init[i] == entries[i]
        {
        }
        forall i | 0 <= i < |init| && init[i].0 == key
          ensures entries[i].0 == key
        {
        }
      }
    }
  }
}
