/**
  The gRPC stream adapter: a generator that hands out a session's log entries,
  counts them, and resumes after the count when it is started again.
 */
module Transport {
  import opened Basics
  import opened Projection

  const NOT_FOUND := "NOT_FOUND"

  /**
    The locals of a running generator: retries so far, whether anything arrived, the
    log index its stream delivers next, and whether it is suspended at its `yield`.
   */
  datatype Frame = Frame(attempt: nat, receivedAny: bool, position: nat, pending: bool)

  /** The adapter's counters and flag. */
  datatype Adapter = Adapter(delivered: nat, sequence: nat, stopped: bool)

  // ----- the steps of `start`

  /** Subscribe after the entries counted so far. */
  function Subscribed(a: Adapter, attempt: nat): Option<Frame> {
    if a.stopped then None else Some(Frame(attempt, false, a.delivered, false))
  }

  /** The consumer asks for the next message: only now is the last one counted. */
  function Resumed(a: Adapter, f: Frame): (Adapter, Frame) {
    if f.pending then (a.(delivered := a.delivered + 1), f.(pending := false)) else (a, f)
  }

  /** An envelope arrives on the stream; one of another session is skipped. */
  function Arrived(a: Adapter, f: Frame, foreign: bool): (Adapter, Option<Frame>) {
    var received := f.(receivedAny := true);
    if a.stopped then (a, None)
    else if foreign then (a, Some(received))
    else (a.(sequence := a.sequence + 1), Some(received.(position := f.position + 1, pending := true)))
  }

  /** A transport error: only a session not found yet, before anything arrived, is tried again. */
  function Failed(a: Adapter, f: Frame, code: string, maxRetries: nat): Option<Frame> {
    if a.stopped || f.receivedAny || code != NOT_FOUND || f.attempt >= maxRetries then None
    else Subscribed(a, f.attempt + 1)
  }

  // ----- runs: any number of generators over one adapter

  datatype Event =
    | Start(g: nat) | Resume(g: nat) | Arrive(g: nat) | ArriveForeign(g: nat)
    | Fail(g: nat, code: string) | End(g: nat) | Abandon(g: nat) | Stop

  /** `handed` lists the log indices given to the consumer, in order. */
  datatype System = System(adapter: Adapter, frames: map<nat, Frame>, handed: seq<nat>)

  function WithFrame(s: System, g: nat, f: Option<Frame>): System {
    s.(frames := if f.Some? then s.frames[g := f.value] else s.frames - {g})
  }

  /** An event that is not possible in a state leaves it as it is; only a suspended generator can be abandoned. */
  function Step(size: nat, maxRetries: nat, s: System, ev: Event): System {
    if ev.Stop? then s.(adapter := s.adapter.(stopped := true))
    else if ev.Start? then
      if ev.g in s.frames then s else WithFrame(s, ev.g, Subscribed(s.adapter, 0))
    else if ev.g !in s.frames then s
    else
      var f := s.frames[ev.g];
      if ev.Abandon? then
        if f.pending then WithFrame(s, ev.g, None) else s
      else if ev.Resume? then
        var (adapter, frame) := Resumed(s.adapter, f);
        WithFrame(s.(adapter := adapter), ev.g, Some(frame))
      else if f.pending then s
      else if ev.Arrive? then
        if f.position >= size then s
        else
          var (adapter, frame) := Arrived(s.adapter, f, false);
          WithFrame(s.(adapter := adapter, handed := s.handed + if frame.Some? then [f.position] else []), ev.g, frame)
      else if ev.ArriveForeign? then WithFrame(s, ev.g, Arrived(s.adapter, f, true).1)
      else if ev.Fail? then WithFrame(s, ev.g, Failed(s.adapter, f, ev.code, maxRetries))
      else WithFrame(s, ev.g, None)
  }

  function New(): System { System(Adapter(0, 0, false), map[], []) }

  /** The state after some events from `s` on. */
  function From(size: nat, maxRetries: nat, s: System, events: seq<Event>): System {
    if events == [] then s
    else Step(size, maxRetries, From(size, maxRetries, s, events[..|events| - 1]), events[|events| - 1])
  }

  /** And from a new adapter. */
  function Events(size: nat, maxRetries: nat, events: seq<Event>): System { From(size, maxRetries, New(), events) }

  /** From `s` on, a generator is started only when no other is alive. */
  ghost predicate Alone(size: nat, maxRetries: nat, s: System, events: seq<Event>) {
    forall i | 0 <= i < |events| && events[i].Start? :: From(size, maxRetries, s, events[..i]).frames == map[]
  }

  ghost predicate OneAtATime(size: nat, maxRetries: nat, events: seq<Event>) { Alone(size, maxRetries, New(), events) }

  lemma FromNext(size: nat, maxRetries: nat, s: System, events: seq<Event>, ev: Event)
    ensures From(size, maxRetries, s, events + [ev]) == Step(size, maxRetries, From(size, maxRetries, s, events), ev)
    ensures Alone(size, maxRetries, s, events) && (ev.Start? ==> From(size, maxRetries, s, events).frames == map[])
      ==> Alone(size, maxRetries, s, events + [ev])
  {
    hide Step;
    var all := events + [ev];
    assert all[..|events|] == events;
    assert forall i | 0 <= i < |events| :: all[i] == events[i] && all[..i] == events[..i];
  }

  lemma AloneInit(size: nat, maxRetries: nat, s: System, events: seq<Event>)
    requires events != [] && Alone(size, maxRetries, s, events)
    ensures var init, last := events[..|events| - 1], events[|events| - 1];
      Alone(size, maxRetries, s, init) && (last.Start? ==> From(size, maxRetries, s, init).frames == map[])
  {
    hide From;
    var init := events[..|events| - 1];
    assert forall i | 0 <= i < |init| :: init[i] == events[i] && init[..i] == events[..i];
  }

  // ----- what is handed out

  /** One past the highest log index handed out. */
  function Top(handed: seq<nat>): nat {
    if handed == [] then 0
    else
      var before, last := Top(handed[..|handed| - 1]), handed[|handed| - 1];
      if last + 1 > before then last + 1 else before
  }

  lemma TopNext(handed: seq<nat>, i: nat)
    ensures Top(handed + [i]) == if i + 1 > Top(handed) then i + 1 else Top(handed)
  {
    assert (handed + [i])[..|handed|] == handed;
  }

  /** Nothing is handed out past an entry that never was. */
  ghost predicate Gapless(handed: seq<nat>) {
    forall i | 0 <= i < |handed| :: handed[i] <= Top(handed[..i])
  }

  /** More than that: each entry is the next new one, or the latest once more. */
  ghost predicate NextOrLatest(handed: seq<nat>) {
    forall i | 0 <= i < |handed| :: handed[i] == Top(handed[..i]) || handed[i] + 1 == Top(handed[..i])
  }

  lemma HandedNext(handed: seq<nat>, i: nat)
    ensures Gapless(handed + [i]) <==> Gapless(handed) && i <= Top(handed)
    ensures NextOrLatest(handed + [i]) <==> NextOrLatest(handed) && (i == Top(handed) || i + 1 == Top(handed))
  {
    hide Top;
    var next := handed + [i];
    assert next[..|handed|] == handed && next[|handed|] == i;
    assert forall k | 0 <= k < |handed| :: next[k] == handed[k] && next[..k] == handed[..k];
  }

  lemma NextIsGapless(handed: seq<nat>)
    requires NextOrLatest(handed)
    ensures Gapless(handed)
  {
    hide Top;
  }

  ghost predicate FrameRight(s: System, f: Frame) {
    if f.pending then f.position == s.adapter.delivered + 1 == Top(s.handed) else f.position == s.adapter.delivered
  }

  ghost predicate Right(size: nat, maxRetries: nat, s: System) {
    && (forall g, h | g in s.frames && h in s.frames :: g == h)
    && (forall g | g in s.frames :: FrameRight(s, s.frames[g]) && s.frames[g].attempt <= maxRetries)
    && s.adapter.delivered <= Top(s.handed) <= s.adapter.delivered + 1
    && Top(s.handed) <= size && NextOrLatest(s.handed) && s.adapter.sequence == |s.handed|
  }

  lemma ArriveRight(size: nat, maxRetries: nat, s: System, g: nat)
    requires Right(size, maxRetries, s) && g in s.frames
    ensures Right(size, maxRetries, Step(size, maxRetries, s, Arrive(g)))
  {
    hide Top, NextOrLatest;
    var f := s.frames[g];
    assert s.handed + [] == s.handed;
    if !f.pending && f.position < size && !s.adapter.stopped {
      TopNext(s.handed, f.position);
      HandedNext(s.handed, f.position);
    }
  }

  lemma StepRight(size: nat, maxRetries: nat, s: System, ev: Event)
    requires Right(size, maxRetries, s) && (ev.Start? ==> s.frames == map[])
    ensures Right(size, maxRetries, Step(size, maxRetries, s, ev))
  {
    hide Top, NextOrLatest;
    if ev.Arrive? && ev.g in s.frames {
      ArriveRight(size, maxRetries, s, ev.g);
    }
  }

  lemma {:induction false} RunRight(size: nat, maxRetries: nat, s: System, events: seq<Event>)
    requires Right(size, maxRetries, s) && Alone(size, maxRetries, s, events)
    ensures Right(size, maxRetries, From(size, maxRetries, s, events))
  {
    hide Step, Right, Alone;
    if events != [] {
      var init := events[..|events| - 1];
      AloneInit(size, maxRetries, s, events);
      RunRight(size, maxRetries, s, init);
      StepRight(size, maxRetries, From(size, maxRetries, s, init), events[|events| - 1]);
    }
  }

  lemma NewRight(size: nat, maxRetries: nat)
    ensures Right(size, maxRetries, New())
  {
  }

  /** With one generator at a time the count stays within one of the highest entry handed out. */
  lemma CursorWithinOne(size: nat, maxRetries: nat, events: seq<Event>)
    requires OneAtATime(size, maxRetries, events)
    ensures var s := Events(size, maxRetries, events);
      && s.adapter.delivered <= Top(s.handed) <= s.adapter.delivered + 1
      && NextOrLatest(s.handed) && s.adapter.sequence == |s.handed|
  {
    NewRight(size, maxRetries);
    RunRight(size, maxRetries, New(), events);
  }

  // ----- a projection fed what was handed out

  function Fed(log: seq<Envelope>, handed: seq<nat>): (r: seq<Envelope>)
    requires Top(handed) <= |log|
    ensures |r| == |handed|
  {
    if handed == [] then []
    else Fed(log, handed[..|handed| - 1]) + [log[handed[|handed| - 1]]]
  }

  /** No entry raises when the log is applied in order, and those of the mode have ids. */
  ghost predicate Steady<M>(mode: Mode<M>, p: State<M>, log: seq<Envelope>) {
    forall k | 0 <= k < |log| ::
      (log[k].mode == mode.name ==> log[k].messageId != "") && !Apply(mode, Run(mode, p, log[..k]), log[k]).1
  }

  /** Every entry of the log so far that counts has been seen. */
  lemma {:induction false} SeenKept<M>(mode: Mode<M>, p: State<M>, log: seq<Envelope>, m: nat, k: nat)
    requires Steady(mode, p, log) && k < m <= |log| && log[k].mode == mode.name
    ensures log[k].messageId in Run(mode, p, log[..m]).core.seen
    decreases m
  {
    hide Apply, Run;
    var before := Run(mode, p, log[..m - 1]);
    assert log[..m] == log[..m - 1] + [log[m - 1]];
    RunNext(mode, p, log[..m - 1], log[m - 1]);
    KeptOrDropped(mode, before, log[m - 1]);
    if k < m - 1 {
      SeenKept(mode, p, log, m - 1, k);
    } else {
      TakenIsSeen(mode, before, log[k]);
    }
  }

  lemma TakenIsSeen<M>(mode: Mode<M>, p: State<M>, e: Envelope)
    requires e.mode == mode.name && e.messageId != "" && !Apply(mode, p, e).1
    ensures e.messageId in Apply(mode, p, e).0.core.seen
  {
  }

  /** An entry of the log so far, again, changes nothing. */
  lemma EarlierAgain<M>(mode: Mode<M>, p: State<M>, log: seq<Envelope>, m: nat, k: nat)
    requires Steady(mode, p, log) && k < m <= |log|
    ensures Apply(mode, Run(mode, p, log[..m]), log[k]).0 == Run(mode, p, log[..m])
  {
    hide Run;
    if log[k].mode == mode.name {
      SeenKept(mode, p, log, m, k);
    }
  }

  lemma FedNext(log: seq<Envelope>, handed: seq<nat>, last: nat)
    requires Top(handed + [last]) <= |log|
    ensures Top(handed) <= |log| && last < |log| && Fed(log, handed + [last]) == Fed(log, handed) + [log[last]]
  {
    assert (handed + [last])[..|handed|] == handed;
  }

  /** One more entry handed out: a new one advances the log prefix, an earlier one again does not. */
  lemma FedStep<M>(mode: Mode<M>, p: State<M>, log: seq<Envelope>, m: nat, last: nat)
    requires Steady(mode, p, log) && m <= |log| && last < |log| && last <= m
    ensures Apply(mode, Run(mode, p, log[..m]), log[last]).0 == Run(mode, p, log[..if last == m then m + 1 else m])
  {
    hide Apply, Run;
    if last == m {
      assert log[..m + 1] == log[..m] + [log[m]];
      RunNext(mode, p, log[..m], log[m]);
    } else {
      EarlierAgain(mode, p, log, m, last);
    }
  }

  /** However often entries repeat: without a gap, a projection fed them is one fed the log up to the highest. */
  lemma {:induction false} FedAsLog<M>(mode: Mode<M>, p: State<M>, log: seq<Envelope>, handed: seq<nat>)
    requires Steady(mode, p, log) && Gapless(handed) && Top(handed) <= |log|
    ensures Run(mode, p, Fed(log, handed)) == Run(mode, p, log[..Top(handed)])
    decreases |handed|
  {
    hide Apply, Run, Steady, Gapless, NextOrLatest, Top, Fed;
    if handed == [] {
      NothingFed(log);
    } else {
      var init, last := handed[..|handed| - 1], handed[|handed| - 1];
      assert handed == init + [last];
      FedNext(log, init, last);
      HandedNext(init, last);
      TopNext(init, last);
      FedAsLog(mode, p, log, init);
      RunNext(mode, p, Fed(log, init), log[last]);
      FedStep(mode, p, log, Top(init), last);
    }
  }

  lemma NothingFed(log: seq<Envelope>)
    ensures Top([]) == 0 && Fed(log, []) == log[..0] == []
  {
  }

  lemma {:induction false} WithinLog(size: nat, maxRetries: nat, s: System, events: seq<Event>)
    requires Top(s.handed) <= size
    ensures Top(From(size, maxRetries, s, events).handed) <= size
  {
    hide Top;
    if events != [] {
      var before := From(size, maxRetries, s, events[..|events| - 1]);
      WithinLog(size, maxRetries, s, events[..|events| - 1]);
      assert before.handed + [] == before.handed;
      var last := events[|events| - 1];
      if last.Arrive? && last.g in before.frames {
        TopNext(before.handed, before.frames[last.g].position);
      }
    }
  }

  /**
    Reconnect without gaps: over any yields, abandonments, errors and restarts with one
    generator at a time nothing is skipped; and over any run in which nothing is
    skipped, a projection fed everything handed out is in the state of one fed
    exactly the log's first entries, up to the highest handed out.
   */
  lemma {:induction false} NoGaps<M>(
      mode: Mode<M>, p: State<M>, log: seq<Envelope>, maxRetries: nat, events: seq<Event>)
    requires Steady(mode, p, log)
    ensures var handed := Events(|log|, maxRetries, events).handed;
      && Top(handed) <= |log|
      && (OneAtATime(|log|, maxRetries, events) ==> Gapless(handed))
      && (Gapless(handed) ==> Run(mode, p, Fed(log, handed)) == Run(mode, p, log[..Top(handed)]))
  {
    hide Steady, Right, Gapless, NextOrLatest, Alone, From, Fed, Run, Apply;
    NewRight(|log|, maxRetries);
    NewHandsNothing();
    WithinLog(|log|, maxRetries, New(), events);
    var handed := Events(|log|, maxRetries, events).handed;
    if OneAtATime(|log|, maxRetries, events) {
      RunRight(|log|, maxRetries, New(), events);
      RightHands(|log|, maxRetries, Events(|log|, maxRetries, events));
      NextIsGapless(handed);
    }
    if Gapless(handed) {
      FedAsLog(mode, p, log, handed);
    }
  }

  lemma NewHandsNothing()
    ensures Top(New().handed) == 0
  {
  }

  lemma RightHands(size: nat, maxRetries: nat, s: System)
    requires Right(size, maxRetries, s)
    ensures NextOrLatest(s.handed)
  {
  }

  // ----- a second generator

  /** Both generators hand out the next entry, both count it, and both streams end. */
  lemma BothCount(size: nat, maxRetries: nat, s: System, g: nat, h: nat) returns (more: seq<Event>)
    requires Right(size, maxRetries, s) && g in s.frames && h !in s.frames && !s.adapter.stopped
    requires s.adapter.delivered < size
    ensures var began := Step(size, maxRetries, s, Start(h)); var after := From(size, maxRetries, began, more);
      && Alone(size, maxRetries, began, more) && after.frames == map[] && !after.adapter.stopped
      && after.adapter.delivered == s.adapter.delivered + 2 && Top(after.handed) == s.adapter.delivered + 1
  {
    hide Top, NextOrLatest, From;
    var d, f := s.adapter.delivered, s.frames[g];
    var began := Step(size, maxRetries, s, Start(h));
    assert s.frames.Keys == {g};
    assert s.frames == map[g := f];
    var added := Frame(0, false, d, false);
    assert began == s.(frames := map[g := f, h := added]);
    FromNone(size, maxRetries, began);
    var first := if f.pending then [] else [Arrive(g)];
    var a := began;
    if !f.pending {
      FromNext(size, maxRetries, began, [], Arrive(g));
      assert [] + [Arrive(g)] == [Arrive(g)];
      a := From(size, maxRetries, began, first);
      TopNext(s.handed, d);
    }
    var waiting := a.frames[g];
    assert a.frames == map[g := waiting, h := added] && waiting.pending && Top(a.handed) == d + 1;
    assert a.adapter.delivered == d && !a.adapter.stopped;
    FromNext(size, maxRetries, began, first, Arrive(h));
    var b := From(size, maxRetries, began, first + [Arrive(h)]);
    TopNext(a.handed, d);
    FromNext(size, maxRetries, began, first + [Arrive(h)], Resume(g));
    var two := first + [Arrive(h)] + [Resume(g)];
    FromNext(size, maxRetries, began, two, End(g));
    var three := two + [End(g)];
    var c := From(size, maxRetries, began, three);
    assert c.frames == map[h := Frame(0, true, d + 1, true)] && c.handed == a.handed + [d] && c.adapter.delivered == d + 1;
    FromNext(size, maxRetries, began, three, Resume(h));
    FromNext(size, maxRetries, began, three + [Resume(h)], End(h));
    more := three + [Resume(h)] + [End(h)];
  }

  lemma FromNone(size: nat, maxRetries: nat, s: System)
    ensures From(size, maxRetries, s, []) == s && Alone(size, maxRetries, s, [])
  {
  }

  /** So wherever two more entries follow, a start beside a live generator can lead to a skipped entry. */
  lemma OverlapSkips(size: nat, maxRetries: nat, s: System, g: nat, h: nat) returns (more: seq<Event>)
    requires Right(size, maxRetries, s) && g in s.frames && h !in s.frames && !s.adapter.stopped
    requires s.adapter.delivered + 2 < size
    ensures var began := Step(size, maxRetries, s, Start(h));
      Alone(size, maxRetries, began, more) && !Gapless(From(size, maxRetries, began, more).handed)
  {
    hide Top, Right, Gapless, NextOrLatest, From, Alone;
    var began := Step(size, maxRetries, s, Start(h));
    var both := BothCount(size, maxRetries, s, g, h);
    var after := From(size, maxRetries, began, both);
    FromNext(size, maxRetries, began, both, Start(g));
    FromNext(size, maxRetries, began, both + [Start(g)], Arrive(g));
    more := both + [Start(g)] + [Arrive(g)];
    HandedNext(after.handed, after.adapter.delivered);
    assert From(size, maxRetries, began, more).handed == after.handed + [after.adapter.delivered];
  }

  /**
    With at most two entries left, whatever is started: every generator reads entries
    from `d` on, so none can reach past the second.
   */
  ghost predicate FewLeft(size: nat, d: nat, s: System) {
    && size <= d + 2 && d <= s.adapter.delivered && Gapless(s.handed)
    && Reachable(size, s.adapter.delivered, s.handed)
    && (forall g | g in s.frames :: d <= s.frames[g].position && Reachable(size, s.frames[g].position, s.handed))
    && (forall g | g in s.frames && s.frames[g].pending :: d + 1 <= Top(s.handed))
  }

  /** Nothing was skipped before this log index, or the log has no such entry. */
  ghost predicate Reachable(size: nat, position: nat, handed: seq<nat>) { position <= Top(handed) || size <= position }

  lemma FewLeftStep(size: nat, maxRetries: nat, d: nat, s: System, ev: Event)
    requires FewLeft(size, d, s)
    ensures FewLeft(size, d, Step(size, maxRetries, s, ev))
  {
    hide Top, Gapless, NextOrLatest;
    assert s.handed + [] == s.handed;
    if ev.Arrive? && ev.g in s.frames {
      TopNext(s.handed, s.frames[ev.g].position);
      HandedNext(s.handed, s.frames[ev.g].position);
    }
  }

  lemma {:induction false} FewLeftRun(size: nat, maxRetries: nat, d: nat, s: System, events: seq<Event>)
    requires FewLeft(size, d, s)
    ensures FewLeft(size, d, From(size, maxRetries, s, events))
  {
    hide Step, FewLeft;
    if events != [] {
      FewLeftRun(size, maxRetries, d, s, events[..|events| - 1]);
      FewLeftStep(size, maxRetries, d, From(size, maxRetries, s, events[..|events| - 1]), events[|events| - 1]);
    }
  }

  /** With nothing left to read, nothing is counted. */
  ghost predicate NoneLeft(size: nat, s: System) {
    && size <= s.adapter.delivered <= Top(s.handed)
    && (forall g | g in s.frames :: !s.frames[g].pending && size <= s.frames[g].position)
  }

  lemma {:induction false} NoneLeftRun(size: nat, maxRetries: nat, s: System, events: seq<Event>)
    requires NoneLeft(size, s)
    ensures NoneLeft(size, From(size, maxRetries, s, events))
  {
    hide Top;
    if events != [] {
      var before := From(size, maxRetries, s, events[..|events| - 1]);
      NoneLeftRun(size, maxRetries, s, events[..|events| - 1]);
      assert before.handed + [] == before.handed;
    }
  }

  /** No run from here on, with no further generator started beside a live one, hands out past a gap. */
  ghost predicate NeverSkips(size: nat, maxRetries: nat, s: System) {
    forall more | Alone(size, maxRetries, s, more) :: Gapless(From(size, maxRetries, s, more).handed)
  }

  /** A consumer that abandons the entry it was given gets the same entry again from the next generator. */
  lemma AbandonedAgain(size: nat, maxRetries: nat, events: seq<Event>, g: nat, h: nat)
    requires OneAtATime(size, maxRetries, events)
    requires var s := Events(size, maxRetries, events);
      g in s.frames && s.frames[g].pending && !s.adapter.stopped && g != h
    ensures var handed := Events(size, maxRetries, events).handed;
      && handed != []
      && Events(size, maxRetries, events + [Abandon(g)] + [Start(h)] + [Arrive(h)]).handed == handed + [Top(handed) - 1]
  {
    hide From, Top, NextOrLatest, Alone;
    NewRight(size, maxRetries);
    RunRight(size, maxRetries, New(), events);
    NothingHanded();
    FromNext(size, maxRetries, New(), events, Abandon(g));
    FromNext(size, maxRetries, New(), events + [Abandon(g)], Start(h));
    FromNext(size, maxRetries, New(), events + [Abandon(g)] + [Start(h)], Arrive(h));
  }

  lemma NothingHanded()
    ensures Top([]) == 0
  {
  }

  /** Nor does the count run ahead of what was handed out. */
  ghost predicate NeverAhead(size: nat, maxRetries: nat, s: System) {
    forall more | Alone(size, maxRetries, s, more) ::
      From(size, maxRetries, s, more).adapter.delivered <= Top(From(size, maxRetries, s, more).handed)
  }

  lemma RightIsSafe(size: nat, maxRetries: nat, s: System)
    requires Right(size, maxRetries, s)
    ensures NeverSkips(size, maxRetries, s) && NeverAhead(size, maxRetries, s)
  {
    hide From, Alone, NextOrLatest, Gapless, Top;
    forall more | Alone(size, maxRetries, s, more)
      ensures Gapless(From(size, maxRetries, s, more).handed)
      ensures From(size, maxRetries, s, more).adapter.delivered <= Top(From(size, maxRetries, s, more).handed)
    {
      RunRight(size, maxRetries, s, more);
      NextIsGapless(From(size, maxRetries, s, more).handed);
    }
  }

  /** A start that is safe whatever the log: no generator is alive, or the adapter is stopped. */
  lemma StartAlone(size: nat, maxRetries: nat, s: System, h: nat)
    requires Right(size, maxRetries, s) && h !in s.frames && (s.frames == map[] || s.adapter.stopped)
    ensures Right(size, maxRetries, Step(size, maxRetries, s, Start(h)))
  {
    hide Top, NextOrLatest;
    if s.adapter.stopped {
      assert Step(size, maxRetries, s, Start(h)) == s;
    } else {
      StepRight(size, maxRetries, s, Start(h));
    }
  }

  lemma StartFew(size: nat, maxRetries: nat, s: System, h: nat)
    requires Right(size, maxRetries, s) && h !in s.frames && size <= s.adapter.delivered + 2
    ensures FewLeft(size, s.adapter.delivered, Step(size, maxRetries, s, Start(h)))
  {
    hide Top, Gapless, NextOrLatest;
    NextIsGapless(s.handed);
  }

  lemma StartNone(size: nat, maxRetries: nat, s: System, h: nat)
    requires Right(size, maxRetries, s) && h !in s.frames && size <= s.adapter.delivered
    ensures NoneLeft(size, Step(size, maxRetries, s, Start(h)))
  {
    hide Top, NextOrLatest;
  }

  /**
    One further start after any run with one generator at a time: nothing is ever
    skipped if and only if no generator is alive, the adapter is stopped, or at most
    two entries are uncounted; and the count never runs ahead if and only if no
    generator is alive, the adapter is stopped, or every entry is counted.
   */
  lemma StartIsSafeIff(size: nat, maxRetries: nat, events: seq<Event>, h: nat)
    requires OneAtATime(size, maxRetries, events) && h !in Events(size, maxRetries, events).frames
    ensures var s := Events(size, maxRetries, events); var began := Events(size, maxRetries, events + [Start(h)]);
      && (NeverSkips(size, maxRetries, began) <==>
            s.frames == map[] || s.adapter.stopped || size <= s.adapter.delivered + 2)
      && (NeverAhead(size, maxRetries, began) <==>
            s.frames == map[] || s.adapter.stopped || size <= s.adapter.delivered)
  {
    hide From, Alone, Right, Gapless, Top, NextOrLatest, Step, FewLeft, NoneLeft;
    var s := Events(size, maxRetries, events);
    NewRight(size, maxRetries);
    RunRight(size, maxRetries, New(), events);
    FromNext(size, maxRetries, New(), events, Start(h));
    var began := Step(size, maxRetries, s, Start(h));
    if s.frames == map[] || s.adapter.stopped {
      StartAlone(size, maxRetries, s, h);
      RightIsSafe(size, maxRetries, began);
    } else {
      var g :| g in s.frames;
      if size <= s.adapter.delivered + 2 {
        StartFew(size, maxRetries, s, h);
        FewIsSafe(size, maxRetries, s.adapter.delivered, began);
      } else {
        var more := OverlapSkips(size, maxRetries, s, g, h);
      }
      if size <= s.adapter.delivered {
        StartNone(size, maxRetries, s, h);
        NoneIsSafe(size, maxRetries, began);
      } else {
        var more := BothCount(size, maxRetries, s, g, h);
      }
    }
  }

  lemma FewIsSafe(size: nat, maxRetries: nat, d: nat, s: System)
    requires FewLeft(size, d, s)
    ensures NeverSkips(size, maxRetries, s)
  {
    hide From, Alone, Gapless, Top;
    forall more | Alone(size, maxRetries, s, more)
      ensures Gapless(From(size, maxRetries, s, more).handed)
    {
      FewLeftRun(size, maxRetries, d, s, more);
    }
  }

  lemma NoneIsSafe(size: nat, maxRetries: nat, s: System)
    requires NoneLeft(size, s)
    ensures NeverAhead(size, maxRetries, s)
  {
    hide From, Alone, Top;
    forall more | Alone(size, maxRetries, s, more)
      ensures From(size, maxRetries, s, more).adapter.delivered <= Top(From(size, maxRetries, s, more).handed)
    {
      NoneLeftRun(size, maxRetries, s, more);
    }
  }

  /** The shortest such run: two generators count entry 0, and a third hands out entry 2. */
  lemma TwoAliveSkip(size: nat, maxRetries: nat) returns (events: seq<Event>)
    requires size >= 3
    ensures !OneAtATime(size, maxRetries, events) && !Gapless(Events(size, maxRetries, events).handed)
  {
    hide From, Alone, Right, Gapless, Top, NextOrLatest, Step;
    var s := Events(size, maxRetries, [Start(0)]);
    FirstStart(size, maxRetries);
    var more := OverlapSkips(size, maxRetries, s, 0, 1);
    FromNext(size, maxRetries, New(), [Start(0)], Start(1));
    events := [Start(0)] + [Start(1)] + more;
    FromConcat(size, maxRetries, New(), [Start(0)] + [Start(1)], more);
    StartedBeside(size, maxRetries, events);
  }

  lemma FirstStart(size: nat, maxRetries: nat)
    ensures var s := Events(size, maxRetries, [Start(0)]);
      s == System(Adapter(0, 0, false), map[0 := Frame(0, false, 0, false)], []) && Right(size, maxRetries, s)
  {
    FromNone(size, maxRetries, New());
    assert [Start(0)] == [] + [Start(0)];
    FromNext(size, maxRetries, New(), [], Start(0));
  }

  lemma {:induction false} FromConcat(size: nat, maxRetries: nat, s: System, a: seq<Event>, b: seq<Event>)
    ensures From(size, maxRetries, s, a + b) == From(size, maxRetries, From(size, maxRetries, s, a), b)
    decreases |b|
  {
    hide Step;
    if b == [] {
      assert a + b == a;
    } else {
      assert (a + b)[..|a + b| - 1] == a + b[..|b| - 1];
      FromConcat(size, maxRetries, s, a, b[..|b| - 1]);
    }
  }

  lemma StartedBeside(size: nat, maxRetries: nat, events: seq<Event>)
    requires |events| >= 2 && events[0] == Start(0) && events[1] == Start(1)
    ensures !OneAtATime(size, maxRetries, events)
  {
    hide From, Right;
    assert events[..1] == [Start(0)];
    FirstStart(size, maxRetries);
    assert 0 in Events(size, maxRetries, [Start(0)]).frames;
    assert From(size, maxRetries, New(), events[..1]).frames != map[];
  }

  // ----- stopping

  lemma StoppedStep(size: nat, maxRetries: nat, s: System, ev: Event)
    requires s.adapter.stopped
    ensures var after := Step(size, maxRetries, s, ev); after.adapter.stopped && after.handed == s.handed
  {
  }

  /** Nothing is handed out after a stop. */
  lemma {:induction false} StopIsFinal(size: nat, maxRetries: nat, before: seq<Event>, later: seq<Event>)
    ensures Events(size, maxRetries, before + [Stop] + later).handed == Events(size, maxRetries, before).handed
    ensures Events(size, maxRetries, before + [Stop] + later).adapter.stopped
  {
    hide Step;
    if later == [] {
      assert before + [Stop] + later == before + [Stop];
      assert (before + [Stop])[..|before|] == before;
      StopStep(size, maxRetries, Events(size, maxRetries, before));
    } else {
      var init, last := later[..|later| - 1], later[|later| - 1];
      StopIsFinal(size, maxRetries, before, init);
      var all := before + [Stop] + later;
      assert all[..|all| - 1] == before + [Stop] + init;
      StoppedStep(size, maxRetries, Events(size, maxRetries, before + [Stop] + init), last);
    }
  }

  lemma StopStep(size: nat, maxRetries: nat, s: System)
    ensures Step(size, maxRetries, s, Stop) == s.(adapter := s.adapter.(stopped := true))
  {
  }

  // ----- how often a subscription is tried again

  /** `k` times the answer that the session is not found. */
  function NotFound(g: nat, k: nat): seq<Event> { seq(k, _ => Fail(g, "NOT_FOUND")) }

  /** A generator that nothing has reached survives exactly `maxRetries` such answers. */
  lemma {:induction false} RetriesBounded(size: nat, maxRetries: nat, s: System, g: nat, k: nat)
    requires !s.adapter.stopped && g in s.frames && s.frames[g] == Frame(0, false, s.adapter.delivered, false)
    ensures var after := From(size, maxRetries, s, NotFound(g, k));
      && after.adapter == s.adapter && after.handed == s.handed
      && (g in after.frames <==> k <= maxRetries)
      && (k <= maxRetries ==> after.frames[g] == Frame(k, false, s.adapter.delivered, false))
    decreases k
  {
    hide From;
    if k == 0 {
      assert NotFound(g, k) == [];
      FromNone(size, maxRetries, s);
    } else {
      RetriesBounded(size, maxRetries, s, g, k - 1);
      assert NotFound(g, k) == NotFound(g, k - 1) + [Fail(g, "NOT_FOUND")];
      FromNext(size, maxRetries, s, NotFound(g, k - 1), Fail(g, "NOT_FOUND"));
    }
  }

  /** Any other error, or any error once something arrived or after a stop, ends the generator. */
  lemma OtherErrorsEnd(size: nat, maxRetries: nat, s: System, g: nat, code: string)
    requires g in s.frames && !s.frames[g].pending
    requires code != "NOT_FOUND" || s.frames[g].receivedAny || s.adapter.stopped
    ensures Step(size, maxRetries, s, Fail(g, code)) == s.(frames := s.frames - {g})
  {
  }

  // ----- the class

  /** The generator's locals are passed in and out as its frame. */
  class GrpcTransportAdapter {
    const sessionId: string
    const maxRetries: nat
    var delivered: nat
    var sequence: nat
    var stopped: bool

    function Fields(): Adapter
      reads this
    {
      Adapter(delivered, sequence, stopped)
    }

    constructor (sessionId: string, maxRetries: nat)
      ensures this.sessionId == sessionId && this.maxRetries == maxRetries && Fields() == Adapter(0, 0, false)
    {
      this.sessionId, this.maxRetries := sessionId, maxRetries;
      delivered, sequence, stopped := 0, 0, false;
    }

    /** The top of the loop: open a stream and subscribe after what is counted. */
    method Subscribe(attempt: nat) returns (frame: Option<Frame>)
      ensures frame == Subscribed(Fields(), attempt)
    {
      if stopped {
        return None;
      }
      frame := Some(Frame(attempt, false, delivered, false));
    }

    method Next(frame: Frame) returns (next: Frame)
      modifies this
      ensures (Fields(), next) == Resumed(old(Fields()), frame)
    {
      next := frame;
      if frame.pending {
        delivered := delivered + 1;
        next := frame.(pending := false);
      }
    }

    method Receive(frame: Frame, e: Envelope) returns (next: Option<Frame>)
      modifies this
      ensures (Fields(), next) == Arrived(old(Fields()), frame, e.sessionId != sessionId)
    {
      var received := frame.(receivedAny := true);
      if stopped {
        return None;
      }
      if e.sessionId != sessionId {
        return Some(received);
      }
      sequence := sequence + 1;
      next := Some(received.(position := frame.position + 1, pending := true));
    }

    method TransportError(frame: Frame, code: string) returns (next: Option<Frame>)
      ensures next == Failed(Fields(), frame, code, maxRetries)
    {
      if stopped {
        return None;
      }
      if frame.receivedAny || code != NOT_FOUND || frame.attempt >= maxRetries {
        return None;
      }
      next := Subscribe(frame.attempt + 1);
    }

    method StopDelivery()
      modifies this
      ensures Fields() == old(Fields()).(stopped := true)
    {
      stopped := true;
    }
  }
}
