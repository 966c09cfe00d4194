/**
  The Task projection: per-task records, audit lists, and one assignee slot for
  the whole session.
 */
module TaskModel {
  import opened Basics
  import Commitment
  import opened Projection
  import opened Ledger

  const MODE_TASK := "macp.mode.task.v1"
  const DUPLICATE_TASK_ACCEPT := "duplicate_task_accept"

  datatype RequestPayload = RequestPayload(
    taskId: string, title: string, instructions: string, requestedAssignee: string, deadlineUnixMs: int, input: Bytes)
  datatype AcceptPayload = AcceptPayload(taskId: string, assignee: string)
  datatype RejectPayload = RejectPayload(taskId: string, assignee: string, reason: string)
  datatype UpdatePayload = UpdatePayload(taskId: string, status: string, progress: real, message: string)
  datatype CompletePayload = CompletePayload(taskId: string, assignee: string, summary: string, output: Bytes)
  datatype FailPayload = FailPayload(taskId: string, assignee: string, errorCode: string, reason: string, retryable: bool)

  /** Payload parsing, which may fail, and Python's `repr`. */
  datatype Codec = Codec(
    commitment: Bytes -> Option<Commitment.Payload>,
    request: Bytes -> Option<RequestPayload>,
    accept: Bytes -> Option<AcceptPayload>,
    reject: Bytes -> Option<RejectPayload>,
    update: Bytes -> Option<UpdatePayload>,
    complete: Bytes -> Option<CompletePayload>,
    fail: Bytes -> Option<FailPayload>,
    repr: string -> string)

  datatype Task = Task(
    taskId: string, title: string, instructions: string, requestedAssignee: string, sender: string,
    status: string, progress: real, assignee: Option<string>, deadlineUnixMs: int, input: Bytes)
  datatype Rejection = Rejection(taskId: string, assignee: string, reason: string, sender: string, whileAssigned: bool)
  datatype Update = Update(taskId: string, status: string, progress: real, message: string, sender: string)
  datatype Completion = Completion(taskId: string, assignee: string, summary: string, output: Bytes, sender: string)
  datatype Failure = Failure(
    taskId: string, assignee: string, errorCode: string, reason: string, retryable: bool, sender: string)

  /** Who holds the session's assignee slot, and for which task. */
  datatype Slot = Slot(sender: string, taskId: string)

  datatype Tasks = Tasks(
    tasks: map<string, Task>, updates: seq<Update>, rejections: seq<Rejection>,
    completions: seq<Completion>, failures: seq<Failure>, slot: Option<Slot>)

  // ----- the handler

  function Or(assignee: string, sender: string): string { if assignee != "" then assignee else sender }

  function MakeTask(p: RequestPayload, sender: string): Task {
    Task(p.taskId, p.title, p.instructions, p.requestedAssignee, sender, "requested", 0.0, None, p.deadlineUnixMs, p.input)
  }

  function MakeUpdate(p: UpdatePayload, sender: string): Update {
    Update(p.taskId, p.status, p.progress, p.message, sender)
  }

  function MakeCompletion(p: CompletePayload, sender: string): Completion {
    Completion(p.taskId, Or(p.assignee, sender), p.summary, p.output, sender)
  }

  function MakeFailure(p: FailPayload, sender: string): Failure {
    Failure(p.taskId, Or(p.assignee, sender), p.errorCode, p.reason, p.retryable, sender)
  }

  /** A record of a known task rewritten; nothing for an unknown one. */
  function Rewritten(tasks: map<string, Task>, id: string, f: Task -> Task): map<string, Task> {
    if id in tasks then tasks[id := f(tasks[id])] else tasks
  }

  function HandleRequest(own: Tasks, e: Envelope, p: RequestPayload): Effect<Tasks> {
    var slot := if own.slot.Some? && own.slot.value.taskId == p.taskId then None else own.slot;
    Done(own.(tasks := own.tasks[p.taskId := MakeTask(p, e.sender)], slot := slot), Some("Requested"), None)
  }

  function Discarded(c: Codec, e: Envelope, taskId: string, held: Slot): Anomaly {
    Anomaly(DUPLICATE_TASK_ACCEPT, MODE_TASK, e.messageType, e.messageId, e.sender, taskId,
      "active assignee slot already held by " + c.repr(held.sender) + " for task " + c.repr(held.taskId)
      + "; discarded competing TaskAccept for task " + c.repr(taskId) + " from " + c.repr(e.sender))
  }

  function HandleAccept(c: Codec, own: Tasks, e: Envelope, p: AcceptPayload): Effect<Tasks> {
    if p.taskId !in own.tasks then Done(own, None, None)
    else if own.slot.Some? then Done(own, None, Some(Discarded(c, e, p.taskId, own.slot.value)))
    else
      var task := own.tasks[p.taskId].(assignee := Some(Or(p.assignee, e.sender)), status := "accepted");
      Done(own.(slot := Some(Slot(e.sender, p.taskId)), tasks := own.tasks[p.taskId := task]), Some("InProgress"), None)
  }

  /** The holder's reject frees the slot, whatever task it names; anyone else's is only recorded. */
  function HandleReject(own: Tasks, e: Envelope, p: RejectPayload): Effect<Tasks> {
    var holds := own.slot.Some? && own.slot.value.sender == e.sender;
    var next := own.(rejections := own.rejections
      + [Rejection(p.taskId, Or(p.assignee, e.sender), p.reason, e.sender, holds)]);
    if !holds then Done(next, None, None)
    else
      var marked := Rewritten(own.tasks, p.taskId, (t: Task) => t.(status := "rejected"));
      var freed := Rewritten(marked, own.slot.value.taskId, (t: Task) => t.(assignee := None));
      Done(next.(tasks := freed, slot := None), None, None)
  }

  function HandleUpdate(own: Tasks, e: Envelope, p: UpdatePayload): Effect<Tasks> {
    Done(own.(updates := own.updates + [MakeUpdate(p, e.sender)],
              tasks := Rewritten(own.tasks, p.taskId, (t: Task) => t.(status := "in_progress", progress := p.progress))),
      None, None)
  }

  function HandleComplete(own: Tasks, e: Envelope, p: CompletePayload): Effect<Tasks> {
    Done(own.(completions := own.completions + [MakeCompletion(p, e.sender)],
              tasks := Rewritten(own.tasks, p.taskId, (t: Task) => t.(status := "completed", progress := 1.0))),
      if p.taskId in own.tasks then Some("Completed") else None, None)
  }

  function HandleFail(own: Tasks, e: Envelope, p: FailPayload): Effect<Tasks> {
    Done(own.(failures := own.failures + [MakeFailure(p, e.sender)],
              tasks := Rewritten(own.tasks, p.taskId, (t: Task) => t.(status := "failed"))),
      if p.taskId in own.tasks then Some("Failed") else None, None)
  }

  function Handle(c: Codec, own: Tasks, phase: string, e: Envelope): Effect<Tasks> {
    if e.messageType == "TaskRequest" then
      match c.request(e.payload) case None => Raised case Some(p) => HandleRequest(own, e, p)
    else if e.messageType == "TaskAccept" then
      match c.accept(e.payload) case None => Raised case Some(p) => HandleAccept(c, own, e, p)
    else if e.messageType == "TaskReject" then
      match c.reject(e.payload) case None => Raised case Some(p) => HandleReject(own, e, p)
    else if e.messageType == "TaskUpdate" then
      match c.update(e.payload) case None => Raised case Some(p) => HandleUpdate(own, e, p)
    else if e.messageType == "TaskComplete" then
      match c.complete(e.payload) case None => Raised case Some(p) => HandleComplete(own, e, p)
    else if e.messageType == "TaskFail" then
      match c.fail(e.payload) case None => Raised case Some(p) => HandleFail(own, e, p)
    else Done(own, None, None)
  }

  function TaskMode(c: Codec): Mode<Tasks> {
    Mode(MODE_TASK, c.commitment, (own, phase, e) => Handle(c, own, phase, e))
  }

  function Initial(): State<Tasks> {
    State(Core([], "Pending", None, {}, []), Tasks(map[], [], [], [], [], None))
  }

  function After(c: Codec, feed: seq<Envelope>): State<Tasks> { Run(TaskMode(c), Initial(), feed) }

  /** Replay determinism and the final phase, for this mode. */
  lemma TaskReplays(c: Codec, feed: seq<Envelope>)
    ensures var s := After(c, feed);
      After(c, s.core.transcript) == s && (s.core.phase == COMMITTED <==> s.core.commitment.Some?)
  {
    ReplayDeterminism(TaskMode(c), Initial(), feed);
    CommittedIff(TaskMode(c), Initial(), feed);
  }

  // ----- one assignee per session

  /** A task has an assignee exactly when the slot names it, and the slot names a known task. */
  ghost predicate OneAssignee(own: Tasks) {
    && (forall id | id in own.tasks ::
          own.tasks[id].assignee.Some? <==> own.slot.Some? && own.slot.value.taskId == id)
    && (own.slot.Some? ==> own.slot.value.taskId in own.tasks)
  }

  lemma HandledOneAssignee(c: Codec, own: Tasks, phase: string, e: Envelope)
    requires OneAssignee(own) && Handle(c, own, phase, e).Done?
    ensures OneAssignee(Handle(c, own, phase, e).own)
  {
    hide Discarded, MakeUpdate, MakeCompletion, MakeFailure, Or;
  }

  /** In every reachable state. */
  lemma {:induction false} AlwaysOneAssignee(c: Codec, feed: seq<Envelope>)
    ensures OneAssignee(After(c, feed).own)
  {
    hide Handle;
    if feed != [] {
      var before, e := After(c, feed[..|feed| - 1]), feed[|feed| - 1];
      AlwaysOneAssignee(c, feed[..|feed| - 1]);
      FailureUndone(TaskMode(c), before, e);
      if Handle(c, before.own, before.core.phase, e).Done? {
        HandledOneAssignee(c, before.own, before.core.phase, e);
      }
    }
  }

  // ----- who releases the slot

  /** A reject that parses, from the slot's holder. */
  predicate GivesBack(c: Codec, own: Tasks, e: Envelope) {
    e.messageType == "TaskReject" && c.reject(e.payload).Some? && own.slot.Some? && own.slot.value.sender == e.sender
  }

  /** A request that parses, for the slot's task. */
  predicate AsksAgain(c: Codec, own: Tasks, e: Envelope) {
    e.messageType == "TaskRequest" && c.request(e.payload).Some? && own.slot.Some?
    && own.slot.value.taskId == c.request(e.payload).value.taskId
  }

  /** A held slot stays as it is, but for its holder's TaskReject and a new TaskRequest for its task, which free it. */
  lemma SlotReleased(c: Codec, s: State<Tasks>, e: Envelope)
    requires s.own.slot.Some?
    ensures var after := Apply(TaskMode(c), s, e).0;
      after.own.slot ==
        if !Ignored(TaskMode(c), s.core, e) && (GivesBack(c, s.own, e) || AsksAgain(c, s.own, e)) then None else s.own.slot
  {
  }

  // ----- tasks do not disturb each other

  /** The task a message names, if it is a task message that parses. */
  function Named(c: Codec, e: Envelope): Option<string> {
    if e.messageType == "TaskRequest" then
      var p :- c.request(e.payload);
      Some(p.taskId)
    else if e.messageType == "TaskAccept" then
      var p :- c.accept(e.payload);
      Some(p.taskId)
    else if e.messageType == "TaskReject" then
      var p :- c.reject(e.payload);
      Some(p.taskId)
    else if e.messageType == "TaskUpdate" then
      var p :- c.update(e.payload);
      Some(p.taskId)
    else if e.messageType == "TaskComplete" then
      var p :- c.complete(e.payload);
      Some(p.taskId)
    else if e.messageType == "TaskFail" then
      var p :- c.fail(e.payload);
      Some(p.taskId)
    else None
  }

  /** A message changes only the task it names; but its holder's reject unassigns the slot's task, whatever it names. */
  lemma OthersUntouched(c: Codec, s: State<Tasks>, e: Envelope, id: string)
    requires id in s.own.tasks && Named(c, e) != Some(id)
    ensures var after := Apply(TaskMode(c), s, e).0.own;
      && id in after.tasks
      && after.tasks[id] ==
        if !Ignored(TaskMode(c), s.core, e) && GivesBack(c, s.own, e) && s.own.slot.value.taskId == id
        then s.own.tasks[id].(assignee := None) else s.own.tasks[id]
  {
    hide Handle, Named, GivesBack;
    if e.messageType == "Commitment" {
      CommitmentNamesNothing(c, s.own, e);
    } else {
      HandledOnlyNamed(c, s.own, s.core.phase, e, id);
    }
  }

  lemma HandledOnlyNamed(c: Codec, own: Tasks, phase: string, e: Envelope, id: string)
    requires id in own.tasks && Named(c, e) != Some(id)
    ensures Handle(c, own, phase, e).Raised? ==> !GivesBack(c, own, e)
    ensures Handle(c, own, phase, e).Done? ==>
      (var after := Handle(c, own, phase, e).own;
      && id in after.tasks
      && after.tasks[id] ==
        if GivesBack(c, own, e) && own.slot.value.taskId == id then own.tasks[id].(assignee := None) else own.tasks[id])
  {
  }

  lemma CommitmentNamesNothing(c: Codec, own: Tasks, e: Envelope)
    requires e.messageType == "Commitment"
    ensures Named(c, e) == None && !GivesBack(c, own, e) && !AcceptsKnown(c, own, e)
  {
  }

  // ----- every accept is accounted for

  /** An accept that parses, of a task known by then. */
  predicate AcceptsKnown(c: Codec, own: Tasks, e: Envelope) {
    e.messageType == "TaskAccept" && c.accept(e.payload).Some? && c.accept(e.payload).value.taskId in own.tasks
  }

  /** Accepts of known tasks in the transcript. */
  ghost function AcceptCount(c: Codec, transcript: seq<Envelope>): nat {
    if transcript == [] then 0
    else
      var init, e := transcript[..|transcript| - 1], transcript[|transcript| - 1];
      AcceptCount(c, init) + if AcceptsKnown(c, After(c, init).own, e) then 1 else 0
  }

  /** Times the slot went from free to held as the transcript was applied. */
  ghost function Acquisitions(c: Codec, transcript: seq<Envelope>): nat {
    if transcript == [] then 0
    else
      var init := transcript[..|transcript| - 1];
      Acquisitions(c, init)
      + if After(c, init).own.slot.None? && After(c, transcript).own.slot.Some? then 1 else 0
  }

  lemma AcceptHandled(c: Codec, own: Tasks, phase: string, e: Envelope)
    requires Handle(c, own, phase, e).Done?
    ensures var effect := Handle(c, own, phase, e);
      && (AcceptsKnown(c, own, e) <==> effect.anomaly.Some? || (own.slot.None? && effect.own.slot.Some?))
      && !(effect.anomaly.Some? && own.slot.None?)
  {
  }

  /** Accepts of known tasks are the slot's acquisitions and the reported duplicates. */
  lemma {:induction false} AcceptsAccounted(c: Codec, feed: seq<Envelope>)
    ensures var s := After(c, feed);
      AcceptCount(c, s.core.transcript) == Acquisitions(c, s.core.transcript) + |s.core.anomalies|
  {
    hide Handle, Apply, AcceptsKnown;
    if feed != [] {
      var before, e := After(c, feed[..|feed| - 1]), feed[|feed| - 1];
      AcceptsAccounted(c, feed[..|feed| - 1]);
      var after := Apply(TaskMode(c), before, e).0;
      assert After(c, feed) == after;
      if after != before {
        Effects(TaskMode(c), before, e);
        ReplayDeterminism(TaskMode(c), Initial(), feed[..|feed| - 1]);
        ReplayDeterminism(TaskMode(c), Initial(), feed);
        var t := before.core.transcript;
        assert after.core.transcript[..|t|] == t;
        if e.messageType == "Commitment" {
          CommitmentNamesNothing(c, before.own, e);
        } else {
          AcceptHandled(c, before.own, before.core.phase, e);
        }
      }
    }
  }

  // ----- audit lists

  function UpdateOf(c: Codec, e: Envelope): Option<Update> {
    if e.messageType == "TaskUpdate" then
      var p :- c.update(e.payload);
      Some(MakeUpdate(p, e.sender))
    else None
  }

  function CompletionOf(c: Codec, e: Envelope): Option<Completion> {
    if e.messageType == "TaskComplete" then
      var p :- c.complete(e.payload);
      Some(MakeCompletion(p, e.sender))
    else None
  }

  function FailureOf(c: Codec, e: Envelope): Option<Failure> {
    if e.messageType == "TaskFail" then
      var p :- c.fail(e.payload);
      Some(MakeFailure(p, e.sender))
    else None
  }

  /** The records that messages leave, field by field; an assignee that is not named is the sender. */
  lemma RecordsIff(c: Codec, own: Tasks, e: Envelope, u: Update, d: Completion, f: Failure, r: Rejection)
    ensures UpdateOf(c, e) == Some(u) <==>
      && e.messageType == "TaskUpdate" && u.sender == e.sender
      && c.update(e.payload) == Some(UpdatePayload(u.taskId, u.status, u.progress, u.message))
    ensures CompletionOf(c, e) == Some(d) <==>
      && e.messageType == "TaskComplete" && d.sender == e.sender && c.complete(e.payload).Some?
      && (var p := c.complete(e.payload).value;
          && p == CompletePayload(d.taskId, p.assignee, d.summary, d.output)
          && d.assignee == if p.assignee == "" then e.sender else p.assignee)
    ensures FailureOf(c, e) == Some(f) <==>
      && e.messageType == "TaskFail" && f.sender == e.sender && c.fail(e.payload).Some?
      && (var p := c.fail(e.payload).value;
          && p == FailPayload(f.taskId, p.assignee, f.errorCode, f.reason, f.retryable)
          && f.assignee == if p.assignee == "" then e.sender else p.assignee)
    ensures RejectionOf(c, own, e) == Some(r) <==>
      && e.messageType == "TaskReject" && r.sender == e.sender && c.reject(e.payload).Some?
      && (var p := c.reject(e.payload).value;
          && p == RejectPayload(r.taskId, p.assignee, r.reason)
          && r.assignee == if p.assignee == "" then e.sender else p.assignee)
      && r.whileAssigned == (own.slot.Some? && own.slot.value.sender == e.sender)
  {
  }

  function Updates(c: Codec, transcript: seq<Envelope>): seq<Update> {
    Collect(transcript, e => UpdateOf(c, e))
  }

  function Completions(c: Codec, transcript: seq<Envelope>): seq<Completion> {
    Collect(transcript, e => CompletionOf(c, e))
  }

  function Failures(c: Codec, transcript: seq<Envelope>): seq<Failure> {
    Collect(transcript, e => FailureOf(c, e))
  }

  lemma AuditNext(c: Codec, transcript: seq<Envelope>, e: Envelope)
    ensures Updates(c, transcript + [e]) ==
      Updates(c, transcript) + match UpdateOf(c, e) case None => [] case Some(r) => [r]
    ensures Completions(c, transcript + [e]) ==
      Completions(c, transcript) + match CompletionOf(c, e) case None => [] case Some(r) => [r]
    ensures Failures(c, transcript + [e]) ==
      Failures(c, transcript) + match FailureOf(c, e) case None => [] case Some(r) => [r]
  {
    hide Collect, UpdateOf, CompletionOf, FailureOf;
    CollectNext(transcript, e => UpdateOf(c, e), e);
    CollectNext(transcript, e => CompletionOf(c, e), e);
    CollectNext(transcript, e => FailureOf(c, e), e);
  }

  lemma AuditAdded(c: Codec, own: Tasks, phase: string, e: Envelope)
    requires e.messageType == "Commitment" || Handle(c, own, phase, e).Done?
    ensures var next := if e.messageType == "Commitment" then own else Handle(c, own, phase, e).own;
      && next.updates == own.updates + (match UpdateOf(c, e) case None => [] case Some(r) => [r])
      && next.completions == own.completions + (match CompletionOf(c, e) case None => [] case Some(r) => [r])
      && next.failures == own.failures + (match FailureOf(c, e) case None => [] case Some(r) => [r])
  {
  }

  ghost predicate KeepsAudit(c: Codec, s: State<Tasks>) {
    && s.own.updates == Updates(c, s.core.transcript)
    && s.own.completions == Completions(c, s.core.transcript)
    && s.own.failures == Failures(c, s.core.transcript)
  }

  /** Updates, completions and failures are all kept, known task or not, in order. */
  lemma {:induction false} AuditKept(c: Codec, feed: seq<Envelope>)
    ensures KeepsAudit(c, After(c, feed))
  {
    hide Handle, Apply, Updates, Completions, Failures, UpdateOf, CompletionOf, FailureOf;
    if feed == [] {
      NoAudit(c);
    } else {
      var before, e := After(c, feed[..|feed| - 1]), feed[|feed| - 1];
      AuditKept(c, feed[..|feed| - 1]);
      if Apply(TaskMode(c), before, e).0 != before {
        Effects(TaskMode(c), before, e);
        AuditAdded(c, before.own, before.core.phase, e);
        AuditNext(c, before.core.transcript, e);
      }
    }
  }

  /** The record of a reject: who it is about, and whether its sender held the slot when it came. */
  function RejectionOf(c: Codec, own: Tasks, e: Envelope): Option<Rejection> {
    if e.messageType == "TaskReject" then
      var p :- c.reject(e.payload);
      Some(Rejection(p.taskId, Or(p.assignee, e.sender), p.reason, e.sender, GivesBack(c, own, e)))
    else None
  }

  ghost function Rejections(c: Codec, transcript: seq<Envelope>): seq<Rejection> {
    if transcript == [] then []
    else
      var init, e := transcript[..|transcript| - 1], transcript[|transcript| - 1];
      Rejections(c, init) + match RejectionOf(c, After(c, init).own, e) case None => [] case Some(r) => [r]
  }

  lemma RejectionsNext(c: Codec, transcript: seq<Envelope>, e: Envelope)
    ensures Rejections(c, transcript + [e]) ==
      Rejections(c, transcript) + match RejectionOf(c, After(c, transcript).own, e) case None => [] case Some(r) => [r]
  {
    hide RejectionOf, Run;
    assert (transcript + [e])[..|transcript|] == transcript;
  }

  lemma RejectionAdded(c: Codec, own: Tasks, phase: string, e: Envelope)
    requires e.messageType == "Commitment" || Handle(c, own, phase, e).Done?
    ensures var next := if e.messageType == "Commitment" then own else Handle(c, own, phase, e).own;
      next.rejections == own.rejections + match RejectionOf(c, own, e) case None => [] case Some(r) => [r]
  {
  }

  /** Every reject is kept, with whether its sender held the slot at that point of the transcript. */
  lemma {:induction false} RejectionsKept(c: Codec, feed: seq<Envelope>)
    ensures var s := After(c, feed); s.own.rejections == Rejections(c, s.core.transcript)
  {
    hide Apply, Handle, RejectionOf, Rejections;
    if feed == [] {
      NoRejections(c);
    } else {
      var before, e := After(c, feed[..|feed| - 1]), feed[|feed| - 1];
      RejectionsKept(c, feed[..|feed| - 1]);
      if Apply(TaskMode(c), before, e).0 != before {
        Effects(TaskMode(c), before, e);
        ReplayDeterminism(TaskMode(c), Initial(), feed[..|feed| - 1]);
        RejectionAdded(c, before.own, before.core.phase, e);
        RejectionsNext(c, before.core.transcript, e);
      }
    }
  }

  lemma NoRejections(c: Codec)
    ensures Rejections(c, []) == []
  {
  }

  lemma NoAudit(c: Codec)
    ensures Updates(c, []) == [] && Completions(c, []) == [] && Failures(c, []) == []
  {
  }

  // ----- tasks, slot and phase, from the transcript

  function See(id: string): Tasks -> Option<Task> {
    (own: Tasks) => if id in own.tasks then Some(own.tasks[id]) else None
  }

  /** What a message makes of the task `id`, given what it was and who holds the slot. */
  function NextTask(c: Codec, id: string, own: Tasks, e: Envelope, t: Option<Task>): Option<Task> {
    var holds := own.slot.Some? && own.slot.value.sender == e.sender;
    match e.messageType
    case "TaskRequest" =>
      var p := c.request(e.payload);
      if p.Some? && p.value.taskId == id then
        Some(Task(id, p.value.title, p.value.instructions, p.value.requestedAssignee, e.sender, "requested", 0.0, None,
          p.value.deadlineUnixMs, p.value.input))
      else t
    case "TaskAccept" =>
      var p := c.accept(e.payload);
      if t.Some? && p.Some? && p.value.taskId == id && own.slot.None? then
        Some(t.value.(status := "accepted", assignee := Some(if p.value.assignee == "" then e.sender else p.value.assignee)))
      else t
    case "TaskReject" =>
      var p := c.reject(e.payload);
      if t.Some? && p.Some? && holds then
        var marked := if p.value.taskId == id then t.value.(status := "rejected") else t.value;
        Some(if own.slot.value.taskId == id then marked.(assignee := None) else marked)
      else t
    case "TaskUpdate" =>
      var p := c.update(e.payload);
      if t.Some? && p.Some? && p.value.taskId == id then
        Some(t.value.(status := "in_progress", progress := p.value.progress))
      else t
    case "TaskComplete" =>
      var p := c.complete(e.payload);
      if t.Some? && p.Some? && p.value.taskId == id then Some(t.value.(status := "completed", progress := 1.0)) else t
    case "TaskFail" =>
      var p := c.fail(e.payload);
      if t.Some? && p.Some? && p.value.taskId == id then Some(t.value.(status := "failed")) else t
    case _ => t
  }

  lemma RejectSeen(c: Codec, id: string, own: Tasks, e: Envelope, p: RejectPayload)
    requires e.messageType == "TaskReject" && c.reject(e.payload) == Some(p)
    ensures See(id)(HandleReject(own, e, p).own) == NextTask(c, id, own, e, See(id)(own))
  {
  }

  lemma TaskSeen(c: Codec, id: string, own: Tasks, phase: string, e: Envelope)
    requires Handle(c, own, phase, e).Done?
    ensures See(id)(Handle(c, own, phase, e).own) == NextTask(c, id, own, e, See(id)(own))
  {
    hide Discarded, MakeUpdate, MakeCompletion, MakeFailure, HandleReject;
    if e.messageType == "TaskReject" {
      RejectSeen(c, id, own, e, c.reject(e.payload).value);
    }
  }

  /** Every task is what its latest request made it and the messages since, whatever the feed. */
  lemma TasksTold(c: Codec, feed: seq<Envelope>, id: string)
    ensures var s := After(c, feed);
      See(id)(s.own) == Told(TaskMode(c), Initial(), None, (own, e, t) => NextTask(c, id, own, e, t), s.core.transcript)
  {
    hide Handle, NextTask, Run, Told;
    forall own, phase, e | Handle(c, own, phase, e).Done?
      ensures See(id)(Handle(c, own, phase, e).own) == NextTask(c, id, own, e, See(id)(own))
    {
      TaskSeen(c, id, own, phase, e);
    }
    SeenAsTold(TaskMode(c), Initial(), See(id), (own, e, t) => NextTask(c, id, own, e, t), feed);
  }

  function NextSlot(c: Codec, own: Tasks, e: Envelope, slot: Option<Slot>): Option<Slot> {
    if slot.None? then
      if e.messageType == "TaskAccept" && c.accept(e.payload).Some? && c.accept(e.payload).value.taskId in own.tasks
      then Some(Slot(e.sender, c.accept(e.payload).value.taskId))
      else None
    else if e.messageType == "TaskReject" && c.reject(e.payload).Some? && e.sender == slot.value.sender then None
    else if e.messageType == "TaskRequest" && c.request(e.payload).Some?
      && c.request(e.payload).value.taskId == slot.value.taskId then None
    else slot
  }

  lemma SlotSeen(c: Codec, own: Tasks, phase: string, e: Envelope)
    requires Handle(c, own, phase, e).Done?
    ensures Handle(c, own, phase, e).own.slot == NextSlot(c, own, e, own.slot)
  {
    hide Discarded, MakeUpdate, MakeCompletion, MakeFailure;
  }

  /** The slot is held by the sender of the accept that took it, until it is given back or its task requested anew. */
  lemma SlotTold(c: Codec, feed: seq<Envelope>)
    ensures var s := After(c, feed);
      s.own.slot == Told(TaskMode(c), Initial(), None, (own, e, slot) => NextSlot(c, own, e, slot), s.core.transcript)
  {
    hide Handle, NextSlot, Run, Told;
    forall own, phase, e | Handle(c, own, phase, e).Done?
      ensures Handle(c, own, phase, e).own.slot == NextSlot(c, own, e, own.slot)
    {
      SlotSeen(c, own, phase, e);
    }
    SeenAsTold(TaskMode(c), Initial(), (own: Tasks) => own.slot, (own, e, slot) => NextSlot(c, own, e, slot), feed);
  }

  /** The phase a message moves to: requests always, an accept that takes the slot, ends of known tasks. */
  function PhaseAsked(c: Codec, own: Tasks, e: Envelope): Option<string> {
    match e.messageType
    case "TaskRequest" => if c.request(e.payload).Some? then Some("Requested") else None
    case "TaskAccept" =>
      var p := c.accept(e.payload);
      if p.Some? && p.value.taskId in own.tasks && own.slot.None? then Some("InProgress") else None
    case "TaskComplete" =>
      var p := c.complete(e.payload);
      if p.Some? && p.value.taskId in own.tasks then Some("Completed") else None
    case "TaskFail" =>
      var p := c.fail(e.payload);
      if p.Some? && p.value.taskId in own.tasks then Some("Failed") else None
    case _ => None
  }

  lemma PhaseAskedRight(c: Codec)
    ensures AsksRight(TaskMode(c), (own, phase, e) => PhaseAsked(c, own, e)) && NeverCommits(TaskMode(c))
  {
    hide Discarded, MakeUpdate, MakeCompletion, MakeFailure, Rewritten;
  }

  /** The phase is the last one asked for, "Pending" at first, and "Committed" with a commitment. */
  lemma PhaseTold(c: Codec, feed: seq<Envelope>)
    ensures var core := After(c, feed).core;
      core.phase == if core.commitment.Some? then "Committed"
        else LastPhase(TaskMode(c), Initial(), (own, phase, e) => PhaseAsked(c, own, e), core.transcript)
    ensures Initial().core.phase == "Pending"
  {
    hide Handle, PhaseAsked, Run, LastPhase;
    PhaseAskedRight(c);
    PhaseIsLast(TaskMode(c), Initial(), (own, phase, e) => PhaseAsked(c, own, e), feed);
  }

  /** A competing accept is reported, with who holds the slot, and nothing else is. */
  lemma CompetingAcceptReported(c: Codec, s: State<Tasks>, e: Envelope)
    ensures var after := Apply(TaskMode(c), s, e).0;
      after.core.anomalies == s.core.anomalies +
        if !Ignored(TaskMode(c), s.core, e) && AcceptsKnown(c, s.own, e) && s.own.slot.Some? then
          [Anomaly("duplicate_task_accept", "macp.mode.task.v1", "TaskAccept", e.messageId, e.sender,
            c.accept(e.payload).value.taskId,
            "active assignee slot already held by " + c.repr(s.own.slot.value.sender)
            + " for task " + c.repr(s.own.slot.value.taskId)
            + "; discarded competing TaskAccept for task " + c.repr(c.accept(e.payload).value.taskId)
            + " from " + c.repr(e.sender))]
        else []
  {
    hide MakeUpdate, MakeCompletion, MakeFailure, Rewritten;
  }
}
