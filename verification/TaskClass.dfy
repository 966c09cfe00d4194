/** The Task projection as the object it is: its fields updated in place. */
module TaskClass {
  import opened Basics
  import opened Projection
  import opened TaskModel

  class TaskProjection {
    const base: BaseProjection
    const codec: Codec
    var tasks: map<string, Task>
    var updates: seq<Update>
    var rejections: seq<Rejection>
    var completions: seq<Completion>
    var failures: seq<Failure>
    var activeAssignment: Option<Slot>

    function Own(): Tasks
      reads this
    {
      Tasks(tasks, updates, rejections, completions, failures, activeAssignment)
    }

    function Model(): State<Tasks>
      reads this, base
    {
      State(base.Fields(), Own())
    }

    ghost predicate Valid() { base.mode == MODE_TASK && base.parseCommitment == codec.commitment }

    constructor (codec: Codec)
      ensures Valid() && fresh(base) && this.codec == codec && Model() == Initial()
    {
      this.codec := codec;
      base := new BaseProjection(MODE_TASK, codec.commitment, "Pending");
      tasks, activeAssignment := map[], None;
      updates, rejections, completions, failures := [], [], [], [];
    }

    method ApplyEnvelope(e: Envelope) returns (raised: bool)
      requires Valid()
      modifies this, base
      ensures (Model(), raised) == Apply(TaskMode(codec), old(Model()), e)
    {
      var proceed := base.Enter(e);
      if !proceed {
        return false;
      }
      if e.messageType == "Commitment" {
        raised := base.TakeCommitment(e);
      } else {
        raised := ApplyModeMessage(e);
      }
      if raised {
        base.Undo(e);
      }
    }

    /** Parses before it changes anything. */
    method ApplyModeMessage(e: Envelope) returns (raised: bool)
      requires Valid()
      modifies this, base
      ensures match Handle(codec, old(Own()), old(base.phase), e)
        case Raised => raised && Model() == old(Model())
        case Done(own, phase, anomaly) =>
          && !raised && Own() == own
          && base.Fields() == old(base.Fields()).(
            phase := SetPhase(old(base.phase), phase),
            anomalies := old(base.anomalies) + if anomaly.Some? then [anomaly.value] else [])
    {
      hide HandleRequest, HandleAccept, HandleReject, HandleUpdate, HandleComplete, HandleFail;
      raised := false;
      if e.messageType == "TaskRequest" {
        var payload := codec.request(e.payload);
        if payload.None? {
          return true;
        }
        Request(e, payload.value);
      } else if e.messageType == "TaskAccept" {
        var payload := codec.accept(e.payload);
        if payload.None? {
          return true;
        }
        Accept(e, payload.value);
      } else if e.messageType == "TaskReject" {
        var payload := codec.reject(e.payload);
        if payload.None? {
          return true;
        }
        Reject(e, payload.value);
      } else if e.messageType == "TaskUpdate" {
        var payload := codec.update(e.payload);
        if payload.None? {
          return true;
        }
        Progress(e, payload.value);
      } else if e.messageType == "TaskComplete" {
        var payload := codec.complete(e.payload);
        if payload.None? {
          return true;
        }
        Complete(e, payload.value);
      } else if e.messageType == "TaskFail" {
        var payload := codec.fail(e.payload);
        if payload.None? {
          return true;
        }
        Fail(e, payload.value);
      }
    }

    twostate predicate Did(effect: Effect<Tasks>)
      reads this, base
    {
      && effect.Done? && Own() == effect.own
      && base.Fields() == old(base.Fields()).(
        phase := SetPhase(old(base.phase), effect.phase),
        anomalies := old(base.anomalies) + if effect.anomaly.Some? then [effect.anomaly.value] else [])
    }

    method Request(e: Envelope, p: RequestPayload)
      requires Valid()
      modifies this, base
      ensures Did(HandleRequest(old(Own()), e, p))
    {
      tasks := tasks[p.taskId := Task(p.taskId, p.title, p.instructions, p.requestedAssignee, e.sender,
                                      "requested", 0.0, None, p.deadlineUnixMs, p.input)];
      if activeAssignment.Some? && activeAssignment.value.taskId == p.taskId {
        activeAssignment := None;
      }
      base.AssignPhase("Requested");
    }

    method Accept(e: Envelope, p: AcceptPayload)
      requires Valid()
      modifies this, base
      ensures Did(HandleAccept(codec, old(Own()), e, p))
    {
      if p.taskId in tasks {
        if activeAssignment.None? {
          var assignee := if p.assignee != "" then p.assignee else e.sender;
          activeAssignment := Some(Slot(e.sender, p.taskId));
          tasks := tasks[p.taskId := tasks[p.taskId].(assignee := Some(assignee))];
          tasks := tasks[p.taskId := tasks[p.taskId].(status := "accepted")];
          base.AssignPhase("InProgress");
        } else {
          var held := activeAssignment.value;
          base.RecordAnomaly(DUPLICATE_TASK_ACCEPT, e, p.taskId,
            "active assignee slot already held by " + codec.repr(held.sender) + " for task " + codec.repr(held.taskId)
            + "; discarded competing TaskAccept for task " + codec.repr(p.taskId) + " from " + codec.repr(e.sender));
        }
      }
    }

    method Reject(e: Envelope, p: RejectPayload)
      requires Valid()
      modifies this, base
      ensures Did(HandleReject(old(Own()), e, p))
    {
      var slot := activeAssignment;
      var whileAssigned := slot.Some? && slot.value.sender == e.sender;
      var assignee := if p.assignee != "" then p.assignee else e.sender;
      rejections := rejections + [Rejection(p.taskId, assignee, p.reason, e.sender, whileAssigned)];
      if whileAssigned && p.taskId in tasks {
        tasks := tasks[p.taskId := tasks[p.taskId].(status := "rejected")];
      }
      if whileAssigned {
        if slot.value.taskId in tasks {
          tasks := tasks[slot.value.taskId := tasks[slot.value.taskId].(assignee := None)];
        }
        activeAssignment := None;
      }
    }

    method Progress(e: Envelope, p: UpdatePayload)
      requires Valid()
      modifies this, base
      ensures Did(HandleUpdate(old(Own()), e, p))
    {
      updates := updates + [Update(p.taskId, p.status, p.progress, p.message, e.sender)];
      if p.taskId in tasks {
        tasks := tasks[p.taskId := tasks[p.taskId].(status := "in_progress")];
        tasks := tasks[p.taskId := tasks[p.taskId].(progress := p.progress)];
      }
    }

    method Complete(e: Envelope, p: CompletePayload)
      requires Valid()
      modifies this, base
      ensures Did(HandleComplete(old(Own()), e, p))
    {
      var assignee := if p.assignee != "" then p.assignee else e.sender;
      completions := completions + [Completion(p.taskId, assignee, p.summary, p.output, e.sender)];
      if p.taskId in tasks {
        tasks := tasks[p.taskId := tasks[p.taskId].(status := "completed")];
        tasks := tasks[p.taskId := tasks[p.taskId].(progress := 1.0)];
        base.AssignPhase("Completed");
      }
    }

    method Fail(e: Envelope, p: FailPayload)
      requires Valid()
      modifies this, base
      ensures Did(HandleFail(old(Own()), e, p))
    {
      var assignee := if p.assignee != "" then p.assignee else e.sender;
      failures := failures + [Failure(p.taskId, assignee, p.errorCode, p.reason, p.retryable, e.sender)];
      if p.taskId in tasks {
        tasks := tasks[p.taskId := tasks[p.taskId].(status := "failed")];
        base.AssignPhase("Failed");
      }
    }
  }
}
