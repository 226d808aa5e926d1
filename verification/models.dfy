/** Record types and closed enumerations shared by the scheduler, the
    lifecycle machine and the policy validator (src/codex_agent/core/models.py).
    Timestamps are naturals supplied by the caller; the clock is not modelled. */
module Models {
  import opened Outcomes

  /** The nine phases of the delivery lifecycle. */
  datatype LifecycleState =
    | Idle | Planning | Scaffolding | Building | Verifying
    | Deploying | Observing | Maintaining | Failed

  datatype TaskType = Scaffold | Implement | Test | Refactor | Deploy | Maintain | Document

  datatype TaskStatus = Pending | Running | Completed | Failed | Blocked | Skipped

  datatype PolicyType = Security | Quality | Safety | Compliance

  datatype PolicySeverity = Info | Warning | Error | Critical

  datatype EventType =
    | StateChange | TaskCreated | TaskStarted | TaskCompleted | TaskFailed
    | PolicyViolationEvent | LlmCall | Deployment | ErrorEvent

  /** A unit of schedulable work. Dependencies are task ids, not tasks. */
  datatype Task = Task(
    id: string,
    taskType: TaskType,
    title: string,
    description: string,
    dependencies: seq<string>,
    status: TaskStatus,
    priority: int,
    estimatedComplexity: int,
    targetFiles: seq<string>,
    createdAt: nat,
    startedAt: Option<nat>,
    completedAt: Option<nat>,
    attempts: int,
    lastError: Option<string>)

  /** Field constraints the record validator enforces on construction. */
  datatype FieldError = ComplexityOutOfRange(value: int)

  const DefaultPriority: int := 100
  const DefaultComplexity: int := 3

  /** Bounds on `estimated_complexity` (the field is declared `ge=1, le=5`). */
  predicate ComplexityInRange(c: int)
  {
    1 <= c <= 5
  }

  /** Constructs a task the way the record's defaults do: pending, priority
      100, complexity 3, no attempts, no error. Rejects a complexity outside 1..5. */
  function NewTask(id: string, taskType: TaskType, title: string, description: string,
                   dependencies: seq<string>, priority: int, complexity: int,
                   createdAt: nat): (r: Result<Task, FieldError>)
    ensures r.Ok? <==> 1 <= complexity <= 5
    ensures r.Err? ==> r.error == ComplexityOutOfRange(complexity)
    ensures r.Ok? ==> var t := r.value;
      && t.id == id && t.taskType == taskType && t.title == title && t.description == description
      && t.dependencies == dependencies && t.priority == priority && t.estimatedComplexity == complexity
      && t.createdAt == createdAt
      && t.status == Pending && t.attempts == 0 && t.lastError == None
      && t.startedAt == None && t.completedAt == None && t.targetFiles == []
  {
    if !ComplexityInRange(complexity) then Err(ComplexityOutOfRange(complexity))
    else Ok(Task(id, taskType, title, description, dependencies, Pending, priority, complexity,
                 [], createdAt, None, None, 0, None))
  }

  /** A task built from defaults only: the defaults themselves pass validation. */
  function DefaultTask(id: string, taskType: TaskType, title: string, description: string,
                       createdAt: nat): (t: Task)
    ensures t.status == Pending && t.priority == 100 && t.attempts == 0
    ensures t.dependencies == [] && t.lastError == None
    ensures ComplexityInRange(t.estimatedComplexity)
  {
    NewTask(id, taskType, title, description, [], DefaultPriority, DefaultComplexity, createdAt).value
  }

  /** One recorded change of lifecycle phase. */
  datatype StateTransition = StateTransition(
    fromState: LifecycleState,
    toState: LifecycleState,
    trigger: string,
    timestamp: nat)

  /** The structured `context` a violation carries; the rendered message text
      is display formatting and is not modelled. */
  datatype ViolationDetail =
    | CoverageBelow(coverage: int, minimum: int)
    | TooManyFiles(fileCount: nat, max: int)
    | DiffTooLarge(diffLines: int, max: int)
    | ProhibitedFile(file: string)
    | SecretFound(file: string, pattern: string, secret: string)

  datatype PolicyViolation = PolicyViolation(
    policyType: PolicyType,
    policyName: string,
    severity: PolicySeverity,
    detail: ViolationDetail,
    blocking: bool)

  /** A violation with the record's default `blocking = True`. */
  function DefaultViolation(policyType: PolicyType, policyName: string,
                            severity: PolicySeverity, detail: ViolationDetail): (v: PolicyViolation)
    ensures v.blocking
    ensures v.policyType == policyType && v.policyName == policyName
    ensures v.severity == severity && v.detail == detail
  {
    PolicyViolation(policyType, policyName, severity, detail, true)
  }

  /** An audit-log record. Its generated id, timestamp and free-form
      `event_data` are not modelled. */
  datatype AuditEvent = AuditEvent(
    eventType: EventType,
    actor: string,
    state: Option<LifecycleState>,
    taskId: Option<string>)
}
