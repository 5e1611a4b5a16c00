/**
 * The enforcement flow as a saga over a store whose every call may fail. Models
 * packages/sdp-policy/src/enforce.ts. A failing call may have been refused, or may have taken
 * effect with its reply lost; the flow cannot tell the two apart.
 */
module PolicyEnforcement {
  import opened Wrappers
  import P = PolicyEvaluation

  datatype OperationStatus = Created | Evaluated | PendingApproval | Failed | OtherStatus(name: string)

  function StatusForDecision(d: P.Decision): OperationStatus {
    match d
    case Allow => Evaluated
    case ApprovalRequired => PendingApproval
    case ProviderApprovalRequired => PendingApproval
    case Review => PendingApproval
    case Deny => Failed
    case NotEvaluated => Failed
  }

  datatype ApprovalStatus = Pending | ApprovalFailed | Closed(name: string)

  datatype Approval = Approval(operationId: string, status: ApprovalStatus)

  datatype AuditRow = AuditRow(
    operationId: string, decision: P.Decision, matchedRules: seq<P.MatchedRule>, approvalRequestId: Option<string>)

  /** The rows the flow writes. */
  datatype State = State(
    operations: map<string, OperationStatus>, approvals: map<string, Approval>, audit: seq<AuditRow>)

  datatype Fault = Done | Refused | ReplyLost

  /** One outcome per call of the flow. */
  datatype Faults = Faults(create: Fault, load: Fault, approve: Fault, record: Fault, update: Fault, cleanup: Fault)

  /** What one enforcement is about: the operation, its evaluation, and the id an approval request would get. */
  datatype Request = Request(
    operationId: string, initial: OperationStatus, evaluation: P.Evaluation, approvalId: string)

  /** Returned; or the first failure alone; or the first failure together with the cleanup's. */
  datatype Outcome = Returned(status: OperationStatus) | NotRecorded | Threw | ThrewWithCleanupFailure

  // ----------------------------------------------------------- the store

  /** Creating an approval request returns the row already there, if there is one. */
  function WithApproval(s: State, operationId: string, approvalId: string): State {
    if approvalId in s.approvals then s else s.(approvals := s.approvals[approvalId := Approval(operationId, Pending)])
  }

  function WithStatus(s: State, operationId: string, status: OperationStatus): State {
    s.(operations := s.operations[operationId := status])
  }

  /** Failing an approval request fails its operation with it. */
  function WithFailedApproval(s: State, operationId: string, approvalId: string): State {
    s.(approvals := s.approvals[approvalId := Approval(operationId, ApprovalFailed)],
       operations := s.operations[operationId := Failed])
  }

  class Store {
    var operations: map<string, OperationStatus>
    var approvals: map<string, Approval>
    var audit: seq<AuditRow>

    ghost function Rows(): State
      reads this
    {
      State(operations, approvals, audit)
    }

    method CreateWalletOperation(id: string, status: OperationStatus, fault: Fault) returns (ok: bool)
      modifies this
      ensures ok == (fault == Done)
      ensures Rows() == if fault == Refused then old(Rows()) else WithStatus(old(Rows()), id, status)
    {
      if fault != Refused { operations := operations[id := status]; }
      return fault == Done;
    }

    method CreateApprovalRequest(
      operationId: string, approvalId: string, fault: Fault) returns (reply: Option<ApprovalStatus>)
      modifies this
      ensures Rows() == if fault == Refused then old(Rows()) else WithApproval(old(Rows()), operationId, approvalId)
      ensures reply == if fault == Done then Some(approvals[approvalId].status) else None
    {
      if fault != Refused && approvalId !in approvals {
        approvals := approvals[approvalId := Approval(operationId, Pending)];
      }
      return if fault == Done then Some(approvals[approvalId].status) else None;
    }

    method RecordPolicyEvaluation(row: AuditRow, fault: Fault) returns (ok: bool)
      modifies this
      ensures ok == (fault == Done)
      ensures Rows() == if fault == Refused then old(Rows()) else old(Rows()).(audit := old(audit) + [row])
    {
      if fault != Refused { audit := audit + [row]; }
      return fault == Done;
    }

    method UpdateWalletOperationStatus(id: string, status: OperationStatus, fault: Fault) returns (ok: bool)
      modifies this
      ensures ok == (fault == Done)
      ensures Rows() == if fault == Refused then old(Rows()) else WithStatus(old(Rows()), id, status)
    {
      if fault != Refused { operations := operations[id := status]; }
      return fault == Done;
    }

    method FailApprovalRequest(operationId: string, approvalId: string, fault: Fault) returns (ok: bool)
      modifies this
      ensures ok == (fault == Done)
      ensures Rows() == if fault == Refused then old(Rows())
              else WithFailedApproval(old(Rows()), operationId, approvalId)
    {
      if fault != Refused {
        approvals := approvals[approvalId := Approval(operationId, ApprovalFailed)];
        operations := operations[operationId := Failed];
      }
      return fault == Done;
    }
  }

  // ------------------------------------------------------------- the flow

  predicate Pauses(r: Request) {
    StatusForDecision(r.evaluation.decision) == PendingApproval
  }

  /** A new approval request is written, whether or not its reply arrives. */
  predicate CreatesApproval(s: State, r: Request, faults: Faults) {
    faults.load == Done && Pauses(r) && faults.approve != Refused && r.approvalId !in s.approvals
  }

  /** The flow learns the id of an approval request that is open. */
  predicate KnowsApproval(s: State, r: Request, faults: Faults) {
    && faults.load == Done && Pauses(r) && faults.approve == Done
    && (r.approvalId in s.approvals ==> s.approvals[r.approvalId].status == Pending)
  }

  /** The flow gets as far as recording its evaluation. */
  predicate Records(s: State, r: Request, faults: Faults) {
    faults.load == Done && (Pauses(r) ==> KnowsApproval(s, r, faults))
  }

  /** The status its decision maps to is written, whether or not the reply arrives. */
  predicate WritesStatus(s: State, r: Request, faults: Faults) {
    Records(s, r, faults) && faults.record == Done && faults.update != Refused
  }

  function KnownApproval(s: State, r: Request, faults: Faults): Option<string> {
    if KnowsApproval(s, r, faults) then Some(r.approvalId) else None
  }

  /** The rows the try block leaves, table by table. */
  function Tried(s: State, r: Request, faults: Faults): State {
    State(
      if WritesStatus(s, r, faults)
      then s.operations[r.operationId := StatusForDecision(r.evaluation.decision)]
      else s.operations,
      if CreatesApproval(s, r, faults)
      then s.approvals[r.approvalId := Approval(r.operationId, Pending)]
      else s.approvals,
      s.audit + if Records(s, r, faults) && faults.record != Refused
                then [AuditRow(r.operationId, r.evaluation.decision, r.evaluation.matchedRules,
                               KnownApproval(s, r, faults))]
                else [])
  }

  /** The try block: it gets through exactly when every call is answered, and knows an id exactly when one is open. */
  method TryEnforce(store: Store, r: Request, faults: Faults) returns (ok: bool, approvalRequestId: Option<string>)
    modifies store
    ensures store.Rows() == Tried(old(store.Rows()), r, faults)
    ensures ok <==> WritesStatus(old(store.Rows()), r, faults) && faults.update == Done
    ensures approvalRequestId == KnownApproval(old(store.Rows()), r, faults)
  {
    approvalRequestId := None;
    if faults.load != Done { return false, None; }
    var status := StatusForDecision(r.evaluation.decision);
    if status == PendingApproval {
      var approval := store.CreateApprovalRequest(r.operationId, r.approvalId, faults.approve);
      if approval.None? { return false, None; }
      if approval.value != Pending { return false, None; }
      approvalRequestId := Some(r.approvalId);
    }
    var row := AuditRow(r.operationId, r.evaluation.decision, r.evaluation.matchedRules, approvalRequestId);
    var recorded := store.RecordPolicyEvaluation(row, faults.record);
    if !recorded { return false, approvalRequestId; }
    var updated := store.UpdateWalletOperationStatus(r.operationId, status, faults.update);
    return updated, approvalRequestId;
  }

  /** The whole flow: record the operation, try, and on a failure mark what was written as failed. */
  method EnforceWalletOperationPolicy(store: Store, r: Request, faults: Faults) returns (outcome: Outcome)
    modifies store
    ensures (store.Rows(), outcome) == EnforceSpec(old(store.Rows()), r, faults)
  {
    var created := store.CreateWalletOperation(r.operationId, r.initial, faults.create);
    if !created { return NotRecorded; }
    var ok, approvalRequestId := TryEnforce(store, r, faults);
    if ok { return Returned(StatusForDecision(r.evaluation.decision)); }
    var cleaned: bool;
    if approvalRequestId.Some? {
      cleaned := store.FailApprovalRequest(r.operationId, approvalRequestId.value, faults.cleanup);
    } else {
      cleaned := store.UpdateWalletOperationStatus(r.operationId, Failed, faults.cleanup);
    }
    return if cleaned then Threw else ThrewWithCleanupFailure;
  }

  function EnforceSpec(s: State, r: Request, faults: Faults): (State, Outcome) {
    var created := if faults.create == Refused then s else WithStatus(s, r.operationId, r.initial);
    if faults.create != Done then (created, NotRecorded)
    else
      var tried := Tried(created, r, faults);
      if WritesStatus(created, r, faults) && faults.update == Done
      then (tried, Returned(StatusForDecision(r.evaluation.decision)))
      else
        (if faults.cleanup == Refused then tried
         else if KnowsApproval(created, r, faults) then WithFailedApproval(tried, r.operationId, r.approvalId)
         else WithStatus(tried, r.operationId, Failed),
         if faults.cleanup == Done then Threw else ThrewWithCleanupFailure)
  }

  // --------------------------------------------------------- the theorems

  /** The store keeps one approval request per operation. */
  ghost predicate OwnApproval(s: State, r: Request) {
    r.approvalId in s.approvals ==> s.approvals[r.approvalId].operationId == r.operationId
  }

  /** The approval request of this operation is still open. */
  ghost predicate ApprovalOpen(s: State, r: Request) {
    r.approvalId in s.approvals && s.approvals[r.approvalId].status == Pending
  }

  /**
   * A normal return, under any faults: the operation has the status its decision maps to, exactly
   * one audit row was added, linked to an open approval request of this operation exactly when the
   * decision pauses it, and no other row changed.
   */
  lemma ReturnIsConsistent(s: State, r: Request, faults: Faults)
    requires OwnApproval(s, r) && EnforceSpec(s, r, faults).1.Returned?
    ensures var d := r.evaluation.decision;
            var paused := d in {P.ApprovalRequired, P.ProviderApprovalRequired, P.Review};
            var after := EnforceSpec(s, r, faults).0;
            && after.operations == s.operations[r.operationId := StatusForDecision(d)]
            && after.audit == s.audit + [AuditRow(r.operationId, d, r.evaluation.matchedRules,
                                                  if paused then Some(r.approvalId) else None)]
            && (paused ==>
                 r.approvalId in after.approvals && after.approvals[r.approvalId] == Approval(r.operationId, Pending))
            && (forall a :: a in after.approvals && (a != r.approvalId || !paused) ==>
                 a in s.approvals && after.approvals[a] == s.approvals[a])
            && s.approvals.Keys <= after.approvals.Keys
  {
    var created := WithStatus(s, r.operationId, r.initial);
    var status := StatusForDecision(r.evaluation.decision);
    assert created.operations[r.operationId := status] == s.operations[r.operationId := status];
  }

  /** The flow returns normally exactly when every call it makes is answered and its approval request is open. */
  lemma ReturnsExactlyWhenAnswered(s: State, r: Request, faults: Faults)
    ensures var paused := StatusForDecision(r.evaluation.decision) == PendingApproval;
            EnforceSpec(s, r, faults).1.Returned? <==>
            && faults.create == Done && faults.load == Done && faults.record == Done && faults.update == Done
            && (paused ==> faults.approve == Done && (r.approvalId in s.approvals ==> ApprovalOpen(s, r)))
  {
  }

  /**
   * An operation ends "evaluated", whatever fails, only for an allow decision, or because its caller
   * recorded it so or it was so before and recording it was refused.
   */
  lemma EvaluatedMeansAllowed(s: State, r: Request, faults: Faults)
    ensures var after := EnforceSpec(s, r, faults).0;
            r.operationId in after.operations && after.operations[r.operationId] == Evaluated ==>
              || r.evaluation.decision == P.Allow
              || (faults.create != Refused && r.initial == Evaluated)
              || (faults.create == Refused && r.operationId in s.operations && s.operations[r.operationId] == Evaluated)
  {
  }

  /** Another operation's rows are never touched. */
  lemma OtherRowsKept(s: State, r: Request, faults: Faults, id: string)
    requires id != r.operationId && id in s.operations
    ensures var after := EnforceSpec(s, r, faults).0;
            && id in after.operations && after.operations[id] == s.operations[id]
            && s.audit <= after.audit
  {
  }

  /** Cleanup took effect, whether or not its reply arrived. */
  predicate CleanedUp(faults: Faults) {
    faults.cleanup != Refused
  }

  /**
   * What a failure after the operation was recorded leaves, for every decision, every initial
   * status and every approval request on file. The operation is failed if cleanup took effect,
   * and otherwise has its decision's status if that was written, and its initial one if not. The
   * approval request is open if it was open or is new, unless cleanup took effect and knew of it.
   * Both errors surface exactly when cleanup failed.
   */
  lemma FailureLeaves(s: State, r: Request, faults: Faults)
    requires faults.create == Done && !EnforceSpec(s, r, faults).1.Returned?
    ensures var after := EnforceSpec(s, r, faults).0;
            && r.operationId in after.operations
            && after.operations[r.operationId] ==
               (if CleanedUp(faults) then Failed
                else if WritesStatus(s, r, faults) then StatusForDecision(r.evaluation.decision)
                else r.initial)
            && (ApprovalOpen(after, r) <==>
                  && (ApprovalOpen(s, r) || CreatesApproval(s, r, faults))
                  && !(CleanedUp(faults) && KnowsApproval(s, r, faults)))
            && (forall a :: a in s.approvals && a != r.approvalId ==>
                 a in after.approvals && after.approvals[a] == s.approvals[a])
    ensures EnforceSpec(s, r, faults).1.ThrewWithCleanupFailure? <==> faults.cleanup != Done
  {
  }

  /**
   * So everything ends failed if and only if the operation does and the approval request, if one
   * is open or new, was closed by a cleanup that knew of it.
   */
  lemma FailureLeavesRowsFailed(s: State, r: Request, faults: Faults)
    requires faults.create == Done && !EnforceSpec(s, r, faults).1.Returned?
    ensures var after := EnforceSpec(s, r, faults).0;
            (r.operationId in after.operations && after.operations[r.operationId] == Failed && !ApprovalOpen(after, r))
            <==> && (CleanedUp(faults)
                     || (if WritesStatus(s, r, faults)
                          then StatusForDecision(r.evaluation.decision) else r.initial) == Failed)
                 && (ApprovalOpen(s, r) || CreatesApproval(s, r, faults) ==>
                      CleanedUp(faults) && KnowsApproval(s, r, faults))
  {
    FailureLeaves(s, r, faults);
  }

  /**
   * The orphan: the reply to creating an approval request is lost, cleanup succeeds, and the
   * request stays open. With a cleanup that took effect, a new request stays open in this way alone.
   */
  lemma LostApprovalReplyLeavesItOpen(s: State, r: Request, faults: Faults)
    requires faults.create == Done && CleanedUp(faults) && CreatesApproval(s, r, faults)
    requires !EnforceSpec(s, r, faults).1.Returned?
    ensures var after := EnforceSpec(s, r, faults).0;
            && after.operations[r.operationId] == Failed
            && (ApprovalOpen(after, r) <==> faults.approve == ReplyLost)
  {
    FailureLeaves(s, r, faults);
  }

  /** Enforcing the evaluation of PolicyEvaluation: a deny in any scope or leg never leaves the operation executable. */
  lemma DenyNeverEvaluated(
    s: State, r: Request, faults: Faults, eval: P.Evaluator, candidate: P.Candidate, legs: seq<P.Candidate>,
                           wallet: P.Policy, apiKey: Option<P.Policy>)
    requires r.evaluation == P.EvaluateCandidate(eval, candidate, legs, wallet, apiKey)
    requires r.initial != Evaluated && r.operationId !in s.operations
    requires || (wallet.revision.Some? && P.Contributes(eval, wallet.revision.value.rules, candidate, legs, P.Deny))
             || (apiKey.Some? && apiKey.value.revision.Some?
                 && P.Contributes(eval, apiKey.value.revision.value.rules, candidate, legs, P.Deny))
    ensures var after := EnforceSpec(s, r, faults).0;
            && (r.operationId in after.operations ==> after.operations[r.operationId] in {r.initial, Failed})
            && (EnforceSpec(s, r, faults).1.Returned? ==> after.operations[r.operationId] == Failed)
  {
    P.AnyDenyDenies(eval, candidate, legs, wallet, apiKey);
  }
}
