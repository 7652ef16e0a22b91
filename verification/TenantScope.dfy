/**
 The tenant middleware (src/prisma/prisma-tenant.extension.ts): every call to the database client
 passes through it, and it rewrites the arguments of the call in place so that they name the tenant
 of the current request.
 */
module TenantScope {
  import opened Outcomes

  // ---- Calls --------------------------------------------------------------------------

  datatype Value = Null | Number(n: int) | Text(s: string)

  type Row = map<string, Value>

  /** A condition on a column, or on the whole row: `Holds` stands for AND, OR, NOT and the like. */
  datatype Condition = Equals(value: Value) | Holds(p: Row -> bool)

  /** What a column is set to: a value, or something computed from the row, such as an increment. */
  datatype Assignment = Put(value: Value) | Compute(f: Row -> Value)

  type Where = map<string, Condition>

  type Fields = map<string, Assignment>

  /** The `data` argument. `NotAnObject` is anything that is neither an object nor an array. */
  datatype Data = NotAnObject | Object(fields: Fields) | Array(items: seq<Data>)

  datatype Args = Args(where: Option<Where>, data: Data, create: Option<Fields>, update: Fields)

  datatype Action =
    | FindUnique | FindUniqueOrThrow | FindFirst | FindFirstOrThrow | FindMany | Count | Aggregate | GroupBy
    | Create | CreateMany | Update | UpdateMany | Delete | DeleteMany | Upsert
    | OtherAction(name: string)

  predicate IsRead(action: Action) {
    action in {FindUnique, FindUniqueOrThrow, FindFirst, FindFirstOrThrow, FindMany, Count, Aggregate, GroupBy}
  }

  predicate IsCreate(action: Action) {
    action == Create || action == CreateMany
  }

  predicate IsUpdate(action: Action) {
    action == Update || action == UpdateMany
  }

  predicate IsDelete(action: Action) {
    action == Delete || action == DeleteMany
  }

  datatype Request = Request(model: Option<string>, action: Action, args: Option<Args>)

  datatype Error = UnknownModel | AuditLogIsAppendOnly

  // ---- Models -------------------------------------------------------------------------

  const TENANT_SCOPED_MODELS: set<string> := {
    "TenantCounter", "User", "AuditLog", "PinVerification", "AuditEvent", "AuditChainHead", "AuditArchiveManifest",
    "Member", "Document", "Account", "AccountTypePolicy", "LoanProduct", "Loan", "LoanGuarantor", "Transaction",
    "MpesaTransaction", "MpesaPayoutIntent", "LoanApprovalChain", "LoginSession", "WebhookSubscription",
    "IntegrationOutbox", "CrbReport", "AmlScreening", "ProvisioningEntry", "DsarRequest", "SasraRatioSnapshot",
    "CbkReturn", "ApiClient", "NotificationLog", "NotificationPreference", "ComplianceAlert", "RiskScore",
    "FeatureSnapshot", "TenantRegionConfig", "FailedLoginAttempt", "BlockedIP", "DataAccessLog", "ConsentRegistry",
    "ErasureRequest", "Partner", "SlaIncident", "ExecutiveReport", "ReportJob", "MemberApplication", "Stage",
    "LoanRepayment", "SavingsRecord", "GroupWelfare", "GroupWelfareCollection", "DataImportLog", "KYCRequirement",
    "SupportTicket", "TicketMessage", "TicketAttachment", "Incident", "InAppNotification", "GLAccount", "JournalEntry"}

  const TENANT_EXEMPT_MODELS: set<string> := {
    "Tenant", "WebhookDelivery", "FeatureFlag", "CanaryDeployment", "PartnerUsageSnapshot", "County", "Constituency",
    "Ward", "StageAssignment", "MemberStage", "RefreshSession", "DataConsent", "GLPosting"}

  predicate IsTenantScopedModel(model: Option<string>) {
    model.Some? && model.value in TENANT_SCOPED_MODELS
  }

  /** A call without a model, such as raw SQL, is let through. */
  predicate IsKnownModel(model: Option<string>) {
    model.Some? && model.value != "" ==> model.value in TENANT_SCOPED_MODELS || model.value in TENANT_EXEMPT_MODELS
  }

  // ---- The rewritten arguments --------------------------------------------------------

  const TENANT_ID := "tenantId"

  function ScopedWhere(where: Option<Where>, tenantId: string): Where {
    (if where.Some? then where.value else map[])[TENANT_ID := Equals(Text(tenantId))]
  }

  function Stamped(fields: Fields, tenantId: string): Fields {
    fields[TENANT_ID := Put(Text(tenantId))]
  }

  function AddTenantToData(data: Data, tenantId: string): Data
    decreases data
  {
    match data
    case NotAnObject => Object(map[TENANT_ID := Put(Text(tenantId))])
    case Object(fields) => Object(Stamped(fields, tenantId))
    case Array(items) => Array(seq(|items|, i requires 0 <= i < |items| => AddTenantToData(items[i], tenantId)))
  }

  function ScopedArgs(action: Action, args: Args, tenantId: string): Args {
    if IsRead(action) || IsUpdate(action) || IsDelete(action) then
      args.(where := Some(ScopedWhere(args.where, tenantId)))
    else if IsCreate(action) then
      args.(data := AddTenantToData(args.data, tenantId))
    else if action == Upsert then
      args.(where := Some(ScopedWhere(args.where, tenantId)),
            create := Some(Stamped(if args.create.Some? then args.create.value else map[], tenantId)))
    else args
  }

  const NO_ARGS := Args(None, NotAnObject, None, map[])

  /** What reaches the database for a request made in the context of `store`. */
  function Scope(request: Request, store: Option<string>): Result<Request, Error> {
    if !IsKnownModel(request.model) then Failure(UnknownModel)
    else if request.model == Some("AuditLog") && (IsUpdate(request.action) || IsDelete(request.action)) then
      Failure(AuditLogIsAppendOnly)
    else if !IsTenantScopedModel(request.model) || store.None? || store.value == "" then Success(request)
    else
      var args := if request.args.Some? then request.args.value else NO_ARGS;
      Success(request.(args := Some(ScopedArgs(request.action, args, store.value))))
  }

  /** Exactly which requests are refused: those of an unclassified model, and changes to the audit log. */
  lemma ScopeRefusesIff(request: Request, store: Option<string>)
    ensures Scope(request, store).Failure? <==>
      && request.model.Some?
      && ((request.model.value != "" && request.model.value !in TENANT_SCOPED_MODELS + TENANT_EXEMPT_MODELS)
          || (request.model.value == "AuditLog" && request.action in {Update, UpdateMany, Delete, DeleteMany}))
  {
  }

  /** A request that is not of a tenant's model, or that no tenant makes, is let through as it is. */
  lemma UnscopedPasses(request: Request, store: Option<string>)
    requires Scope(request, store).Success?
    requires request.model == None || request.model.value !in TENANT_SCOPED_MODELS || store == None || store == Some("")
    ensures Scope(request, store).value == request
  {
  }

  // ---- The middleware -----------------------------------------------------------------

  class MiddlewareParams {
    var model: Option<string>
    var action: Action
    var args: Option<Args>

    constructor (request: Request)
      ensures Params() == request
    {
      model, action, args := request.model, request.action, request.args;
    }

    ghost function Params(): Request
      reads this
    {
      Request(model, action, args)
    }

    method GetArgs() returns (current: Args)
      modifies this`args
      ensures current == if old(args).Some? then old(args).value else NO_ARGS
      ensures args == Some(current)
    {
      if args.None? {
        args := Some(NO_ARGS);
      }
      current := args.value;
    }

    method AddTenantToWhere(tenantId: string)
      requires args.Some?
      modifies this`args
      ensures args == Some(old(args).value.(where := Some(ScopedWhere(old(args).value.where, tenantId))))
    {
      var where := if args.value.where.Some? then args.value.where.value else map[];
      args := Some(args.value.(where := Some(where[TENANT_ID := Equals(Text(tenantId))])));
    }

    method EnforceAuditLogAppendOnly() returns (allowed: bool)
      ensures allowed <==> !(model == Some("AuditLog") && (IsUpdate(action) || IsDelete(action)))
    {
      if model != Some("AuditLog") {
        return true;
      }
      return !IsUpdate(action) && !IsDelete(action);
    }

    method ApplyTenantScope(store: Option<string>) returns (error: Option<Error>)
      modifies this`args
      ensures match Scope(old(Params()), store)
        case Success(request) => error == None && Params() == request
        case Failure(e) => error == Some(e) && Params() == old(Params())
    {
      if !IsKnownModel(model) {
        return Some(UnknownModel);
      }
      var allowed := EnforceAuditLogAppendOnly();
      if !allowed {
        return Some(AuditLogIsAppendOnly);
      }
      if !IsTenantScopedModel(model) || store.None? || store.value == "" {
        return None;
      }
      var tenantId := store.value;
      var current := GetArgs();
      if IsRead(action) {
        AddTenantToWhere(tenantId);
        return None;
      }
      if IsCreate(action) {
        args := Some(current.(data := AddTenantToData(current.data, tenantId)));
        return None;
      }
      if IsUpdate(action) || IsDelete(action) {
        AddTenantToWhere(tenantId);
        return None;
      }
      if action == Upsert {
        AddTenantToWhere(tenantId);
        var create := if current.create.Some? then current.create.value else map[];
        args := Some(args.value.(create := Some(create[TENANT_ID := Put(Text(tenantId))])));
      }
      return None;
    }
  }
}
