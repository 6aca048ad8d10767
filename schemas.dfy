/**
 * Request shapes and parameter validation of the job-application service:
 * the fixed enum sets, the field constraints of the create and update
 * payloads, and the list/export query parameters with their enum check.
 */
module Schemas {
  import opened Common

  const EMPLOYMENT_TYPES: set<string> := {"full-time", "contract", "intern"}
  const STAGES: set<string> := {"wishlist", "applied", "oa", "phone", "onsite", "offer", "rejected", "ghosted"}
  const STATUSES: set<string> := {"active", "closed"}
  /** The only columns a listing may be sorted by. */
  const ORDER_COLUMNS: set<string> := {"created_at", "updated_at", "next_action_date"}
  const ORDER_DIRECTIONS: set<string> := {"asc", "desc"}

  /** Length cap of company, role, location and source. */
  const MAX_TEXT: nat := 200
  const DEFAULT_PAGE: int := 1
  const DEFAULT_PAGE_SIZE: int := 20
  const MAX_PAGE_SIZE: int := 100

  /** One JSON field of a request body: left out, sent as null, or sent with a value. */
  datatype Field<+T> = Absent | Null | Given(value: T) {
    /** What the parsed model holds: absent and null both read as None. */
    function Value(): Option<T>
    {
      if Given? then Some(value) else None
    }
  }

  /**
   * A create or update body. Links and dates are kept as the text the
   * validators accepted; URL syntax and calendar checks are not modelled.
   */
  datatype Payload = Payload(
    company: Field<string>,
    role: Field<string>,
    location: Field<string>,
    source: Field<string>,
    link: Field<string>,
    salaryMin: Field<int>,
    salaryMax: Field<int>,
    employmentType: Field<string>,
    stage: Field<string>,
    status: Field<string>,
    nextActionDate: Field<string>,
    notes: Field<string>)

  predicate WithinCap(f: Field<string>)
  {
    f.Given? ==> |f.value| <= MAX_TEXT
  }

  predicate NonNegative(f: Field<int>)
  {
    f.Given? ==> f.value >= 0
  }

  /** Constraints shared by both payload shapes: length caps and non-negative salaries. */
  predicate CapsAndBounds(p: Payload)
  {
    && WithinCap(p.company) && WithinCap(p.role)
    && WithinCap(p.location) && WithinCap(p.source)
    && NonNegative(p.salaryMin) && NonNegative(p.salaryMax)
  }

  /** ApplicationCreate: company and role are required strings (not null). */
  predicate CreateWellFormed(p: Payload)
  {
    p.company.Given? && p.role.Given? && CapsAndBounds(p)
  }

  /** ApplicationUpdate: every field optional (null allowed), same caps. */
  predicate UpdateWellFormed(p: Payload)
  {
    CapsAndBounds(p)
  }

  /** Every body the create schema accepts, the update schema accepts too, but not conversely. */
  lemma UpdateIsLaxerThanCreate(p: Payload)
    ensures CreateWellFormed(p) ==> UpdateWellFormed(p)
    ensures UpdateWellFormed(p) && (p.company.Absent? || p.company.Null?) ==> !CreateWellFormed(p)
  {
  }

  /** The raw list/export query parameters, before any validation. */
  datatype QueryParams = QueryParams(
    search: Option<string>,
    stage: Option<string>,
    status: Option<string>,
    page: int,
    pageSize: int,
    orderBy: string,
    orderDir: string)

  /** The parameters a listing request gets when it supplies none. */
  function DefaultParams(): (q: QueryParams)
    ensures q.page == 1 && q.pageSize == 20
    ensures q.orderBy == "created_at" && q.orderDir == "desc"
    ensures q.search == None && q.stage == None && q.status == None
    ensures BoundsValid(q) && ValidateEnums(q) == Pass
  {
    QueryParams(None, None, None, DEFAULT_PAGE, DEFAULT_PAGE_SIZE, "created_at", "desc")
  }

  /** Field constraints of ListQueryParams: page >= 1 and 1 <= page_size <= 100. */
  predicate BoundsValid(q: QueryParams)
  {
    q.page >= 1 && 1 <= q.pageSize <= MAX_PAGE_SIZE
  }

  /**
   * validate_enums: stage, status, order_by and order_dir are checked in
   * that order and the first failure decides the message.
   */
  function ValidateEnums(q: QueryParams): (r: Outcome)
    ensures r == Pass <==>
      && (q.stage.None? || q.stage.value in STAGES)
      && (q.status.None? || q.status.value in STATUSES)
      && q.orderBy in ORDER_COLUMNS
      && q.orderDir in ORDER_DIRECTIONS
    ensures r == Fail("Invalid stage") <==> q.stage.Some? && q.stage.value !in STAGES
    ensures r == Fail("Invalid status") <==>
      (q.stage.None? || q.stage.value in STAGES) && q.status.Some? && q.status.value !in STATUSES
    ensures r == Fail("Invalid order_by") <==>
      && (q.stage.None? || q.stage.value in STAGES)
      && (q.status.None? || q.status.value in STATUSES)
      && q.orderBy !in ORDER_COLUMNS
    ensures r == Fail("Invalid order_dir") <==>
      && (q.stage.None? || q.stage.value in STAGES)
      && (q.status.None? || q.status.value in STATUSES)
      && q.orderBy in ORDER_COLUMNS
      && q.orderDir !in ORDER_DIRECTIONS
  {
    if q.stage.Some? && q.stage.value !in STAGES then Fail("Invalid stage")
    else if q.status.Some? && q.status.value !in STATUSES then Fail("Invalid status")
    else if q.orderBy !in ORDER_COLUMNS then Fail("Invalid order_by")
    else if q.orderDir !in ORDER_DIRECTIONS then Fail("Invalid order_dir")
    else Pass
  }

  /** The enum sets have 3, 8 and 2 members; the sortable columns exclude company, role, stage and status. */
  lemma EnumSetsFixed()
    ensures |EMPLOYMENT_TYPES| == 3 && |STAGES| == 8 && |STATUSES| == 2
    ensures "company" !in ORDER_COLUMNS && "role" !in ORDER_COLUMNS
    ensures "stage" !in ORDER_COLUMNS && "status" !in ORDER_COLUMNS
  {
  }

  /** An empty stage is not None, so it is rejected rather than ignored. */
  lemma EmptyStageRejected(q: QueryParams)
    requires q.stage == Some("")
    ensures ValidateEnums(q) == Fail("Invalid stage")
  {
  }
}
