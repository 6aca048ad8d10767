/**
 * The job-application service: business rules, the partial-update merge,
 * the record store with its create/get/list/update/delete operations, and
 * the paged CSV export.
 */
module Applications {
  import opened Common
  import opened Text
  import opened Schemas
  import opened Models
  import opened Query
  import opened CsvExport
  import opened CsvRead

  /** Page size of the export's internal paging (the cap of ListQueryParams). */
  const EXPORT_PAGE_SIZE: int := 100

  predicate SalariesOrdered(p: Payload)
  {
    p.salaryMin.Given? && p.salaryMax.Given? ==> p.salaryMin.value <= p.salaryMax.value
  }

  /** An absent or null field passes; a given one must be in the set. */
  predicate MemberOrUnset(f: Field<string>, allowed: set<string>)
  {
    f.Given? ==> f.value in allowed
  }

  /**
   * _validate_business_rules: salary order, then employment_type, stage and
   * status membership; the first failing rule decides the message.
   */
  function ValidateBusinessRules(p: Payload): (r: Outcome)
    ensures r == Pass <==>
      && SalariesOrdered(p)
      && MemberOrUnset(p.employmentType, EMPLOYMENT_TYPES)
      && MemberOrUnset(p.stage, STAGES)
      && MemberOrUnset(p.status, STATUSES)
    ensures r == Fail("salary_min must be <= salary_max") <==> !SalariesOrdered(p)
    ensures r == Fail("Invalid employment_type") <==>
      SalariesOrdered(p) && !MemberOrUnset(p.employmentType, EMPLOYMENT_TYPES)
    ensures r == Fail("Invalid stage") <==>
      && SalariesOrdered(p) && MemberOrUnset(p.employmentType, EMPLOYMENT_TYPES)
      && !MemberOrUnset(p.stage, STAGES)
    ensures r == Fail("Invalid status") <==>
      && SalariesOrdered(p) && MemberOrUnset(p.employmentType, EMPLOYMENT_TYPES)
      && MemberOrUnset(p.stage, STAGES) && !MemberOrUnset(p.status, STATUSES)
  {
    if p.salaryMin.Given? && p.salaryMax.Given? && p.salaryMin.value > p.salaryMax.value then
      Fail("salary_min must be <= salary_max")
    else if p.employmentType.Given? && p.employmentType.value !in EMPLOYMENT_TYPES then
      Fail("Invalid employment_type")
    else if p.stage.Given? && p.stage.value !in STAGES then
      Fail("Invalid stage")
    else if p.status.Given? && p.status.value !in STATUSES then
      Fail("Invalid status")
    else Pass
  }

  /** Equal salaries pass the salary rule; a minimum above the maximum never does. */
  lemma SalaryBoundary(p: Payload)
    requires p.salaryMin.Given? && p.salaryMax.Given?
    ensures p.salaryMin.value == p.salaryMax.value ==> ValidateBusinessRules(p) != Fail("salary_min must be <= salary_max")
    ensures p.salaryMin.value > p.salaryMax.value ==> ValidateBusinessRules(p) == Fail("salary_min must be <= salary_max")
  {
  }

  /** The record a create stores: the payload's values, a fresh id and both timestamps at `now`. */
  function NewRecord(id: int, p: Payload, now: nat): Record
    requires p.company.Given? && p.role.Given?
  {
    Record(id, p.company.value, p.role.value, p.location.Value(), p.source.Value(), p.link.Value(),
           p.salaryMin.Value(), p.salaryMax.Value(), p.employmentType.Value(), p.stage.Value(),
           p.status.Value(), p.nextActionDate.Value(), p.notes.Value(), now, now)
  }

  /** The effect one body field has on its nullable column: absent keeps, null clears, a value overwrites. */
  predicate FieldEffect<T(==)>(f: Field<T>, before: Option<T>, after: Option<T>)
  {
    && (f.Absent? ==> after == before)
    && (f.Null? ==> after == None)
    && (f.Given? ==> after == Some(f.value))
  }

  /** One setattr of the update loop on a nullable column: absent keeps, null clears, a value overwrites. */
  function Assign<T(==)>(f: Field<T>, current: Option<T>): (a: Option<T>)
    ensures FieldEffect(f, current, a)
  {
    match f
    case Absent => current
    case Null => None
    case Given(v) => Some(v)
  }

  /**
   * The partial merge of update_application: every supplied field of the
   * payload overwrites the record's column; id and both timestamps stay.
   * company and role are NOT NULL columns and take only given values here.
   */
  function Merge(r: Record, p: Payload): (m: Record)
    ensures m.id == r.id && m.createdAt == r.createdAt && m.updatedAt == r.updatedAt
    ensures p.company.Given? ==> m.company == p.company.value
    ensures !p.company.Given? ==> m.company == r.company
    ensures p.role.Given? ==> m.role == p.role.value
    ensures !p.role.Given? ==> m.role == r.role
    ensures FieldEffect(p.location, r.location, m.location)
    ensures FieldEffect(p.source, r.source, m.source)
    ensures FieldEffect(p.link, r.link, m.link)
    ensures FieldEffect(p.salaryMin, r.salaryMin, m.salaryMin)
    ensures FieldEffect(p.salaryMax, r.salaryMax, m.salaryMax)
    ensures FieldEffect(p.employmentType, r.employmentType, m.employmentType)
    ensures FieldEffect(p.stage, r.stage, m.stage)
    ensures FieldEffect(p.status, r.status, m.status)
    ensures FieldEffect(p.nextActionDate, r.nextActionDate, m.nextActionDate)
    ensures FieldEffect(p.notes, r.notes, m.notes)
  {
    Record(r.id,
           if p.company.Given? then p.company.value else r.company,
           if p.role.Given? then p.role.value else r.role,
           Assign(p.location, r.location),
           Assign(p.source, r.source),
           Assign(p.link, r.link),
           Assign(p.salaryMin, r.salaryMin),
           Assign(p.salaryMax, r.salaryMax),
           Assign(p.employmentType, r.employmentType),
           Assign(p.stage, r.stage),
           Assign(p.status, r.status),
           Assign(p.nextActionDate, r.nextActionDate),
           Assign(p.notes, r.notes),
           r.createdAt, r.updatedAt)
  }

  /** The body `{}`: nothing supplied. */
  const EMPTY_PAYLOAD: Payload :=
    Payload(Absent, Absent, Absent, Absent, Absent, Absent, Absent, Absent, Absent, Absent, Absent, Absent)

  /**
   * The business rules look only at the salaries in the body, so an update
   * that sends one bound can leave the stored minimum above the stored maximum.
   */
  lemma UpdateCanUnorderSalaries(r: Record)
    requires r.salaryMax == Some(100)
    ensures var p := EMPTY_PAYLOAD.(salaryMin := Given(500));
      && UpdateWellFormed(p) && ValidateBusinessRules(p) == Pass
      && Merge(r, p).salaryMin == Some(500) && Merge(r, p).salaryMax == Some(100)
  {
  }

  /** An empty body changes nothing; sending the same body twice changes nothing the second time. */
  lemma MergeIdempotent(r: Record, p: Payload)
    ensures Merge(r, EMPTY_PAYLOAD) == r
    ensures Merge(Merge(r, p), p) == Merge(r, p)
  {
  }

  function FilterOf(q: QueryParams): Filter
  {
    Filter(q.search, q.stage, q.status)
  }

  /** getattr(Application, order_by) and the asc/desc switch, for validated parameters. */
  function OrderOf(q: QueryParams, nullsLow: bool): (o: Order)
    requires q.orderBy in ORDER_COLUMNS && q.orderDir in ORDER_DIRECTIONS
    ensures o.dir == Asc <==> q.orderDir == "asc"
    ensures o.column == CreatedAt <==> q.orderBy == "created_at"
    ensures o.column == UpdatedAt <==> q.orderBy == "updated_at"
    ensures o.column == NextActionDate <==> q.orderBy == "next_action_date"
  {
    Order(
      if q.orderBy == "created_at" then CreatedAt
      else if q.orderBy == "updated_at" then UpdatedAt
      else NextActionDate,
      if q.orderDir == "asc" then Asc else Desc,
      nullsLow)
  }

  /** The cells of one record in the export's column order; dates and timestamps as text. */
  function RecordCells(r: Record): (cells: seq<Option<string>>)
    ensures |cells| == |COLUMNS|
  {
    [Some(IntToString(r.id)),
     Some(r.company),
     Some(r.role),
     r.location,
     r.source,
     r.link,
     if r.salaryMin.Some? then Some(IntToString(r.salaryMin.value)) else None,
     if r.salaryMax.Some? then Some(IntToString(r.salaryMax.value)) else None,
     r.employmentType,
     r.stage,
     r.status,
     r.nextActionDate,
     r.notes,
     Some(NatToString(r.createdAt)),
     Some(NatToString(r.updatedAt))]
  }

  /** The dict row_iter yields for one record: each column name with the record's cell. */
  function RecordRow(r: Record): (row: Row)
    ensures |row| == |COLUMNS|
    ensures forall i :: 0 <= i < |row| ==> row[i] == (COLUMNS[i], RecordCells(r)[i])
  {
    var cells := RecordCells(r);
    seq(|COLUMNS|, i requires 0 <= i < |COLUMNS| => (COLUMNS[i], cells[i]))
  }

  /** The header dict row_iter yields first: every value equals its key. */
  function HeaderRow(): (row: Row)
    ensures |row| == |COLUMNS|
    ensures forall i :: 0 <= i < |row| ==> row[i] == (COLUMNS[i], Some(COLUMNS[i]))
  {
    seq(|COLUMNS|, i requires 0 <= i < |COLUMNS| => (COLUMNS[i], Some(COLUMNS[i])))
  }

  function RecordRows(s: seq<Record>): (rows: seq<Row>)
    ensures |rows| == |s|
    ensures forall i :: 0 <= i < |s| ==> rows[i] == RecordRow(s[i])
  {
    seq(|s|, i requires 0 <= i < |s| => RecordRow(s[i]))
  }

  /** The response of a listing. */
  datatype Listing = Listing(items: seq<Record>, total: int, page: int, pageSize: int)

  /**
   * The store of application records: the applications table keyed by id,
   * the next id to hand out, and the latest reading of the supplied clock.
   */
  class Store {
    var records: map<int, Record>
    var nextId: int
    var clock: nat
    /** Where the database sorts NULL next_action_date values. */
    const nullsLow: bool

    ghost predicate Valid()
      reads this
    {
      && WellKeyed(records)
      && nextId >= 1
      && (forall k :: k in records ==> 1 <= k < nextId)
      && (forall k :: k in records ==> records[k].createdAt <= records[k].updatedAt <= clock)
    }

    constructor (nullsLow: bool)
      ensures Valid()
      ensures records == map[] && nextId == 1 && clock == 0 && this.nullsLow == nullsLow
    {
      records := map[];
      nextId := 1;
      clock := 0;
      this.nullsLow := nullsLow;
    }

    /**
     * get_application: the record under `id`, or NotFound. An id the driver
     * cannot bind as a 64-bit integer makes the lookup itself fail.
     */
    function Get(id: int): (r: Result<Record>)
      reads this
      ensures !FitsInt64(id) ==> r == Err(ServerError)
      ensures FitsInt64(id) ==> (r.Ok? <==> id in records)
      ensures r.Ok? ==> r.value == records[id]
      ensures FitsInt64(id) && r.Err? ==> r.error == NotFound
    {
      if !FitsInt64(id) then Err(ServerError)
      else if id in records then Ok(records[id]) else Err(NotFound)
    }

    /**
     * list_applications: the parameter bounds are checked while the
     * parameters are built, outside the handler's try, so a violation escapes
     * as an unhandled error; then validate_enums, then the requested page of
     * the ordered filtered set with the filtered count. An OFFSET beyond the
     * 64-bit range makes the page query fail in the driver.
     */
    function List(q: QueryParams): (r: Result<Listing>)
      reads this
      requires WellKeyed(records)
      ensures !BoundsValid(q) ==> r == Err(ServerError)
      ensures BoundsValid(q) && ValidateEnums(q).Fail? ==> r == Err(QueryError(ValidateEnums(q).message))
      ensures BoundsValid(q) && ValidateEnums(q) == Pass && !FitsInt64(Offset(q.page, q.pageSize)) ==>
        r == Err(ServerError)
      ensures BoundsValid(q) && ValidateEnums(q) == Pass && FitsInt64(Offset(q.page, q.pageSize)) ==>
        && r.Ok?
        && r.value.items == Window(Ordered(records, FilterOf(q), OrderOf(q, nullsLow)), q.page, q.pageSize)
        && r.value.total == |MatchingIds(records, FilterOf(q))|
        && r.value.page == q.page && r.value.pageSize == q.pageSize
    {
      if !BoundsValid(q) then Err(ServerError)
      else
        match ValidateEnums(q)
        case Fail(message) => Err(QueryError(message))
        case Pass =>
          if !FitsInt64(Offset(q.page, q.pageSize)) then Err(ServerError)
          else
          var f := FilterOf(q);
          var o := OrderOf(q, nullsLow);
          var total := |Select(Scan(records), f)|;
          CountQuery(records, f, o);
          Ok(Listing(Window(Ordered(records, f, o), q.page, q.pageSize), total, q.page, q.pageSize))
    }

    /** create_application: auth gate, body schema, business rules, then insert with a fresh id. */
    method Create(p: Payload, authorized: bool, now: nat) returns (r: Result<Record>)
      requires Valid() && clock < now
      modifies this
      ensures Valid()
      ensures !authorized ==> r == Err(Unauthorized)
      ensures authorized && !CreateWellFormed(p) ==> r == Err(SchemaError)
      ensures authorized && CreateWellFormed(p) && ValidateBusinessRules(p).Fail? ==>
        r == Err(DomainError(ValidateBusinessRules(p).message))
      ensures r.Err? ==> unchanged(this)
      ensures r.Ok? ==> r.value.id == old(nextId) && nextId == old(nextId) + 1 && clock == now
      ensures authorized && CreateWellFormed(p) && ValidateBusinessRules(p) == Pass ==>
        && r.Ok?
        && r.value.id >= 1 && r.value.id !in old(records)
        && r.value == NewRecord(r.value.id, p, now)
        && records == old(records)[r.value.id := r.value]
        && (FitsInt64(r.value.id) ==> Get(r.value.id) == Ok(r.value))
    {
      if !authorized {
        return Err(Unauthorized);
      }
      if !CreateWellFormed(p) {
        return Err(SchemaError);
      }
      var check := ValidateBusinessRules(p);
      if check.Fail? {
        return Err(DomainError(check.message));
      }
      var rec := NewRecord(nextId, p, now);
      records := records[nextId := rec];
      nextId := nextId + 1;
      clock := now;
      r := Ok(rec);
    }

    /**
     * update_application: auth gate, body schema and business rules come
     * before the lookup; then the supplied fields are merged. updated_at is
     * restamped only when some column actually changes, since no UPDATE is
     * issued otherwise. A null company or role violates NOT NULL at commit.
     */
    method Update(id: int, p: Payload, authorized: bool, now: nat) returns (r: Result<Record>)
      requires Valid() && clock < now
      modifies this
      ensures Valid()
      ensures !authorized ==> r == Err(Unauthorized)
      ensures authorized && !UpdateWellFormed(p) ==> r == Err(SchemaError)
      ensures authorized && UpdateWellFormed(p) && ValidateBusinessRules(p).Fail? ==>
        r == Err(DomainError(ValidateBusinessRules(p).message))
      ensures authorized && UpdateWellFormed(p) && ValidateBusinessRules(p) == Pass && !FitsInt64(id) ==>
        r == Err(ServerError)
      ensures (authorized && UpdateWellFormed(p) && ValidateBusinessRules(p) == Pass && FitsInt64(id)
               && id !in old(records)) ==> r == Err(NotFound)
      ensures (authorized && UpdateWellFormed(p) && ValidateBusinessRules(p) == Pass && FitsInt64(id)
               && id in old(records) && (p.company.Null? || p.role.Null?)) ==> r == Err(StorageFailure)
      ensures r.Err? ==> unchanged(this)
      ensures r.Ok? ==> clock == now && nextId == old(nextId)
      ensures r.Ok? ==>
        && authorized && FitsInt64(id) && id in old(records)
        && var before := old(records)[id];
        && r.value == Merge(before, p).(updatedAt := r.value.updatedAt)
        && r.value.updatedAt == (if Merge(before, p) == before then before.updatedAt else now)
        && (r.value.updatedAt > before.updatedAt <==> Merge(before, p) != before)
        && records == old(records)[id := r.value]
      ensures (authorized && UpdateWellFormed(p) && ValidateBusinessRules(p) == Pass && FitsInt64(id)
               && id in old(records) && !p.company.Null? && !p.role.Null?) ==> r.Ok?
    {
      if !authorized {
        return Err(Unauthorized);
      }
      if !UpdateWellFormed(p) {
        return Err(SchemaError);
      }
      var check := ValidateBusinessRules(p);
      if check.Fail? {
        return Err(DomainError(check.message));
      }
      if !FitsInt64(id) {
        return Err(ServerError);
      }
      if id !in records {
        return Err(NotFound);
      }
      if p.company.Null? || p.role.Null? {
        return Err(StorageFailure);
      }
      var before := records[id];
      var merged := Merge(before, p);
      var stored := if merged == before then before else merged.(updatedAt := now);
      records := records[id := stored];
      clock := now;
      r := Ok(stored);
    }

    /**
     * delete_application: auth gate, then the lookup (which fails for an id
     * beyond the 64-bit range), then NotFound or removal of exactly that record.
     */
    method Delete(id: int, authorized: bool) returns (r: Result<()>)
      requires Valid()
      modifies this
      ensures Valid()
      ensures !authorized ==> r == Err(Unauthorized) && unchanged(this)
      ensures authorized && !FitsInt64(id) ==> r == Err(ServerError) && unchanged(this)
      ensures authorized && FitsInt64(id) && id !in old(records) ==> r == Err(NotFound) && unchanged(this)
      ensures authorized && FitsInt64(id) && id in old(records) ==>
        && r == Ok(())
        && records == old(records) - {id}
        && nextId == old(nextId) && clock == old(clock)
      ensures authorized && FitsInt64(id) ==> Get(id) == Err(NotFound)
    {
      if !authorized {
        return Err(Unauthorized);
      }
      if !FitsInt64(id) {
        return Err(ServerError);
      }
      if id !in records {
        return Err(NotFound);
      }
      records := records - {id};
      r := Ok(());
    }

    /**
     * export_csv's parameter check: validate once (page 1, page size 100),
     * then stream the rows of row_iter.
     */
    method ExportRows(search: Option<string>, stage: Option<string>, status: Option<string>,
                      orderBy: string, orderDir: string) returns (r: Result<seq<Row>>)
      requires WellKeyed(records)
      ensures var q := QueryParams(search, stage, status, 1, EXPORT_PAGE_SIZE, orderBy, orderDir);
        ValidateEnums(q).Fail? ==> r == Err(QueryError(ValidateEnums(q).message))
      ensures var q := QueryParams(search, stage, status, 1, EXPORT_PAGE_SIZE, orderBy, orderDir);
        ValidateEnums(q) == Pass ==>
          r == Ok([HeaderRow()] + RecordRows(Ordered(records, FilterOf(q), OrderOf(q, nullsLow))))
    {
      var base := QueryParams(search, stage, status, 1, EXPORT_PAGE_SIZE, orderBy, orderDir);
      var check := ValidateEnums(base);
      if check.Fail? {
        return Err(QueryError(check.message));
      }
      var rows := RowIter(records, FilterOf(base), OrderOf(base, nullsLow));
      r := Ok(rows);
    }

    /** The streamed export: the rows of ExportRows written out by iter_csv. */
    method ExportCsv(search: Option<string>, stage: Option<string>, status: Option<string>,
                     orderBy: string, orderDir: string) returns (r: Result<seq<string>>)
      requires WellKeyed(records)
      ensures var q := QueryParams(search, stage, status, 1, EXPORT_PAGE_SIZE, orderBy, orderDir);
        ValidateEnums(q).Fail? ==> r == Err(QueryError(ValidateEnums(q).message))
      ensures var q := QueryParams(search, stage, status, 1, EXPORT_PAGE_SIZE, orderBy, orderDir);
        ValidateEnums(q) == Pass ==>
          r == Ok(CsvLines([HeaderRow()] + RecordRows(Ordered(records, FilterOf(q), OrderOf(q, nullsLow)))))
    {
      var rows := ExportRows(search, stage, status, orderBy, orderDir);
      if rows.Err? {
        return Err(rows.error);
      }
      var lines := IterCsv(rows.value);
      r := Ok(lines);
    }
  }

  /**
   * row_iter: yield the header dict, then query pages 1, 2, ... of size
   * 100 and yield their records, stopping at the first empty page.
   */
  method RowIter(table: map<int, Record>, f: Filter, o: Order) returns (rows: seq<Row>)
    requires WellKeyed(table)
    ensures rows == [HeaderRow()] + RecordRows(Ordered(table, f, o))
  {
    ghost var all := Ordered(table, f, o);
    rows := [HeaderRow()];
    var page := 1;
    while true
      invariant page >= 1
      invariant rows == [HeaderRow()] + RecordRows(Pages(all, EXPORT_PAGE_SIZE, page - 1))
      invariant |Pages(all, EXPORT_PAGE_SIZE, page - 1)| <= |all|
      decreases |all| - |Pages(all, EXPORT_PAGE_SIZE, page - 1)|
    {
      var items := Window(Ordered(table, f, o), page, EXPORT_PAGE_SIZE);
      if items == [] {
        LastPage(all, EXPORT_PAGE_SIZE, page);
        break;
      }
      var next := AppendRows(rows, items);
      ExportStep(all, page, rows, items);
      rows := next;
      page := page + 1;
    }
  }

  /** The inner `for r in rows: yield {...}` of row_iter: one export row per record of the page. */
  method AppendRows(rows: seq<Row>, items: seq<Record>) returns (out: seq<Row>)
    ensures out == rows + RecordRows(items)
  {
    out := rows;
    for j := 0 to |items|
      invariant out == rows + RecordRows(items[..j])
    {
      RecordRowsAppend(items[..j], [items[j]]);
      assert items[..j + 1] == items[..j] + [items[j]];
      out := out + [RecordRow(items[j])];
    }
    assert items[..|items|] == items;
  }

  /** One non-empty page of the export extends the rows written so far by that page's records. */
  lemma ExportStep(all: seq<Record>, page: int, rows: seq<Row>, items: seq<Record>)
    requires page >= 1 && items == Window(all, page, EXPORT_PAGE_SIZE) && items != []
    requires rows == [HeaderRow()] + RecordRows(Pages(all, EXPORT_PAGE_SIZE, page - 1))
    ensures rows + RecordRows(items) == [HeaderRow()] + RecordRows(Pages(all, EXPORT_PAGE_SIZE, page))
    ensures |Pages(all, EXPORT_PAGE_SIZE, page - 1)| < |Pages(all, EXPORT_PAGE_SIZE, page)| <= |all|
  {
    NextPage(all, EXPORT_PAGE_SIZE, page);
    RecordRowsAppend(Pages(all, EXPORT_PAGE_SIZE, page - 1), items);
  }

  lemma RecordRowsAppend(a: seq<Record>, b: seq<Record>)
    ensures RecordRows(a + b) == RecordRows(a) + RecordRows(b)
  {
  }

  /** A non-empty page extends the pages read so far and stays within the sequence. */
  lemma NextPage<T>(s: seq<T>, size: int, page: int)
    requires size >= 1 && page >= 1 && Window(s, page, size) != []
    ensures Pages(s, size, page) == Pages(s, size, page - 1) + Window(s, page, size)
    ensures |Pages(s, size, page - 1)| < |Pages(s, size, page)| <= |s|
  {
    PagesArePrefix(s, size, page);
  }

  /** At the first empty page, the pages read so far are the whole sequence. */
  lemma LastPage<T>(s: seq<T>, size: int, page: int)
    requires size >= 1 && page >= 1 && Window(s, page, size) == []
    ensures Pages(s, size, page - 1) == s
  {
    PagesArePrefix(s, size, page - 1);
  }

  /** The count query agrees with the listing's filtered set: both have one entry per matching row. */
  lemma CountQuery(m: map<int, Record>, f: Filter, o: Order)
    requires WellKeyed(m)
    ensures |Select(Scan(m), f)| == |Ordered(m, f, o)| == |MatchingIds(m, f)|
  {
    var s := Select(Scan(m), f);
    assert |multiset(Sort(s, o))| == |multiset(s)|;
    OrderedCount(m, f, o);
  }

  /**
   * The export writes its header twice: iter_csv writes the first row's
   * keys, and that first row is row_iter's header dict, whose values are the
   * keys again. The file therefore has two header lines, then one per record.
   */
  lemma ExportHeaderTwice(all: seq<Record>)
    ensures var lines := CsvLines([HeaderRow()] + RecordRows(all));
      && |lines| == |all| + 2
      && lines[0] == lines[1] == Line(KeyCells(HeaderRow()))
  {
    var h := HeaderRow();
    assert KeyCells(h) == Values(h);
  }

  /** The cells of each record's export line, as a CSV reader returns them. */
  function RecordTexts(all: seq<Record>): (r: seq<seq<string>>)
    ensures |r| == |all|
    ensures forall i :: 0 <= i < |all| ==> |r[i]| == |COLUMNS| && r[i] == Texts(Values(RecordRow(all[i])))
  {
    seq(|all|, i requires 0 <= i < |all| => Texts(Values(RecordRow(all[i]))))
  }

  /**
   * Read back by the export's own dialect (`CsvRead`, where a record ends at
   * `\n` and a bare `\r` is an ordinary character), the export is the column
   * names twice, then each record's cells in column order, null as empty.
   */
  lemma ExportReadsBack(all: seq<Record>)
    ensures ReadCsv(Concat(CsvLines([HeaderRow()] + RecordRows(all)))) ==
      [COLUMNS, COLUMNS] + RecordTexts(all)
  {
    var rows := [HeaderRow()] + RecordRows(all);
    ExportRowWidths(all, rows);
    ReadBackCsv(rows);
    ExportTexts(all, rows);
  }

  lemma ExportTexts(all: seq<Record>, rows: seq<Row>)
    requires rows == [HeaderRow()] + RecordRows(all)
    ensures [Texts(KeyCells(rows[0]))] + RowTexts(rows) == [COLUMNS, COLUMNS] + RecordTexts(all)
  {
    HeaderTexts();
    ExportRowTexts(all, rows);
    assert [COLUMNS] + ([COLUMNS] + RecordTexts(all)) == [COLUMNS, COLUMNS] + RecordTexts(all);
  }

  lemma ExportRowWidths(all: seq<Record>, rows: seq<Row>)
    requires rows == [HeaderRow()] + RecordRows(all)
    ensures forall i :: 0 <= i < |rows| ==> |rows[i]| >= 1
  {
    forall i | 0 <= i < |rows| ensures |rows[i]| >= 1 {
      if i > 0 { assert rows[i] == RecordRow(all[i - 1]); }
    }
  }

  lemma HeaderTexts()
    ensures Texts(KeyCells(HeaderRow())) == COLUMNS
    ensures Texts(Values(HeaderRow())) == COLUMNS
  {
  }

  lemma ExportRowTexts(all: seq<Record>, rows: seq<Row>)
    requires rows == [HeaderRow()] + RecordRows(all)
    requires Texts(Values(HeaderRow())) == COLUMNS
    ensures RowTexts(rows) == [COLUMNS] + RecordTexts(all)
  {
    var got := RowTexts(rows);
    var want := [COLUMNS] + RecordTexts(all);
    forall i | 0 <= i < |rows| ensures got[i] == want[i] {
      if i > 0 {
        assert rows[i] == RecordRow(all[i - 1]);
      }
    }
  }

  /** Sortedness survives taking a contiguous slice. */
  lemma SortedSlice(s: seq<Record>, o: Order, lo: int, hi: int)
    requires StrictlySorted(s, o) && 0 <= lo <= hi <= |s|
    ensures StrictlySorted(s[lo..hi], o)
  {
    forall i, j | 0 <= i < j < hi - lo ensures Precedes(s[lo..hi][i], s[lo..hi][j], o) {
      assert s[lo..hi][i] == s[lo + i] && s[lo..hi][j] == s[lo + j];
    }
  }

  /**
   * A listed page holds only stored records that match the filters, in the
   * requested order, and never more than the page size.
   */
  lemma ListedPage(m: map<int, Record>, f: Filter, o: Order, page: int, size: int)
    requires WellKeyed(m) && page >= 1 && size >= 1
    ensures var items := Window(Ordered(m, f, o), page, size);
      && |items| <= size
      && (forall x :: x in items ==> x in m.Values && Matches(x, f))
      && StrictlySorted(items, o)
  {
    var all := Ordered(m, f, o);
    var lo, hi := WindowSlice(all, page, size);
    SortedSlice(all, o, lo, hi);
  }

  /**
   * Arguments beyond the driver's 64-bit range: page 10^20 passes the schema
   * bounds (which set no upper limit on page) yet its OFFSET cannot be bound,
   * and the id 2^64 cannot be looked up; both fail with a server error.
   */
  lemma HugeArgumentsFail(s: Store)
    requires WellKeyed(s.records)
    ensures var q := DefaultParams().(page := 100_000_000_000_000_000_000);
      && BoundsValid(q) && ValidateEnums(q) == Pass
      && s.List(q) == Err(ServerError)
    ensures s.Get(0x1_0000_0000_0000_0000) == Err(ServerError)
  {
    var q := DefaultParams().(page := 100_000_000_000_000_000_000);
    assert Offset(q.page, q.pageSize) == 1_999_999_999_999_999_999_980;
  }

  /**
   * The get-update-delete walk-through of the service: create "Gamma" at
   * time 5, read it back, move its stage at time 6 (which restamps
   * updated_at), delete it, and the id is then not found.
   */
  method GetUpdateDelete() returns (created: Record, updated: Record, afterDelete: Result<Record>)
    ensures created.company == "Gamma" && created.role == "Dev"
    ensures updated.id == created.id && updated.stage == Some("applied")
    ensures updated.updatedAt != created.updatedAt
    ensures afterDelete == Err(NotFound)
  {
    var s := new Store(true);
    var body := EMPTY_PAYLOAD.(company := Given("Gamma"), role := Given("Dev"));
    var c := s.Create(body, true, 5);
    created := c.value;
    assert s.Get(created.id) == Ok(created);
    var change := EMPTY_PAYLOAD.(stage := Given("applied"));
    var u := s.Update(created.id, change, true, 6);
    updated := u.value;
    var d := s.Delete(created.id, true);
    afterDelete := s.Get(created.id);
  }
}
