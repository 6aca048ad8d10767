/** The stored job-application record and its column list. */
module Models {
  import opened Common

  /**
   * One row of the applications table. Timestamps are readings of a
   * supplied clock; next_action_date is its ISO calendar-date text.
   */
  datatype Record = Record(
    id: int,
    company: string,
    role: string,
    location: Option<string>,
    source: Option<string>,
    link: Option<string>,
    salaryMin: Option<int>,
    salaryMax: Option<int>,
    employmentType: Option<string>,
    stage: Option<string>,
    status: Option<string>,
    nextActionDate: Option<string>,
    notes: Option<string>,
    createdAt: nat,
    updatedAt: nat)

  /** The range of a signed 64-bit integer: the widest value the database driver binds as a parameter. */
  const INT64_MIN: int := -0x8000_0000_0000_0000
  const INT64_MAX: int := 0x7FFF_FFFF_FFFF_FFFF

  predicate FitsInt64(n: int)
  {
    INT64_MIN <= n <= INT64_MAX
  }

  /** The export's column order. */
  const COLUMNS: seq<string> := [
    "id", "company", "role", "location", "source", "link",
    "salary_min", "salary_max", "employment_type", "stage", "status",
    "next_action_date", "notes", "created_at", "updated_at"]

  /** A table keyed by primary key: each record sits under its own id. */
  predicate WellKeyed(m: map<int, Record>)
  {
    forall k :: k in m ==> m[k].id == k
  }

  /** The largest key of a non-empty finite set. */
  lemma {:induction false} LargestKey(keys: set<int>) returns (k: int)
    requires keys != {}
    ensures k in keys && forall j :: j in keys ==> j <= k
    decreases |keys|
  {
    var x := AnyKey(keys);
    var rest := keys - {x};
    if rest == {} {
      k := x;
    } else {
      var m := LargestKey(rest);
      k := if x > m then x else m;
    }
    forall j | j in keys ensures j <= k {
      assert j in rest || j == x;
    }
  }

  lemma AnyKey(keys: set<int>) returns (x: int)
    requires keys != {}
    ensures x in keys
  {
    if forall y :: y !in keys {
      assert false;  // a set with no members is the empty set
    }
    x :| x in keys;
  }

  lemma MaxExists(keys: set<int>)
    requires keys != {}
    ensures exists k :: k in keys && forall j :: j in keys ==> j <= k
  {
    var k := LargestKey(keys);
  }

  function MaxKey(keys: set<int>): (k: int)
    requires keys != {}
    ensures k in keys && forall j :: j in keys ==> j <= k
  {
    MaxExists(keys);
    var k :| k in keys && forall j :: j in keys ==> j <= k;
    k
  }
}
