/**
 * The query engine behind listing and export: the search/stage/status
 * filter, the ordering with its id tie-break, the table scan, the sort,
 * and OFFSET/LIMIT paging.
 */
module Query {
  import opened Common
  import opened Text
  import opened Models

  datatype Filter = Filter(search: Option<string>, stage: Option<string>, status: Option<string>)

  datatype Column = CreatedAt | UpdatedAt | NextActionDate
  datatype Direction = Asc | Desc

  /**
   * A sort request. `nullsLow` is the database's own placement of NULL
   * next_action_date values: below every date (SQLite) or above (PostgreSQL).
   */
  datatype Order = Order(column: Column, dir: Direction, nullsLow: bool)

  /** Python truthiness of an optional string: present and non-empty. */
  predicate Truthy(o: Option<string>)
  {
    o.Some? && o.value != ""
  }

  /** _apply_filters: every given condition must hold; an empty or missing one applies no filter. */
  predicate Matches(r: Record, f: Filter)
    ensures Matches(r, f) <==>
      && (Truthy(f.search) ==>
            || SubstringAt(Lower(r.company), Lower(f.search.value))
            || SubstringAt(Lower(r.role), Lower(f.search.value)))
      && (Truthy(f.stage) ==> r.stage == f.stage)
      && (Truthy(f.status) ==> r.status == f.status)
  {
    if Truthy(f.search) then
      ContainsIff(Lower(r.company), Lower(f.search.value));
      ContainsIff(Lower(r.role), Lower(f.search.value));
      MatchesBody(r, f)
    else MatchesBody(r, f)
  }

  /** `needle` starts at some position of `hay`: the meaning of LIKE '%needle%'. */
  predicate SubstringAt(hay: string, needle: string)
  {
    exists k :: 0 <= k <= |hay| && needle <= hay[k..]
  }

  predicate MatchesBody(r: Record, f: Filter)
  {
    && (Truthy(f.search) ==>
          Contains(Lower(r.company), Lower(f.search.value)) || Contains(Lower(r.role), Lower(f.search.value)))
    && (Truthy(f.stage) ==> r.stage == f.stage)
    && (Truthy(f.status) ==> r.status == f.status)
  }

  /** Strict order of optional dates, NULL placed by `nullsLow`. */
  predicate DateLess(a: Option<string>, b: Option<string>, nullsLow: bool)
  {
    match (a, b)
    case (None, None) => false
    case (None, Some(_)) => nullsLow
    case (Some(_), None) => !nullsLow
    case (Some(x), Some(y)) => StrLess(x, y)
  }

  predicate KeyEqual(a: Record, b: Record, col: Column)
  {
    match col
    case CreatedAt => a.createdAt == b.createdAt
    case UpdatedAt => a.updatedAt == b.updatedAt
    case NextActionDate => a.nextActionDate == b.nextActionDate
  }

  /** Ascending comparison of the sort column. */
  predicate KeyLess(a: Record, b: Record, o: Order)
  {
    match o.column
    case CreatedAt => a.createdAt < b.createdAt
    case UpdatedAt => a.updatedAt < b.updatedAt
    case NextActionDate => DateLess(a.nextActionDate, b.nextActionDate, o.nullsLow)
  }

  /** _apply_ordering: `a` comes before `b` by the column in its direction, ties broken by id descending. */
  predicate Precedes(a: Record, b: Record, o: Order)
    ensures Precedes(a, b, o) ==> a != b
    ensures KeyEqual(a, b, o.column) ==> (Precedes(a, b, o) <==> a.id > b.id)
    ensures !KeyEqual(a, b, o.column) && o.dir == Asc ==> (Precedes(a, b, o) <==> KeyLess(a, b, o))
    ensures !KeyEqual(a, b, o.column) && o.dir == Desc ==> (Precedes(a, b, o) <==> KeyLess(b, a, o))
  {
    if KeyEqual(a, b, o.column) then a.id > b.id
    else if o.dir == Asc then KeyLess(a, b, o)
    else KeyLess(b, a, o)
  }

  lemma KeyLessIrreflexive(a: Record, b: Record, o: Order)
    requires KeyEqual(a, b, o.column)
    ensures !KeyLess(a, b, o) && !KeyLess(b, a, o)
  {
    if o.column == NextActionDate && a.nextActionDate.Some? {
      StrLessIrreflexive(a.nextActionDate.value);
    }
  }

  lemma KeyLessTotal(a: Record, b: Record, o: Order)
    requires !KeyEqual(a, b, o.column)
    ensures KeyLess(a, b, o) || KeyLess(b, a, o)
  {
    if o.column == NextActionDate && a.nextActionDate.Some? && b.nextActionDate.Some? {
      StrLessTotal(a.nextActionDate.value, b.nextActionDate.value);
    }
  }

  lemma KeyLessAsymmetric(a: Record, b: Record, o: Order)
    requires KeyLess(a, b, o)
    ensures !KeyLess(b, a, o) && !KeyEqual(a, b, o.column)
  {
    if o.column == NextActionDate && a.nextActionDate.Some? && b.nextActionDate.Some? {
      StrLessAsymmetric(a.nextActionDate.value, b.nextActionDate.value);
      StrLessIrreflexive(a.nextActionDate.value);
    }
  }

  lemma KeyLessTransitive(a: Record, b: Record, c: Record, o: Order)
    requires KeyLess(a, b, o) && KeyLess(b, c, o)
    ensures KeyLess(a, c, o)
  {
    if o.column == NextActionDate && a.nextActionDate.Some? && b.nextActionDate.Some? && c.nextActionDate.Some? {
      StrLessTransitive(a.nextActionDate.value, b.nextActionDate.value, c.nextActionDate.value);
    }
  }

  /** No record precedes itself, and never both ways round. */
  lemma PrecedesAsymmetric(a: Record, b: Record, o: Order)
    requires Precedes(a, b, o)
    ensures !Precedes(b, a, o) && a != b
  {
    if !KeyEqual(a, b, o.column) {
      if o.dir == Asc {
        KeyLessAsymmetric(a, b, o);
      } else {
        KeyLessAsymmetric(b, a, o);
      }
    }
  }

  lemma PrecedesTransitive(a: Record, b: Record, c: Record, o: Order)
    requires Precedes(a, b, o) && Precedes(b, c, o)
    ensures Precedes(a, c, o)
  {
    var (x, y, z) := if o.dir == Asc then (a, b, c) else (c, b, a);
    if KeyEqual(a, b, o.column) && KeyEqual(b, c, o.column) {
    } else if KeyEqual(a, b, o.column) {
      assert KeyLess(x, z, o) by {
        if o.dir == Asc { assert KeyLess(b, c, o); } else { assert KeyLess(c, b, o); }
      }
      KeyLessAsymmetric(x, z, o);
    } else if KeyEqual(b, c, o.column) {
      assert KeyLess(x, z, o);
      KeyLessAsymmetric(x, z, o);
    } else {
      KeyLessTransitive(x, y, z, o);
      KeyLessAsymmetric(x, z, o);
    }
  }

  /** Two records with different ids are always strictly ordered: the tie-break makes the order total. */
  lemma PrecedesTotal(a: Record, b: Record, o: Order)
    requires a.id != b.id
    ensures Precedes(a, b, o) || Precedes(b, a, o)
  {
    if !KeyEqual(a, b, o.column) {
      KeyLessTotal(a, b, o);
    }
  }

  predicate StrictlySorted(s: seq<Record>, o: Order)
  {
    forall i, j :: 0 <= i < j < |s| ==> Precedes(s[i], s[j], o)
  }

  predicate DistinctIds(s: seq<Record>)
  {
    forall i, j :: 0 <= i < j < |s| ==> s[i].id != s[j].id
  }

  predicate IdsAscending(s: seq<Record>)
  {
    forall i, j :: 0 <= i < j < |s| ==> s[i].id < s[j].id
  }

  lemma PrependSorted(x: Record, s: seq<Record>, o: Order)
    requires StrictlySorted(s, o)
    requires s != [] ==> Precedes(x, s[0], o)
    ensures StrictlySorted([x] + s, o)
  {
    var t := [x] + s;
    forall i, j | 0 <= i < j < |t| ensures Precedes(t[i], t[j], o) {
      if i == 0 && j > 1 {
        PrecedesTransitive(x, s[0], s[j - 1], o);
      }
    }
  }

  /** Insertion of one record into a strictly sorted sequence. */
  function Insert(x: Record, s: seq<Record>, o: Order): (r: seq<Record>)
    requires StrictlySorted(s, o)
    requires forall i :: 0 <= i < |s| ==> s[i].id != x.id
    ensures multiset(r) == multiset(s) + multiset{x}
    ensures StrictlySorted(r, o)
  {
    if s == [] then [x]
    else if Precedes(x, s[0], o) then
      PrependSorted(x, s, o);
      [x] + s
    else
      PrecedesTotal(x, s[0], o);
      var rest := Insert(x, s[1..], o);
      InsertBehind(x, s, rest, o);
      [s[0]] + rest
  }

  /** Inserting behind the head keeps the head first: it precedes both `x` and the rest of `s`. */
  lemma InsertBehind(x: Record, s: seq<Record>, rest: seq<Record>, o: Order)
    requires StrictlySorted(s, o) && s != [] && Precedes(s[0], x, o)
    requires multiset(rest) == multiset(s[1..]) + multiset{x} && StrictlySorted(rest, o)
    ensures multiset([s[0]] + rest) == multiset(s) + multiset{x}
    ensures StrictlySorted([s[0]] + rest, o)
  {
    assert s == [s[0]] + s[1..];
    if rest != [] {
      assert rest[0] in multiset(rest);
      if rest[0] != x {
        var j :| 0 <= j < |s[1..]| && s[1..][j] == rest[0];
        assert s[j + 1] == rest[0];
      }
    }
    PrependSorted(s[0], rest, o);
  }

  /** Every record of a permutation of `s[1..]` has an id other than `s[0]`'s. */
  lemma TailIdsDiffer(s: seq<Record>, rest: seq<Record>)
    requires DistinctIds(s) && s != []
    requires multiset(rest) == multiset(s[1..])
    ensures forall i :: 0 <= i < |rest| ==> rest[i].id != s[0].id
  {
    forall i | 0 <= i < |rest| ensures rest[i].id != s[0].id {
      assert rest[i] in multiset(s[1..]);
      var j :| 0 <= j < |s[1..]| && s[1..][j] == rest[i];
      assert s[j + 1] == rest[i];
    }
  }

  /** Insertion sort: a strictly sorted permutation of its input. */
  function Sort(s: seq<Record>, o: Order): (r: seq<Record>)
    requires DistinctIds(s)
    ensures multiset(r) == multiset(s)
    ensures StrictlySorted(r, o)
  {
    if s == [] then []
    else
      var rest := Sort(s[1..], o);
      TailIdsDiffer(s, rest);
      assert s == [s[0]] + s[1..];
      Insert(s[0], rest, o)
  }

  /** The keys of a table in ascending order. */
  function SortedKeys(keys: set<int>): (r: seq<int>)
    ensures forall i, j :: 0 <= i < j < |r| ==> r[i] < r[j]
    ensures forall k :: k in keys <==> k in r
    decreases |keys|
  {
    if keys == {} then []
    else
      var k := MaxKey(keys);
      SortedKeys(keys - {k}) + [k]
  }

  /** A full table scan in primary-key order. */
  function Scan(m: map<int, Record>): (r: seq<Record>)
    requires WellKeyed(m)
    ensures IdsAscending(r)
    ensures forall x :: x in r <==> x in m.Values
  {
    var ks := SortedKeys(m.Keys);
    var r := seq(|ks|, i requires 0 <= i < |ks| => m[ks[i]]);
    ScanCovers(m, ks, r);
    r
  }

  /** Every record of the table appears in its scan. */
  lemma ScanCovers(m: map<int, Record>, ks: seq<int>, r: seq<Record>)
    requires forall k :: k in m <==> k in ks
    requires |r| == |ks| && forall i :: 0 <= i < |ks| ==> ks[i] in m && r[i] == m[ks[i]]
    ensures forall x :: x in m.Values ==> x in r
  {
    forall k | k in m ensures m[k] in r {
      var i :| 0 <= i < |ks| && ks[i] == k;
      assert r[i] == m[k];
    }
  }

  lemma PrependAscending(x: Record, t: seq<Record>)
    requires IdsAscending(t)
    requires forall y :: y in t ==> x.id < y.id
    ensures IdsAscending([x] + t)
  {
    var u := [x] + t;
    forall i, j | 0 <= i < j < |u| ensures u[i].id < u[j].id {
      if i == 0 {
        assert u[j] == t[j - 1] && t[j - 1] in t;
      }
    }
  }

  /** The records of `s` that pass the filter, in their original order. */
  function Select(s: seq<Record>, f: Filter): (r: seq<Record>)
    ensures forall x :: x in r <==> x in s && Matches(x, f)
    ensures IdsAscending(s) ==> IdsAscending(r)
  {
    if s == [] then []
    else
      var rest := Select(s[1..], f);
      assert forall x :: x in s <==> x == s[0] || x in s[1..];
      if Matches(s[0], f) then
        assert IdsAscending(s) ==> IdsAscending([s[0]] + rest) by {
          if IdsAscending(s) {
            forall y | y in rest ensures s[0].id < y.id {
              var j :| 0 <= j < |s[1..]| && s[1..][j] == y;
              assert s[j + 1] == y;
            }
            PrependAscending(s[0], rest);
          }
        }
        [s[0]] + rest
      else
        rest
  }

  /**
   * The filtered set in query order: exactly the matching records of the
   * table, each once, strictly sorted by `o`.
   */
  function Ordered(m: map<int, Record>, f: Filter, o: Order): (r: seq<Record>)
    requires WellKeyed(m)
    ensures StrictlySorted(r, o)
    ensures forall x :: x in r <==> x in m.Values && Matches(x, f)
  {
    var s := Select(Scan(m), f);
    var r := Sort(s, o);
    assert forall x :: x in r <==> x in s by {
      forall x ensures x in r <==> x in s {
        assert x in r <==> x in multiset(r);
      }
    }
    r
  }

  /** A strictly sorted sequence holds no record twice. */
  lemma SortedNoDuplicates(s: seq<Record>, o: Order)
    requires StrictlySorted(s, o)
    ensures forall i, j :: 0 <= i < j < |s| ==> s[i] != s[j]
  {
    forall i, j | 0 <= i < j < |s| ensures s[i] != s[j] {
      PrecedesAsymmetric(s[i], s[j], o);
    }
  }

  /**
   * The query result does not depend on how it was computed: any two
   * strictly sorted sequences with the same members are equal.
   */
  lemma {:induction false} SortedUnique(s: seq<Record>, t: seq<Record>, o: Order)
    requires StrictlySorted(s, o) && StrictlySorted(t, o)
    requires forall x :: x in s <==> x in t
    ensures s == t
    decreases |s|
  {
    if s != [] {
      assert t != [] by { assert s[0] in t; }
      assert t[0] in s && s[0] in t;
      if s[0] != t[0] {
        var i :| 0 <= i < |s| && s[i] == t[0];
        var j :| 0 <= j < |t| && t[j] == s[0];
        assert i > 0 && j > 0;
        PrecedesAsymmetric(s[0], s[i], o);
        assert false;
      }
      SortedNoDuplicates(s, o);
      SortedNoDuplicates(t, o);
      forall x ensures x in s[1..] <==> x in t[1..] {
        assert x in s <==> x == s[0] || x in s[1..];
        assert x in t <==> x == t[0] || x in t[1..];
        if x in s[1..] { var i :| 1 <= i < |s| && s[i] == x; }
        if x in t[1..] { var i :| 1 <= i < |t| && t[i] == x; }
      }
      SortedUnique(s[1..], t[1..], o);
      assert s == [s[0]] + s[1..] && t == [t[0]] + t[1..];
    } else {
      HeadIsMember(t);
    }
  }

  lemma HeadIsMember<T>(t: seq<T>)
    ensures t != [] ==> t[0] in t
  {
  }

  /** The ids of the table rows that pass the filter. */
  function MatchingIds(m: map<int, Record>, f: Filter): set<int>
  {
    set k | k in m && Matches(m[k], f)
  }

  function IdsOf(s: seq<Record>): set<int>
  {
    if s == [] then {} else {s[0].id} + IdsOf(s[1..])
  }

  lemma {:induction false} IdsOfMembers(s: seq<Record>, k: int)
    ensures k in IdsOf(s) <==> exists x :: x in s && x.id == k
    decreases |s|
  {
    if s != [] {
      IdsOfMembers(s[1..], k);
      assert forall x :: x in s <==> x == s[0] || x in s[1..];
    }
  }

  lemma {:induction false} DistinctIdsCount(s: seq<Record>)
    requires DistinctIds(s)
    ensures |IdsOf(s)| == |s|
    decreases |s|
  {
    if s != [] {
      DistinctIdsCount(s[1..]);
      assert s[0].id !in IdsOf(s[1..]) by {
        IdsOfMembers(s[1..], s[0].id);
        forall x | x in s[1..] ensures x.id != s[0].id {
          var i :| 0 <= i < |s[1..]| && s[1..][i] == x;
          assert s[i + 1] == x;
        }
      }
    }
  }

  /** The length of the query result is the number of matching rows: the `total` of a listing. */
  lemma OrderedCount(m: map<int, Record>, f: Filter, o: Order)
    requires WellKeyed(m)
    ensures |Ordered(m, f, o)| == |MatchingIds(m, f)|
  {
    var r := Ordered(m, f, o);
    SortedNoDuplicates(r, o);
    assert DistinctIds(r) by {
      forall i, j | 0 <= i < j < |r| ensures r[i].id != r[j].id {
        assert r[i] in m.Values && r[j] in m.Values;
      }
    }
    DistinctIdsCount(r);
    assert IdsOf(r) == MatchingIds(m, f) by {
      forall k ensures k in IdsOf(r) <==> k in MatchingIds(m, f) {
        IdsOfMembers(r, k);
        if k in MatchingIds(m, f) {
          assert m[k] in m.Values;
          assert m[k] in r;
        }
      }
    }
  }

  /** The rows skipped before a page: OFFSET (page - 1) * size. */
  function Offset(page: int, size: int): (n: int)
    requires page >= 1 && size >= 1
    ensures n >= 0
  {
    (page - 1) * size
  }

  lemma OffsetNext(page: int, size: int)
    requires page >= 1 && size >= 1
    ensures Offset(page + 1, size) == Offset(page, size) + size
  {
    assert page * size == (page - 1) * size + size;
  }

  /** OFFSET (page-1)*size LIMIT size over `s`. */
  function Window<T>(s: seq<T>, page: int, size: int): (r: seq<T>)
    requires page >= 1 && size >= 1
    ensures |r| == if Offset(page, size) >= |s| then 0
                   else if |s| - Offset(page, size) < size then |s| - Offset(page, size)
                   else size
    ensures forall i :: 0 <= i < |r| ==> r[i] == s[Offset(page, size) + i]
  {
    var offset := Offset(page, size);
    if offset >= |s| then []
    else if offset + size <= |s| then s[offset..offset + size]
    else s[offset..]
  }

  /** A page is a contiguous slice of at most `size` elements. */
  lemma WindowSlice<T>(s: seq<T>, page: int, size: int) returns (lo: int, hi: int)
    requires page >= 1 && size >= 1
    ensures 0 <= lo <= hi <= |s| && hi - lo <= size
    ensures lo == (if Offset(page, size) <= |s| then Offset(page, size) else |s|)
    ensures hi == (if Offset(page, size) + size <= |s| then Offset(page, size) + size else |s|)
    ensures Window(s, page, size) == s[lo..hi]
  {
    var off := Offset(page, size);
    if off >= |s| {
      lo, hi := |s|, |s|;
    } else if off + size <= |s| {
      lo, hi := off, off + size;
    } else {
      lo, hi := off, |s|;
    }
  }

  /** Pages 1..n of `s` laid end to end. */
  function Pages<T>(s: seq<T>, size: int, n: nat): seq<T>
    requires size >= 1
  {
    if n == 0 then [] else Pages(s, size, n - 1) + Window(s, n, size)
  }

  /** The first n pages are exactly the first n*size elements (or all of them). */
  lemma {:induction false} PagesArePrefix<T>(s: seq<T>, size: int, n: nat)
    requires size >= 1
    ensures var end := Offset(n + 1, size);
      Pages(s, size, n) == s[..if end <= |s| then end else |s|]
  {
    if n > 0 {
      PagesArePrefix(s, size, n - 1);
      OffsetNext(n, size);
      var a, b := WindowSlice(s, n, size);
      assert s[..b] == s[..a] + s[a..b];
    }
  }

  /**
   * Paging through `s` until the first empty page visits every element
   * exactly once, in order: each page before `n` is non-empty, page `n` is
   * empty, and the pages before it concatenate to `s`.
   */
  lemma PagesCover<T>(s: seq<T>, size: int)
    requires size >= 1
    ensures var n := (|s| + size - 1) / size + 1;
      && Pages(s, size, n - 1) == s
      && Window(s, n, size) == []
      && forall p :: 1 <= p < n ==> Window(s, p, size) != []
  {
    var q := (|s| + size - 1) / size;
    CeilingBounds(|s|, size);
    PagesArePrefix(s, size, q);
    assert Offset(q + 1, size) == q * size;
    forall p | 1 <= p < q + 1 ensures Window(s, p, size) != [] {
      MulMonotone(p - 1, q - 1, size);
    }
  }

  /** q = ceil(len / size) satisfies q*size >= len and (q-1)*size < len. */
  lemma CeilingBounds(len: nat, size: int)
    requires size >= 1
    ensures var q := (len + size - 1) / size;
      q >= 0 && q * size >= len && (q - 1) * size < len
  {
    var q := (len + size - 1) / size;
    var rem := (len + size - 1) % size;
    assert len + size - 1 == q * size + rem;
    assert (q - 1) * size == q * size - size;
  }

  lemma MulMonotone(a: int, b: int, c: int)
    requires a <= b && c >= 0
    ensures a * c <= b * c
  {
    assert b * c - a * c == (b - a) * c;
  }
}
