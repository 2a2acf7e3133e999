/**
 The `visitors` table and the read-only queries `DatabaseManager` runs on it:
 `get_visitor_by_id` (SELECT * by id), `get_visitors` (the optionally
 date-filtered listing, newest first, projected to seven columns) and
 `get_stats` (the two counts). Each query is a function of the table.
 */
module Visitors {
  import opened Wrappers
  import opened Strings
  import opened Timestamps

  /** The seven columns a form submits: `data` in the source. */
  datatype Visitor = Visitor(
    fullname: string,
    email: string,
    phone: string,
    address: string,
    meetingWith: string,
    department: string,
    purpose: string)

  /** A stored row apart from its id: the submitted columns and `created_at`. */
  datatype Row = Row(visitor: Visitor, createdAt: string)

  /** The table, keyed by its INTEGER PRIMARY KEY. */
  type Table = map<int, Row>

  /** The nine columns of `SELECT *`, in table order. */
  datatype Record = Record(
    id: int,
    fullname: string,
    email: string,
    phone: string,
    address: string,
    meetingWith: string,
    department: string,
    purpose: string,
    createdAt: string)

  /** The listing's seven columns, in the order the SELECT names them:
      id, fullname, email, phone, created_at, meeting_with, department. */
  datatype Summary = Summary(
    id: int,
    fullname: string,
    email: string,
    phone: string,
    createdAt: string,
    meetingWith: string,
    department: string)

  /** The `filters` dictionary: the two day strings typed in the filter bar. */
  datatype DateRange = DateRange(from: string, to: string)

  datatype Stats = Stats(total: nat, today: nat)

  function ToRecord(id: int, row: Row): Record
  {
    var v := row.visitor;
    Record(id, v.fullname, v.email, v.phone, v.address, v.meetingWith, v.department, v.purpose, row.createdAt)
  }

  function Summarize(id: int, row: Row): Summary
  {
    var v := row.visitor;
    Summary(id, v.fullname, v.email, v.phone, row.createdAt, v.meetingWith, v.department)
  }

  /** The submitted columns of a fetched record (what the edit form is filled with). */
  function RecordVisitor(r: Record): Visitor
  {
    Visitor(r.fullname, r.email, r.phone, r.address, r.meetingWith, r.department, r.purpose)
  }

  /** Every `created_at` has the shape the clock produces. */
  ghost predicate WellStamped(t: Table)
  {
    forall k :: k in t ==> IsTimestamp(t[k].createdAt)
  }

  // ---------------------------------------------------------------------
  // get_visitor_by_id

  /** `SELECT * FROM visitors WHERE id = ?` then `fetchone()`: the whole row,
      every column as stored, or None when no row has that id. */
  function GetVisitorById(t: Table, id: int): (r: Option<Record>)
    ensures r.Some? <==> id in t
    ensures r.Some? ==>
      r.value.id == id && RecordVisitor(r.value) == t[id].visitor && r.value.createdAt == t[id].createdAt
  {
    if id in t then Some(ToRecord(id, t[id])) else None
  }

  // ---------------------------------------------------------------------
  // get_visitors

  /** The filter is used only when `filters` is given and both of its
      strings are non-empty (Python truthiness). */
  predicate FilterApplies(filters: Option<DateRange>)
  {
    filters.Some? && filters.value.from != "" && filters.value.to != ""
  }

  predicate Matches(filters: Option<DateRange>, row: Row)
  {
    !FilterApplies(filters) || InWindow(row.createdAt, filters.value.from, filters.value.to)
  }

  /** The WHERE clause: the rows the listing keeps. */
  function Where(t: Table, filters: Option<DateRange>): (w: Table)
    ensures forall k :: k in w <==> k in t && Matches(filters, t[k])
    ensures forall k :: k in w ==> w[k] == t[k]
    ensures !FilterApplies(filters) ==> w == t
    ensures FilterApplies(filters) && WellStamped(t) && IsDate(filters.value.from) && IsDate(filters.value.to) ==>
      forall k :: k in w <==>
        k in t && LexLe(filters.value.from, t[k].createdAt[..10]) && LexLe(t[k].createdAt[..10], filters.value.to)
  {
    var w := map k | k in t && Matches(filters, t[k]) :: t[k];
    if !FilterApplies(filters) then
      assert w.Keys == t.Keys;
      w
    else if IsDate(filters.value.from) && IsDate(filters.value.to) then
      DayWindows(t, filters.value.from, filters.value.to);
      assert filters == Some(DateRange(filters.value.from, filters.value.to));
      w
    else
      w
  }

  /** Row `i` is listed before row `j`: newer `created_at` first. SQL leaves
      the order of equal timestamps open; the model lists them by ascending
      id, the order in which SQLite scans the table. */
  predicate Before(t: Table, i: int, j: int)
    requires i in t && j in t
  {
    LexLt(t[j].createdAt, t[i].createdAt) || (t[i].createdAt == t[j].createdAt && i < j)
  }

  predicate IsFirst(t: Table, k: int)
  {
    k in t && forall j :: j in t && j != k ==> Before(t, k, j)
  }

  lemma BeforeTotal(t: Table, i: int, j: int)
    requires i in t && j in t && i != j
    ensures Before(t, i, j) || Before(t, j, i)
  {
    LexLeTotal(t[i].createdAt, t[j].createdAt);
  }

  lemma BeforeTransitive(t: Table, i: int, j: int, k: int)
    requires i in t && j in t && k in t
    requires Before(t, i, j) && Before(t, j, k)
    ensures Before(t, i, k)
  {
    var a, b, c := t[i].createdAt, t[j].createdAt, t[k].createdAt;
    if LexLt(b, a) && LexLt(c, b) {
      LexLeTransitive(c, b, a);
      if c == a { LexLeAntisymmetric(a, b); }
    }
  }

  lemma BeforeAsymmetric(t: Table, i: int, j: int)
    requires i in t && j in t && Before(t, i, j)
    ensures !Before(t, j, i)
  {
    if LexLt(t[j].createdAt, t[i].createdAt) && LexLt(t[i].createdAt, t[j].createdAt) {
      LexLeAntisymmetric(t[i].createdAt, t[j].createdAt);
    }
  }

  /** A table with a row has a key. */
  lemma HasKey(t: Table)
    requires |t| > 0
    ensures exists k :: k in t
  {
    if forall k :: k !in t {
      assert false;
    }
  }

  ghost function SomeKey(t: Table): (k: int)
    requires |t| > 0
    ensures k in t
  {
    HasKey(t);
    var k :| k in t;
    k
  }

  lemma {:induction false} FirstExists(t: Table, k: int)
    requires k in t
    ensures exists f :: IsFirst(t, f)
    decreases |t|
  {
    var rest := t - {k};
    assert rest.Keys == t.Keys - {k};
    if |rest| == 0 {
      assert forall j :: j in t && j != k ==> j in rest;
      assert IsFirst(t, k);
    } else {
      var j0 := SomeKey(rest);
      FirstExists(rest, j0);
      var f :| IsFirst(rest, f);
      BeforeTotal(t, f, k);
      if Before(t, f, k) {
        forall j | j in t && j != f ensures Before(t, f, j) {
          if j != k {
            assert j in rest && Before(rest, f, j);
          }
        }
        assert IsFirst(t, f);
      } else {
        forall j | j in t && j != k ensures Before(t, k, j) {
          if j != f {
            assert j in rest && Before(rest, f, j);
            BeforeTransitive(t, k, f, j);
          }
        }
        assert IsFirst(t, k);
      }
    }
  }

  lemma FirstIsUnique(t: Table)
    ensures forall a, b :: IsFirst(t, a) && IsFirst(t, b) ==> a == b
  {
    forall a, b | IsFirst(t, a) && IsFirst(t, b) ensures a == b {
      if a != b {
        BeforeAsymmetric(t, a, b);
      }
    }
  }

  /** The row ORDER BY puts first. */
  function FirstKey(t: Table): (k: int)
    requires |t| > 0
    ensures IsFirst(t, k)
  {
    FirstExists(t, SomeKey(t));
    FirstIsUnique(t);
    var k :| IsFirst(t, k);
    k
  }

  /** Every entry of `r` is a row of `t`, projected to the listing's columns. */
  ghost predicate Projects(t: Table, r: seq<Summary>)
  {
    forall i :: 0 <= i < |r| ==> r[i].id in t && r[i] == Summarize(r[i].id, t[r[i].id])
  }

  /** Every row of `t` appears in `r`. */
  ghost predicate Covers(t: Table, r: seq<Summary>)
  {
    forall k :: k in t ==> exists i :: 0 <= i < |r| && r[i].id == k
  }

  /** Each entry of `r` comes strictly before every later one, so no row
      appears twice. */
  ghost predicate InOrder(t: Table, r: seq<Summary>)
  {
    forall i, j :: 0 <= i < j < |r| ==> r[i].id in t && r[j].id in t && Before(t, r[i].id, r[j].id)
  }

  /** `r` lists every row of `t` exactly once, in ORDER BY order. */
  ghost predicate ListsTable(t: Table, r: seq<Summary>)
  {
    |r| == |t| && Projects(t, r) && Covers(t, r) && InOrder(t, r)
  }

  lemma ConsProjects(t: Table, k: int, tail: seq<Summary>)
    requires k in t && Projects(t - {k}, tail)
    ensures Projects(t, [Summarize(k, t[k])] + tail)
  {
    var r := [Summarize(k, t[k])] + tail;
    forall i | 1 <= i < |r| ensures r[i].id in t && r[i] == Summarize(r[i].id, t[r[i].id]) {
      assert r[i] == tail[i - 1];
    }
  }

  lemma ConsCovers(t: Table, k: int, tail: seq<Summary>)
    requires k in t && Covers(t - {k}, tail)
    ensures Covers(t, [Summarize(k, t[k])] + tail)
  {
    var r := [Summarize(k, t[k])] + tail;
    forall j | j in t ensures exists i :: 0 <= i < |r| && r[i].id == j {
      if j == k {
        assert r[0].id == j;
      } else {
        assert j in t - {k};
        var i :| 0 <= i < |tail| && tail[i].id == j;
        assert r[i + 1].id == j;
      }
    }
  }

  lemma ConsInOrder(t: Table, k: int, tail: seq<Summary>)
    requires IsFirst(t, k) && Projects(t - {k}, tail) && InOrder(t - {k}, tail)
    ensures InOrder(t, [Summarize(k, t[k])] + tail)
  {
    var r := [Summarize(k, t[k])] + tail;
    forall i, j | 0 <= i < j < |r| ensures r[i].id in t && r[j].id in t && Before(t, r[i].id, r[j].id) {
      assert r[j] == tail[j - 1];
      if i > 0 {
        assert r[i] == tail[i - 1];
        assert Before(t - {k}, tail[i - 1].id, tail[j - 1].id);
      } else {
        assert r[j].id in t - {k};
      }
    }
  }

  /** `ORDER BY created_at DESC` over a set of rows, projected to the
      listing's columns. */
  function Ordered(t: Table): (r: seq<Summary>)
    ensures |r| == |t|
    decreases |t|
  {
    if |t| == 0 then
      []
    else
      var k := FirstKey(t);
      var rest := t - {k};
      assert rest.Keys == t.Keys - {k};
      [Summarize(k, t[k])] + Ordered(rest)
  }

  lemma OrderedUnfold(t: Table)
    requires |t| > 0
    ensures var k := FirstKey(t);
      Ordered(t) == [Summarize(k, t[k])] + Ordered(t - {k})
  {
  }

  /** Ordering lists every row exactly once, newest first. */
  lemma {:induction false} OrderedListsTable(t: Table)
    ensures ListsTable(t, Ordered(t))
    decreases |t|
  {
    if |t| > 0 {
      var k := FirstKey(t);
      var rest := t - {k};
      assert rest.Keys == t.Keys - {k};
      OrderedListsTable(rest);
      OrderedUnfold(t);
      var tail := Ordered(rest);
      ConsProjects(t, k, tail);
      ConsCovers(t, k, tail);
      ConsInOrder(t, k, tail);
    }
  }

  /** Listing order is strictly decreasing in (created_at, -id), hence
      non-increasing in `created_at` and without repeated ids. */
  lemma ListedNewestFirst(t: Table, r: seq<Summary>, i: int, j: int)
    requires ListsTable(t, r) && 0 <= i < j < |r|
    ensures LexLe(r[j].createdAt, r[i].createdAt) && r[i].id != r[j].id
  {
    assert Before(t, r[i].id, r[j].id);
    assert r[i] == Summarize(r[i].id, t[r[i].id]) && r[j] == Summarize(r[j].id, t[r[j].id]);
    LexLeReflexive(r[i].createdAt);
  }

  /** `get_visitors(filters)`: the listing. */
  function GetVisitors(t: Table, filters: Option<DateRange>): (r: seq<Summary>)
    ensures |r| == |Where(t, filters)| && |r| <= |t|
    ensures !FilterApplies(filters) ==> |r| == |t|
  {
    var w := Where(t, filters);
    assert |w| == |w.Keys| && |t| == |t.Keys|;
    SubsetSize(w.Keys, t.Keys);
    Ordered(w)
  }

  /** What `get_visitors` returns: each row that passes the filter, exactly
      once, projected to the listing's columns; without an applicable
      filter, every row. */
  lemma ListingContents(t: Table, filters: Option<DateRange>)
    ensures var r := GetVisitors(t, filters);
      && (forall i :: 0 <= i < |r| ==>
            r[i].id in t && Matches(filters, t[r[i].id]) && r[i] == Summarize(r[i].id, t[r[i].id]))
      && (forall k :: k in t && Matches(filters, t[k]) ==> exists i :: 0 <= i < |r| && r[i].id == k)
      && |r| == |Where(t, filters)|
      && (!FilterApplies(filters) ==> |r| == |t|)
  {
    ListingRows(t, filters);
    ListingCovers(t, filters);
  }

  lemma ListingRows(t: Table, filters: Option<DateRange>)
    ensures var r := GetVisitors(t, filters);
      forall i :: 0 <= i < |r| ==>
        r[i].id in t && Matches(filters, t[r[i].id]) && r[i] == Summarize(r[i].id, t[r[i].id])
  {
    var w := Where(t, filters);
    var r := Ordered(w);
    assert r == GetVisitors(t, filters);
    OrderedListsTable(w);
    assert Projects(w, r);
    forall i | 0 <= i < |r|
      ensures r[i].id in t && Matches(filters, t[r[i].id]) && r[i] == Summarize(r[i].id, t[r[i].id])
    {
      assert r[i].id in w && w[r[i].id] == t[r[i].id];
    }
  }

  lemma ListingCovers(t: Table, filters: Option<DateRange>)
    ensures var r := GetVisitors(t, filters);
      forall k :: k in t && Matches(filters, t[k]) ==> exists i :: 0 <= i < |r| && r[i].id == k
  {
    var w := Where(t, filters);
    var r := Ordered(w);
    assert r == GetVisitors(t, filters);
    OrderedListsTable(w);
    assert Covers(w, r);
    forall k | k in t && Matches(filters, t[k]) ensures exists i :: 0 <= i < |r| && r[i].id == k {
      assert k in w;
    }
  }

  /** The listing is newest first and names no row twice. */
  lemma ListingOrder(t: Table, filters: Option<DateRange>)
    ensures var r := GetVisitors(t, filters);
      && (forall i, j :: 0 <= i < j < |r| ==> r[i].id != r[j].id)
      && (forall i, j :: 0 <= i < j < |r| ==> LexLe(r[j].createdAt, r[i].createdAt))
  {
    var w := Where(t, filters);
    var r := Ordered(w);
    assert r == GetVisitors(t, filters);
    OrderedListsTable(w);
    forall i, j | 0 <= i < j < |r| ensures LexLe(r[j].createdAt, r[i].createdAt) && r[i].id != r[j].id {
      ListedNewestFirst(w, r, i, j);
    }
  }

  /** A row is listed exactly when it passes the filter. */
  lemma ListedIff(t: Table, filters: Option<DateRange>, k: int)
    ensures var r := GetVisitors(t, filters);
      (exists i :: 0 <= i < |r| && r[i].id == k) <==> k in t && Matches(filters, t[k])
  {
    var r := GetVisitors(t, filters);
    ListingContents(t, filters);
    if exists i :: 0 <= i < |r| && r[i].id == k {
      var i :| 0 <= i < |r| && r[i].id == k;
      assert r[i].id in t && Matches(filters, t[r[i].id]);
    }
  }

  /** `a` is `b` with some elements left out, the rest in the same order. */
  predicate IsSubsequence<T(==)>(a: seq<T>, b: seq<T>)
  {
    a == [] || (b != [] && ((a[0] == b[0] && IsSubsequence(a[1..], b[1..])) || IsSubsequence(a, b[1..])))
  }

  /** `s` holds some of the rows of `t`, unchanged. */
  ghost predicate SubTable(s: Table, t: Table)
  {
    forall k :: k in s ==> k in t && s[k] == t[k]
  }

  /** The first of all rows is also the first of any rows that include it. */
  lemma FirstOfSubTable(s: Table, t: Table, k: int)
    requires SubTable(s, t) && IsFirst(t, k) && k in s
    ensures |s| > 0 && FirstKey(s) == k
  {
    assert IsFirst(s, k);
    FirstIsUnique(s);
  }

  lemma SubsequenceCons<T>(x: T, a: seq<T>, b: seq<T>)
    requires IsSubsequence(a, b)
    ensures IsSubsequence([x] + a, [x] + b)
  {
    assert ([x] + a)[1..] == a && ([x] + b)[1..] == b;
  }

  lemma SubsequenceSkip<T>(x: T, a: seq<T>, b: seq<T>)
    requires IsSubsequence(a, b)
    ensures IsSubsequence(a, [x] + b)
  {
    assert ([x] + b)[1..] == b;
  }

  /** Ordering fewer rows lists them in the order they have among all rows. */
  lemma {:induction false} OrderedSubTable(s: Table, t: Table)
    requires SubTable(s, t)
    ensures IsSubsequence(Ordered(s), Ordered(t))
    decreases |t|, 1
  {
    if |t| == 0 {
      assert s.Keys <= t.Keys by {
        forall k | k in s.Keys ensures k in t.Keys {
          assert k in s;
        }
      }
      SubsetSize(s.Keys, t.Keys);
      assert Ordered(s) == [];
    } else if FirstKey(t) in s {
      OrderedSubTableKeep(s, t);
    } else {
      OrderedSubTableSkip(s, t);
    }
  }

  /** The newest row of `t` is also in `s`: both listings start with it. */
  lemma {:induction false} OrderedSubTableKeep(s: Table, t: Table)
    requires SubTable(s, t) && |t| > 0 && FirstKey(t) in s
    ensures IsSubsequence(Ordered(s), Ordered(t))
    decreases |t|, 0
  {
    var k := FirstKey(t);
    assert (t - {k}).Keys == t.Keys - {k};
    FirstOfSubTable(s, t, k);
    OrderedUnfold(t);
    OrderedUnfold(s);
    OrderedSubTable(s - {k}, t - {k});
    SubsequenceCons(Summarize(k, t[k]), Ordered(s - {k}), Ordered(t - {k}));
  }

  /** The newest row of `t` is not in `s`: the full listing skips it. */
  lemma {:induction false} OrderedSubTableSkip(s: Table, t: Table)
    requires SubTable(s, t) && |t| > 0 && FirstKey(t) !in s
    ensures IsSubsequence(Ordered(s), Ordered(t))
    decreases |t|, 0
  {
    var k := FirstKey(t);
    assert (t - {k}).Keys == t.Keys - {k};
    OrderedUnfold(t);
    OrderedSubTable(s, t - {k});
    SubsequenceSkip(Summarize(k, t[k]), Ordered(s), Ordered(t - {k}));
  }

  /** Filtering never reorders: the filtered listing is the full listing
      with rows left out. */
  lemma FilteredIsSubsequence(t: Table, filters: Option<DateRange>)
    ensures IsSubsequence(GetVisitors(t, filters), GetVisitors(t, None))
  {
    assert Where(t, None) == t;
    OrderedSubTable(Where(t, filters), t);
  }

  /** Removing a row never reorders the others: the listing after
      `delete_visitor` is the listing before it with at most that row left
      out. */
  lemma DeleteKeepsOrder(t: Table, id: int, filters: Option<DateRange>)
    ensures IsSubsequence(GetVisitors(t - {id}, filters), GetVisitors(t, filters))
    ensures forall k :: k != id ==> (ListsId(GetVisitors(t - {id}, filters), k) <==> ListsId(GetVisitors(t, filters), k))
  {
    OrderedSubTable(Where(t - {id}, filters), Where(t, filters));
    forall k | k != id
      ensures ListsId(GetVisitors(t - {id}, filters), k) <==> ListsId(GetVisitors(t, filters), k)
    {
      ListedIff(t - {id}, filters, k);
      ListedIff(t, filters, k);
      if k in t {
        assert (t - {id})[k] == t[k];
      }
    }
  }

  /** The listing has an entry for the row with id `k`. */
  predicate ListsId(r: seq<Summary>, k: int)
  {
    exists i :: 0 <= i < |r| && r[i].id == k
  }

  /** Two tables with the same ids and the same `created_at` for each. */
  ghost predicate SameStamps(s: Table, t: Table)
  {
    s.Keys == t.Keys && forall k :: k in t ==> s[k].createdAt == t[k].createdAt
  }

  /** The order of a listing depends only on ids and timestamps. */
  lemma {:induction false} SameStampsSameOrder(s: Table, t: Table)
    requires SameStamps(s, t)
    ensures |Ordered(s)| == |Ordered(t)|
    ensures forall i :: 0 <= i < |Ordered(s)| ==> Ordered(s)[i].id == Ordered(t)[i].id
    decreases |t|
  {
    assert |s| == |s.Keys| && |t| == |t.Keys|;
    if |t| > 0 {
      var k := FirstKey(t);
      forall j | j in s && j != k ensures Before(s, k, j) {
        assert Before(t, k, j);
      }
      assert k in t.Keys && IsFirst(s, k);
      FirstIsUnique(s);
      assert FirstKey(s) == k;
      assert (s - {k}).Keys == s.Keys - {k} && (t - {k}).Keys == t.Keys - {k};
      SameStampsSameOrder(s - {k}, t - {k});
      OrderedUnfold(s);
      OrderedUnfold(t);
    }
  }

  /** The filter looks at `created_at` only. */
  lemma WhereSameStamps(s: Table, t: Table, filters: Option<DateRange>)
    requires SameStamps(s, t)
    ensures SameStamps(Where(s, filters), Where(t, filters))
  {
    var ws, wt := Where(s, filters), Where(t, filters);
    forall k ensures k in ws <==> k in wt {
      if k in t {
        assert Matches(filters, s[k]) == Matches(filters, t[k]);
      }
    }
    assert ws.Keys == wt.Keys;
  }

  /** `update_visitor` never moves a row: the listing after it has the same
      ids in the same order, whatever the filter. */
  lemma UpdateKeepsOrder(t: Table, id: int, v: Visitor, filters: Option<DateRange>)
    requires id in t
    ensures var before, after := GetVisitors(t, filters), GetVisitors(t[id := Row(v, t[id].createdAt)], filters);
      |after| == |before| && forall i :: 0 <= i < |after| ==> after[i].id == before[i].id
  {
    var t' := t[id := Row(v, t[id].createdAt)];
    assert t'.Keys == t.Keys;
    assert SameStamps(t', t);
    WhereSameStamps(t', t, filters);
    SameStampsSameOrder(Where(t', filters), Where(t, filters));
  }

  /** On clock-made timestamps and well-formed day strings the filter keeps
      exactly the rows whose day lies between `from` and `to`, both included. */
  lemma FilterIsDayRange(t: Table, from: string, to: string, k: int)
    requires WellStamped(t) && IsDate(from) && IsDate(to) && k in t
    ensures Matches(Some(DateRange(from, to)), t[k]) <==>
      LexLe(from, t[k].createdAt[..10]) && LexLe(t[k].createdAt[..10], to)
  {
    WindowIsDayRange(t[k].createdAt, from, to);
  }

  lemma DayWindows(t: Table, from: string, to: string)
    requires IsDate(from) && IsDate(to)
    ensures WellStamped(t) ==> forall k :: k in t ==> (Matches(Some(DateRange(from, to)), t[k]) <==>
      LexLe(from, t[k].createdAt[..10]) && LexLe(t[k].createdAt[..10], to))
  {
    if WellStamped(t) {
      forall k | k in t ensures Matches(Some(DateRange(from, to)), t[k]) <==>
        LexLe(from, t[k].createdAt[..10]) && LexLe(t[k].createdAt[..10], to)
      {
        FilterIsDayRange(t, from, to, k);
      }
    }
  }

  /** A listed row agrees with what `get_visitor_by_id` returns for its id. */
  lemma ListingAgreesWithLookup(t: Table, filters: Option<DateRange>, i: int)
    requires 0 <= i < |GetVisitors(t, filters)|
    ensures var s := GetVisitors(t, filters)[i];
      GetVisitorById(t, s.id).Some? &&
      Summarize(s.id, Row(RecordVisitor(GetVisitorById(t, s.id).value), GetVisitorById(t, s.id).value.createdAt)) == s
  {
    ListingContents(t, filters);
  }

  /** As written, a day typed in another format is compared as text: a
      US-style day matches no clock-made timestamp, so the page shows an
      empty table instead of falling back to every row. */
  lemma MalformedDayEmptiesListing()
    ensures var t := map[1 := Row(Visitor("Ada", "", "555", "", "", "", ""), "2024-01-05 09:30:00")];
      GetVisitors(t, Some(DateRange("01/05/2024", "01/05/2024"))) == [] && |GetVisitors(t, None)| == 1
  {
    var t := map[1 := Row(Visitor("Ada", "", "555", "", "", "", ""), "2024-01-05 09:30:00")];
    var f := Some(DateRange("01/05/2024", "01/05/2024"));
    assert !LexLe(t[1].createdAt, "01/05/2024" + DayEnd);
    assert Where(t, f) == map[];
  }

  /** The listing the Manage Visitors page means to show: the filtered one
      when both days are well formed, and every row when a day is not.
      "Well formed" is the `IsDate` shape only: a day such as "2024-13-45"
      passes it and is filtered as text. */
  function DisplayedListing(t: Table, filters: Option<DateRange>): (r: seq<Summary>)
    ensures |r| <= |t|
    ensures FilterApplies(filters) && !(IsDate(filters.value.from) && IsDate(filters.value.to)) ==> |r| == |t|
  {
    if FilterApplies(filters) && !(IsDate(filters.value.from) && IsDate(filters.value.to)) then
      GetVisitors(t, None)
    else
      GetVisitors(t, filters)
  }

  /** A row is displayed exactly when no filter applies, a day is malformed,
      or its day lies between the two days, both included. */
  lemma DisplayedListingContents(t: Table, filters: Option<DateRange>, k: int)
    requires WellStamped(t) && k in t
    ensures var r := DisplayedListing(t, filters);
      (exists i :: 0 <= i < |r| && r[i].id == k) <==>
        (!FilterApplies(filters) || !(IsDate(filters.value.from) && IsDate(filters.value.to)) ||
         (LexLe(filters.value.from, t[k].createdAt[..10]) && LexLe(t[k].createdAt[..10], filters.value.to)))
  {
    if FilterApplies(filters) && !(IsDate(filters.value.from) && IsDate(filters.value.to)) {
      assert DisplayedListing(t, filters) == GetVisitors(t, None);
      ListedIff(t, None, k);
    } else {
      assert DisplayedListing(t, filters) == GetVisitors(t, filters);
      ListedIff(t, filters, k);
      if FilterApplies(filters) {
        assert filters == Some(DateRange(filters.value.from, filters.value.to));
        FilterIsDayRange(t, filters.value.from, filters.value.to, k);
      }
    }
  }

  // ---------------------------------------------------------------------
  // get_stats

  /** `date(created_at) = today` holds of the row. */
  predicate StampedOn(row: Row, today: string)
  {
    SqlDate(row.createdAt) == Some(today)
  }

  /** Ids of the rows with `date(created_at)` equal to `today`. */
  function TodayIds(t: Table, today: string): (ids: set<int>)
    ensures ids <= t.Keys
    ensures forall k :: k in ids <==> k in t && StampedOn(t[k], today)
    ensures WellStamped(t) && IsDate(today) ==> ids == Where(t, Some(DateRange(today, today))).Keys
  {
    var ids := set k | k in t && StampedOn(t[k], today);
    if IsDate(today) then
      TodayWindow(t, today);
      SameKeys(ids, Where(t, Some(DateRange(today, today))));
      ids
    else
      ids
  }

  lemma SameKeys(ids: set<int>, w: Table)
    ensures (forall k :: k in ids <==> k in w) ==> ids == w.Keys
  {
    if forall k :: k in ids <==> k in w {
      assert forall k :: k in ids <==> k in w.Keys;
    }
  }

  lemma TodayWindow(t: Table, today: string)
    requires IsDate(today)
    ensures WellStamped(t) ==>
      forall k :: k in t ==> (Matches(Some(DateRange(today, today)), t[k]) <==> StampedOn(t[k], today))
  {
    if WellStamped(t) {
      forall k | k in t ensures Matches(Some(DateRange(today, today)), t[k]) <==> StampedOn(t[k], today) {
        OneDayWindow(t[k], today);
      }
    }
  }

  lemma SubsetSize(a: set<int>, b: set<int>)
    requires a <= b
    ensures |a| <= |b|
  {
    assert b == a + (b - a) && a * (b - a) == {};
  }

  /** `get_stats(today)`: the number of rows, and of rows stamped on `today`
      (the current local date, passed in). */
  function GetStats(t: Table, today: string): (r: Stats)
    ensures r.total == |t|
    ensures r.today == |TodayIds(t, today)|
    ensures r.today <= r.total
  {
    SubsetSize(TodayIds(t, today), t.Keys);
    Stats(|t|, |TodayIds(t, today)|)
  }

  /** For a clock-made timestamp, the one-day window `[today, today]` holds
      exactly the rows that `date(created_at) = today` counts. */
  lemma OneDayWindow(row: Row, today: string)
    requires IsTimestamp(row.createdAt) && IsDate(today)
    ensures Matches(Some(DateRange(today, today)), row) <==> StampedOn(row, today)
  {
    var ts := row.createdAt;
    WindowIsDayRange(ts, today, today);
    if LexLe(today, ts[..10]) && LexLe(ts[..10], today) {
      LexLeAntisymmetric(today, ts[..10]);
    }
    LexLeReflexive(today);
  }

  /** The "today" count is the length of the listing filtered to today. */
  lemma TodayIsDayListing(t: Table, today: string)
    requires WellStamped(t) && IsDate(today)
    ensures GetStats(t, today).today == |GetVisitors(t, Some(DateRange(today, today)))|
  {
    assert |Where(t, Some(DateRange(today, today)))| == |TodayIds(t, today)|;
  }

  lemma TodayIdsAfterInsert(t: Table, id: int, row: Row, today: string)
    requires id !in t
    ensures TodayIds(t[id := row], today) ==
      if StampedOn(row, today) then TodayIds(t, today) + {id} else TodayIds(t, today)
  {
    var t' := t[id := row];
    forall k | k in t ensures t'[k] == t[k] {
      assert k != id;
    }
  }

  lemma TodayIdsAfterDelete(t: Table, id: int, today: string)
    requires id in t
    ensures TodayIds(t - {id}, today) == TodayIds(t, today) - {id}
  {
  }

  lemma TodayIdsAfterOverwrite(t: Table, id: int, v: Visitor, today: string)
    requires id in t
    ensures TodayIds(t[id := Row(v, t[id].createdAt)], today) == TodayIds(t, today)
  {
    var t' := t[id := Row(v, t[id].createdAt)];
    assert forall k :: k in t' ==> t'[k].createdAt == t[k].createdAt;
  }

  /** Inserting a row adds one to the total, and one to today's count when
      it is stamped today. */
  lemma StatsAfterInsert(t: Table, id: int, row: Row, today: string)
    requires id !in t
    ensures GetStats(t[id := row], today).total == GetStats(t, today).total + 1
    ensures GetStats(t[id := row], today).today ==
      GetStats(t, today).today + (if StampedOn(row, today) then 1 else 0)
  {
    assert t[id := row].Keys == t.Keys + {id};
    TodayIdsAfterInsert(t, id, row, today);
  }

  /** Deleting an existing row takes one from the total, and one from
      today's count when it was stamped today. */
  lemma StatsAfterDelete(t: Table, id: int, today: string)
    requires id in t
    ensures GetStats(t - {id}, today).total + 1 == GetStats(t, today).total
    ensures GetStats(t - {id}, today).today +
      (if StampedOn(t[id], today) then 1 else 0) == GetStats(t, today).today
  {
    assert (t - {id}).Keys == t.Keys - {id};
    TodayIdsAfterDelete(t, id, today);
  }

  /** Changing the submitted columns of a row keeps both counts. */
  lemma StatsAfterOverwrite(t: Table, id: int, v: Visitor, today: string)
    requires id in t
    ensures GetStats(t[id := Row(v, t[id].createdAt)], today) == GetStats(t, today)
  {
    assert t[id := Row(v, t[id].createdAt)].Keys == t.Keys;
    TodayIdsAfterOverwrite(t, id, v, today);
  }
}
