/**
 `VMSApplication.save_visitor`: the form's seven inputs are stripped, a
 blank name or phone stops the save, and otherwise the row is updated (when
 the form was opened on an existing visitor) or added.
 */
module Forms {
  import opened Wrappers
  import opened Strings
  import opened Timestamps
  import opened Visitors
  import opened Store

  /** The seven inputs as read from the form: five entry boxes and the two
      text areas (address and purpose). */
  datatype FormInput = FormInput(
    fullname: string,
    email: string,
    phone: string,
    address: string,
    meetingWith: string,
    department: string,
    purpose: string)

  /** What the user is told once the button is pressed. `StoreFull` is the
      SQLITE_FULL error that escapes `add_visitor` uncaught. */
  datatype Outcome = MissingData | Updated | Added(id: int) | StoreFull

  predicate Clean(v: Visitor)
  {
    Trimmed(v.fullname) && Trimmed(v.email) && Trimmed(v.phone) && Trimmed(v.address) &&
    Trimmed(v.meetingWith) && Trimmed(v.department) && Trimmed(v.purpose)
  }

  /** The `data` dictionary: every input stripped. */
  function Data(f: FormInput): Visitor
  {
    Visitor(Strip(f.fullname), Strip(f.email), Strip(f.phone), Strip(f.address),
            Strip(f.meetingWith), Strip(f.department), Strip(f.purpose))
  }

  /** Each column of `data` is its input with the outer whitespace cut off,
      and has none left. */
  lemma DataIsStripped(f: FormInput)
    ensures var v := Data(f);
      && Clean(v)
      && StripsTo(f.fullname, v.fullname) && StripsTo(f.email, v.email) && StripsTo(f.phone, v.phone)
      && StripsTo(f.address, v.address) && StripsTo(f.meetingWith, v.meetingWith)
      && StripsTo(f.department, v.department) && StripsTo(f.purpose, v.purpose)
  {
    StripSpec(f.fullname);
    StripSpec(f.email);
    StripSpec(f.phone);
    StripSpec(f.address);
    StripSpec(f.meetingWith);
    StripSpec(f.department);
    StripSpec(f.purpose);
  }

  /** The validation: the stripped data, or None when the name or the phone
      is blank. The other five inputs may be anything. */
  function Validate(f: FormInput): (r: Option<Visitor>)
    ensures r.None? <==> AllSpace(f.fullname) || AllSpace(f.phone)
    ensures r.Some? ==> r.value == Data(f) && r.value.fullname != [] && r.value.phone != []
  {
    StripSpec(f.fullname);
    StripSpec(f.phone);
    var d := Data(f);
    if d.fullname == [] || d.phone == [] then None else Some(d)
  }

  /** `if visitor_id:` -- the form was opened on a row and its id is not 0. */
  predicate Truthy(visitorId: Option<int>)
  {
    visitorId.Some? && visitorId.value != 0
  }

  /** The table and sequence `save_visitor` leaves behind, and what the
      user is told. */
  datatype Saved = Saved(outcome: Outcome, rows: Table, sequence: int)

  /** The dispatch after validation, against the table `t` whose
      AUTOINCREMENT sequence is `sequence`: no change on missing data,
      otherwise the UPDATE for a truthy id and the INSERT (stamped `now`)
      without one. */
  function Dispatch(t: Table, sequence: int, data: Option<Visitor>, visitorId: Option<int>, now: string): (r: Saved)
    ensures r.outcome == MissingData <==> data.None?
    ensures r.outcome == MissingData || r.outcome == StoreFull ==> r.rows == t && r.sequence == sequence
    ensures r.outcome == Updated <==> data.Some? && Truthy(visitorId)
    ensures r.outcome == Updated ==> r.rows.Keys == t.Keys && r.sequence == sequence
    ensures r.outcome.Added? ==>
      r.outcome.id == sequence + 1 == r.sequence && r.rows.Keys == t.Keys + {r.outcome.id}
    ensures r.outcome == StoreFull <==> data.Some? && !Truthy(visitorId) && sequence == MaxRowId
    ensures r.outcome == Updated ==>
      r.rows == (if visitorId.value in t then t[visitorId.value := Row(data.value, t[visitorId.value].createdAt)] else t)
    ensures r.outcome.Added? ==> r.rows == t[r.outcome.id := Row(data.value, now)]
  {
    match data
    case None => Saved(MissingData, t, sequence)
    case Some(v) =>
      if Truthy(visitorId) then
        var id := visitorId.value;
        Saved(Updated, if id in t then t[id := Row(v, t[id].createdAt)] else t, sequence)
      else if sequence == MaxRowId then
        Saved(StoreFull, t, sequence)
      else
        Saved(Added(sequence + 1), t[sequence + 1 := Row(v, now)], sequence + 1)
  }

  /** `save_visitor(visitor_id)` on the form `form` at clock reading `now`:
      validate, then dispatch. */
  method SaveVisitor(db: DatabaseManager, form: FormInput, visitorId: Option<int>, now: string)
      returns (o: Outcome)
    requires db.Valid() && IsTimestamp(now)
    modifies db
    ensures db.Valid()
    ensures var r := Dispatch(old(db.rows), old(db.sequence), Validate(form), visitorId, now);
      o == r.outcome && db.rows == r.rows && db.sequence == r.sequence
  {
    var data := Validate(form);
    if data.None? {
      return MissingData;
    }
    if Truthy(visitorId) {
      db.UpdateVisitor(visitorId.value, data.value);
      o := Updated;
    } else {
      var id := db.AddVisitor(data.value, now);
      o := if id.Some? then Added(id.value) else StoreFull;
    }
  }

  /** Rows as `save_visitor` writes them: clean, with a name and a phone. */
  ghost predicate SavedRows(t: Table)
  {
    forall k :: k in t ==> SavedVisitor(t[k].visitor)
  }

  predicate SavedVisitor(v: Visitor)
  {
    Clean(v) && v.fullname != [] && v.phone != []
  }

  /** What validation lets through is in the shape `SavedRows` asks for. */
  lemma ValidatedIsSaved(form: FormInput)
    requires Validate(form).Some?
    ensures SavedVisitor(Validate(form).value)
  {
    DataIsStripped(form);
  }

  /** Saving touches at most one existing row, and what it writes there is
      the validated data; `created_at` of an existing row never changes. */
  lemma DispatchTouchesOneRow(t: Table, sequence: int, data: Option<Visitor>, visitorId: Option<int>, now: string, k: int)
    requires k in t && k <= sequence
    ensures var r := Dispatch(t, sequence, data, visitorId, now);
      k in r.rows && r.rows[k].createdAt == t[k].createdAt &&
      (r.rows[k] == t[k] || (r.outcome == Updated && k == visitorId.value && r.rows[k].visitor == data.value))
  {
  }

  /** Saving through the form keeps every row in the shape the form writes. */
  lemma SaveKeepsRowsSaved(t: Table, sequence: int, form: FormInput, visitorId: Option<int>, now: string)
    requires SavedRows(t) && forall k :: k in t ==> k <= sequence
    ensures SavedRows(Dispatch(t, sequence, Validate(form), visitorId, now).rows)
  {
    var data := Validate(form);
    if data.Some? {
      ValidatedIsSaved(form);
    }
    var r := Dispatch(t, sequence, data, visitorId, now);
    forall k | k in r.rows ensures SavedVisitor(r.rows[k].visitor) {
      if k in t {
        DispatchTouchesOneRow(t, sequence, data, visitorId, now, k);
      }
    }
  }

  /** Stripping leaves a string without outer whitespace as it is. */
  lemma StripTrimmed(s: string)
    requires Trimmed(s)
    ensures Strip(s) == s
  {
    if s != [] {
      assert SkipSpace(s, 0) == 0;
      assert SkipSpaceBack(s, 0, |s|) == |s|;
      assert s[0..|s|] == s;
    }
  }

  /** Stripping twice is stripping once. */
  lemma StripIdempotent(s: string)
    ensures Strip(Strip(s)) == Strip(s)
  {
    StripSpec(s);
    StripTrimmed(Strip(s));
  }

  /** A text area read back with its trailing newline strips to what was put in. */
  lemma StripNewline(s: string)
    requires Trimmed(s)
    ensures Strip(s + "\n") == s
  {
    var t := s + "\n";
    if s == [] {
      assert AllSpace(t);
      StripSpec(t);
    } else {
      assert t[0] == s[0] && t[|s| - 1] == s[|s| - 1] && IsSpace(t[|s|]);
      assert SkipSpace(t, 0) == 0;
      assert SkipSpaceBack(t, 0, |s|) == |s|;
      assert SkipSpaceBack(t, 0, |t|) == |s|;
      assert t[0..|s|] == s;
    }
  }

  /** The form `show_new_visitor` opens on a fetched row: each entry holds its
      column, and each text area holds its column followed by the newline a
      text widget always ends with. */
  function EditForm(r: Record): FormInput
  {
    FormInput(r.fullname, r.email, r.phone, r.address + "\n", r.meetingWith, r.department, r.purpose + "\n")
  }

  /** Validating a form is idempotent: validating the form refilled with the
      validated data gives the same data back. */
  lemma ValidateIdempotent(f: FormInput)
    requires Validate(f).Some?
    ensures var v := Validate(f).value;
      Validate(FormInput(v.fullname, v.email, v.phone, v.address, v.meetingWith, v.department, v.purpose)) == Validate(f)
  {
    DataIsStripped(f);
    var v := Validate(f).value;
    StripTrimmed(v.fullname);
    StripTrimmed(v.email);
    StripTrimmed(v.phone);
    StripTrimmed(v.address);
    StripTrimmed(v.meetingWith);
    StripTrimmed(v.department);
    StripTrimmed(v.purpose);
  }

  /** Opening a saved row in the edit form and pressing UPDATE without
      touching anything leaves the table exactly as it was. */
  lemma EditUnchangedIsNoOp(t: Table, id: int)
    requires SavedRows(t) && id in t
    ensures var v := Validate(EditForm(GetVisitorById(t, id).value));
      v.Some? && t[id := Row(v.value, t[id].createdAt)] == t
  {
    var r := GetVisitorById(t, id).value;
    var w := t[id].visitor;
    StripTrimmed(w.fullname);
    StripTrimmed(w.email);
    StripTrimmed(w.phone);
    StripNewline(w.address);
    StripTrimmed(w.meetingWith);
    StripTrimmed(w.department);
    StripNewline(w.purpose);
    assert Data(EditForm(r)) == w;
  }

  /** Saving the untouched edit form of a saved row, opened on a non-zero
      id, leaves the table exactly as it was. */
  lemma EditUnchangedSaveIsNoOp(t: Table, sequence: int, id: int, now: string)
    requires SavedRows(t) && id in t && id != 0
    ensures Dispatch(t, sequence, Validate(EditForm(GetVisitorById(t, id).value)), Some(id), now).rows == t
  {
    EditUnchangedIsNoOp(t, id);
  }
}
