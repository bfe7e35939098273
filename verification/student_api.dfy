/** The student endpoints: search and filter, create, read, update (with
    re-keying on an email change) and delete, and the cascades the last two
    apply to the activity catalogue. */
module StudentApi {
  import opened Options
  import opened Dict
  import opened Text
  import opened Participants
  import opened School

  /** Python truthiness of an optional query parameter: `None` and the empty
      string both mean "no filter". */
  predicate Given(o: Option<string>) {
    o.Some? && o.value != ""
  }

  /** The search filter: the lower-cased query occurs in the lower-cased name
      or the lower-cased email field of the record. */
  predicate MatchesSearch(st: Student, query: string)
    ensures MatchesSearch(st, query) <==>
      (exists i :: OccursAt(Lower(query), Lower(st.name), i)) ||
      (exists i :: OccursAt(Lower(query), Lower(st.email), i))
  {
    Contains(Lower(st.name), Lower(query)) || Contains(Lower(st.email), Lower(query))
  }

  /** GET /students: the search filter, then the exact-grade filter, each
      applied only when its parameter is given. */
  function GetStudents(s: State, search: Option<string>, grade: Option<string>): (r: Dict<Email, Student>)
    ensures forall e :: e in r <==>
      && e in s.students
      && (Given(search) ==> MatchesSearch(e.1, search.value))
      && (Given(grade) ==> e.1.grade == grade.value)
    ensures forall k :: k in Keys(r) ==> Get(r, k) == Get(s.students, k)
    ensures !Given(search) && !Given(grade) ==> r == s.students
  {
    var bySearch := if Given(search) then Filter(s.students, (st: Student) => MatchesSearch(st, search.value)) else s.students;
    var r := if Given(grade) then Filter(bySearch, (st: Student) => st.grade == grade.value) else bySearch;
    assert forall k :: k in Keys(r) ==> Get(r, k) == Get(s.students, k) by {
      forall k | k in Keys(r) ensures Get(r, k) == Get(s.students, k) {
        GetEntry(s.students, k, Get(r, k).value);
      }
    }
    r
  }

  /** The search is case-insensitive: queries that lower-case alike select
      the same students. */
  lemma SearchIgnoresCase(s: State, q1: string, q2: string, grade: Option<string>)
    requires Lower(q1) == Lower(q2)
    ensures GetStudents(s, Some(q1), grade) == GetStudents(s, Some(q2), grade)
  {
    assert |q1| == |Lower(q1)| == |Lower(q2)| == |q2|;
    if q1 != "" {
      FilterCongruent(s.students, (st: Student) => MatchesSearch(st, q1), (st: Student) => MatchesSearch(st, q2));
    }
  }

  /** Applying the grade filter before the search filter selects the same
      students in the same order. */
  lemma FilterOrderIrrelevant(s: State, search: string, grade: string)
    requires search != "" && grade != ""
    ensures GetStudents(s, Some(search), Some(grade)) ==
      Filter(Filter(s.students, (st: Student) => st.grade == grade), (st: Student) => MatchesSearch(st, search))
  {
    FilterCommutes(s.students, (st: Student) => MatchesSearch(st, search), (st: Student) => st.grade == grade);
  }

  /** POST /students. The response's message wrapper is not modelled; the
      result is the stored record. */
  function CreateStudent(s: State, st: Student): (r: Step<Student>)
    ensures r.result == Err(Conflict("Student with this email already exists")) <==> st.email in Keys(s.students)
    ensures r.result.Ok? <==> st.email !in Keys(s.students)
    ensures r.result.Err? ==> r.state == s
    ensures r.result.Ok? ==>
      && r.result.value == st
      && r.state.students == s.students + [(st.email, st)]
      && Get(r.state.students, st.email) == Some(st)
      && r.state.activities == s.activities
    ensures RecordsMatchKeys(s.students) ==> RecordsMatchKeys(r.state.students)
  {
    if st.email in Keys(s.students) then
      Step(Err(Conflict("Student with this email already exists")), s)
    else
      Step(Ok(st), s.(students := Put(s.students, st.email, st)))
  }

  /** GET /students/{email}. */
  function GetStudent(s: State, email: Email): (r: Result<Student>)
    ensures r == Err(NotFound("Student not found")) <==> email !in Keys(s.students)
    ensures r.Ok? <==> email in Keys(s.students)
    ensures r.Ok? ==> (email, r.value) in s.students
  {
    match Get(s.students, email)
    case None => Err(NotFound("Student not found"))
    case Some(st) => Ok(st)
  }

  /** The body of PUT /students/{email}: every field is optional. */
  datatype StudentUpdate = StudentUpdate(name: Option<string>, email: Option<Email>, grade: Option<string>)

  /** Name and grade overwritten where provided. */
  function Patch(cur: Student, u: StudentUpdate): (r: Student)
    ensures r.email == cur.email
    ensures r.name == if u.name.Some? then u.name.value else cur.name
    ensures r.grade == if u.grade.Some? then u.grade.value else cur.grade
  {
    cur.(name := u.name.GetOr(cur.name), grade := u.grade.GetOr(cur.grade))
  }

  /** The update asks for a different email than the key it is sent to. */
  predicate Renames(email: Email, u: StudentUpdate) {
    u.email.Some? && u.email.value != email
  }

  /** PUT /students/{email}. Name and grade are written before the new email
      is checked, so a rename rejected with Conflict still changes them. */
  function UpdateStudent(s: State, email: Email, u: StudentUpdate): (r: Step<Student>)
    ensures r.result == Err(NotFound("Student not found")) <==> email !in Keys(s.students)
    ensures email !in Keys(s.students) ==> r.state == s
    ensures r.result.Ok? <==>
      email in Keys(s.students) && !(Renames(email, u) && u.email.value in Keys(s.students))
    ensures email in Keys(s.students) ==>
      && (r.result == Err(Conflict("Email already in use by another student")) <==>
            Renames(email, u) && u.email.value in Keys(s.students))
      && (!Renames(email, u) ==> r.result == Ok(Patch(Get(s.students, email).value, u)))
      && (r.result.Ok? && Renames(email, u) ==>
            r.result == Ok(Patch(Get(s.students, email).value, u).(email := u.email.value)))
    ensures RecordsMatchKeys(s.students) ==> RecordsMatchKeys(r.state.students)
  {
    match Get(s.students, email)
    case None => Step(Err(NotFound("Student not found")), s)
    case Some(cur) =>
      var patched := Patch(cur, u);
      var students := Put(s.students, email, patched);
      PutKeepsRecordsMatch(s.students, email, patched);
      if Renames(email, u) then
        var newEmail := u.email.value;
        if newEmail in Keys(students) then
          Step(Err(Conflict("Email already in use by another student")), s.(students := students))
        else
          var moved := patched.(email := newEmail);
          RekeyKeepsRecordsMatch(students, email, newEmail, moved);
          Step(Ok(moved), State(CascadeAll(s.activities, Rename(email, newEmail)), Rekey(students, email, newEmail, moved)))
      else
        Step(Ok(patched), s.(students := students))
  }

  /** An update that keeps the key (no rename, or a rename rejected with
      Conflict) patches the record in place and touches nothing else. */
  lemma UpdateInPlace(s: State, email: Email, u: StudentUpdate)
    requires email in Keys(s.students)
    requires UpdateStudent(s, email, u).result.Err? || !Renames(email, u)
    ensures var r := UpdateStudent(s, email, u).state;
      && Keys(r.students) == Keys(s.students)
      && Get(r.students, email) == Some(Patch(Get(s.students, email).value, u))
      && (forall k :: k != email ==> Get(r.students, k) == Get(s.students, k))
      && r.activities == s.activities
  {
  }

  /** A successful rename moves the patched record to the new key at the end
      of the store, keeps the store's size and every other record, and
      applies the rename to the catalogue. */
  lemma UpdateMoves(s: State, email: Email, u: StudentUpdate)
    requires Renames(email, u)
    requires email in Keys(s.students) && u.email.value !in Keys(s.students)
    ensures var r := UpdateStudent(s, email, u);
      var moved := r.result.value;
      && moved.email == u.email.value
      && email !in Keys(r.state.students)
      && Get(r.state.students, u.email.value) == Some(moved)
      && |r.state.students| == |s.students|
      && r.state.students[|s.students| - 1] == (u.email.value, moved)
      && r.state.students ==
           s.students[..IndexOf(s.students, email).value] + s.students[IndexOf(s.students, email).value + 1..]
             + [(u.email.value, moved)]
      && (forall k :: k != email && k != u.email.value ==> Get(r.state.students, k) == Get(s.students, k))
      && r.state.activities == CascadeAll(s.activities, Rename(email, u.email.value))
  {
    var to := u.email.value;
    var patched := Patch(Get(s.students, email).value, u);
    var moved := patched.(email := to);
    PutThenRekey(s.students, email, to, patched, moved);
    var r := UpdateStudent(s, email, u);
    assert r.result == Ok(moved);
    assert r.state.students == Rekey(Put(s.students, email, patched), email, to, moved);
    assert r.state.activities == CascadeAll(s.activities, Rename(email, to));
  }

  /** A successful rename applies the rename edit to the whole catalogue.
      This is the catalogue half of `UpdateMoves` on its own: a cheaper entry
      point for callers that need nothing about the student store. */
  lemma UpdateRenamesCatalogue(s: State, email: Email, u: StudentUpdate)
    requires Renames(email, u)
    requires email in Keys(s.students) && u.email.value !in Keys(s.students)
    ensures UpdateStudent(s, email, u).state.activities == CascadeAll(s.activities, Rename(email, u.email.value))
  {
  }

  /** Overwriting a record and then moving it to a fresh key leaves the
      other records where they were and the moved one last. */
  lemma PutThenRekey(d: Dict<Email, Student>, from: Email, to: Email, st: Student, moved: Student)
    requires from in Keys(d) && to !in Keys(d)
    ensures to !in Keys(Put(d, from, st))
    ensures var r := Rekey(Put(d, from, st), from, to, moved);
      && from !in Keys(r)
      && Get(r, to) == Some(moved)
      && |r| == |d|
      && r[|d| - 1] == (to, moved)
      && r == d[..IndexOf(d, from).value] + d[IndexOf(d, from).value + 1..] + [(to, moved)]
      && (forall k :: k != from && k != to ==> Get(r, k) == Get(d, k))
  {
    var p := Put(d, from, st);
    PutInPlace(d, from, st);
    var r := Rekey(p, from, to, moved);
    RekeyClosesGap(p, from, to, moved);
    forall k | k != from && k != to ensures Get(r, k) == Get(d, k) {
      assert Get(r, k) == Get(p, k);
    }
  }

  /** Overwriting a record with one carrying the same email keeps every
      record matched to its key. */
  lemma PutKeepsRecordsMatch(d: Dict<Email, Student>, k: Email, st: Student)
    requires RecordsMatchKeys(d) && k in Keys(d) ==> st.email == k
    ensures RecordsMatchKeys(d) && k in Keys(d) ==> RecordsMatchKeys(Put(d, k, st))
  {
    var r := Put(d, k, st);
    if RecordsMatchKeys(d) && k in Keys(d) {
      forall i | 0 <= i < |r| ensures r[i].1.email == r[i].0 {
        assert Keys(r)[i] == Keys(d)[i];
        GetAt(r, i);
        GetAt(d, i);
      }
    }
  }

  /** The re-keying step of a rename: the record leaves key `from` and
      is appended under key `to`, so it moves to the end of the store. */
  function Rekey(d: Dict<Email, Student>, from: Email, to: Email, st: Student): (r: Dict<Email, Student>)
    requires from in Keys(d) && to !in Keys(d)
    ensures from !in Keys(r)
    ensures Get(r, to) == Some(st)
    ensures |r| == |d|
    ensures r[|d| - 1] == (to, st)
    ensures forall k :: k != from && k != to ==> Get(r, k) == Get(d, k)
    ensures forall e :: e in r <==> e == (to, st) || (e in d && e.0 != from)
  {
    var popped := Pop(d, from);
    assert |popped| == |d| - 1;
    assert Get(popped, to) == Get(d, to);
    assert Put(popped, to, st) == popped + [(to, st)];
    Put(popped, to, st)
  }

  /** Re-keying cuts the old entry out, closing the gap, and appends the
      record under the new key: every other entry keeps its order. */
  lemma RekeyClosesGap(d: Dict<Email, Student>, from: Email, to: Email, st: Student)
    requires from in Keys(d) && to !in Keys(d)
    ensures Rekey(d, from, to, st) == d[..IndexOf(d, from).value] + d[IndexOf(d, from).value + 1..] + [(to, st)]
  {
    var popped := Pop(d, from);
    assert to !in Keys(popped) by {
      assert Get(popped, to) == Get(d, to);
    }
    assert Rekey(d, from, to, st) == Put(popped, to, st) == popped + [(to, st)];
  }

  /** Re-keying a record that carries its new key keeps every record
      matched to its key. */
  lemma RekeyKeepsRecordsMatch(d: Dict<Email, Student>, from: Email, to: Email, st: Student)
    requires from in Keys(d) && to !in Keys(d)
    ensures RecordsMatchKeys(d) && st.email == to ==> RecordsMatchKeys(Rekey(d, from, to, st))
  {
    var r := Rekey(d, from, to, st);
    if RecordsMatchKeys(d) && st.email == to {
      forall i | 0 <= i < |r| ensures r[i].1.email == r[i].0 {
        assert r[i] in r;
        if r[i] != (to, st) {
          var j :| 0 <= j < |d| && d[j] == r[i];
        }
      }
    }
  }

  /** DELETE /students/{email}: the email is dropped from every participant
      list, then the record is removed. */
  function DeleteStudent(s: State, email: Email): (r: Step<string>)
    ensures r.result == Err(NotFound("Student not found")) <==> email !in Keys(s.students)
    ensures r.result.Ok? <==> email in Keys(s.students)
    ensures r.result.Err? ==> r.state == s
    ensures r.result.Ok? ==>
      && r.result.value == "Student deleted successfully"
      && email !in Keys(r.state.students)
      && |r.state.students| == |s.students| - 1
      && r.state.students ==
           s.students[..IndexOf(s.students, email).value] + s.students[IndexOf(s.students, email).value + 1..]
      && (forall k :: k != email ==> Get(r.state.students, k) == Get(s.students, k))
      && r.state.activities == CascadeAll(s.activities, Drop(email))
    ensures RecordsMatchKeys(s.students) ==> RecordsMatchKeys(r.state.students)
  {
    if email !in Keys(s.students) then
      Step(Err(NotFound("Student not found")), s)
    else
      var students := Pop(s.students, email);
      assert RecordsMatchKeys(s.students) ==> RecordsMatchKeys(students) by {
        if RecordsMatchKeys(s.students) {
          forall i | 0 <= i < |students| ensures students[i].1.email == students[i].0 {
            assert students[i] in s.students;
          }
        }
      }
      Step(Ok("Student deleted successfully"), State(CascadeAll(s.activities, Drop(email)), students))
  }
}
