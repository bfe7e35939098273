/** What deleting and renaming a student do to the activity catalogue, and
    how a later lookup sees the result. */
module StudentLaws {
  import opened Dict
  import opened Participants
  import opened School
  import opened StudentApi

  /** A delete keeps the catalogue's order and names, takes one copy of the
      email out of every list that held it, and touches no other email. */
  lemma DeleteCascade(s: State, email: Email)
    requires email in Keys(s.students)
    ensures var acts := DeleteStudent(s, email).state.activities;
      && Keys(acts) == Keys(s.activities)
      && (forall i :: 0 <= i < |acts| ==>
            |acts[i].1.participants| ==
              if email in s.activities[i].1.participants then |s.activities[i].1.participants| - 1
              else |s.activities[i].1.participants|)
      && (forall i, y :: 0 <= i < |acts| && y != email ==>
            (y in acts[i].1.participants <==> y in s.activities[i].1.participants))
  {
    var acts := DeleteStudent(s, email).state.activities;
    forall i, y | 0 <= i < |acts|
      ensures |acts[i].1.participants| ==
        if email in s.activities[i].1.participants then |s.activities[i].1.participants| - 1
        else |s.activities[i].1.participants|
      ensures y != email ==> (y in acts[i].1.participants <==> y in s.activities[i].1.participants)
    {
      DropEffect(s.activities[i].1.participants, email, y);
    }
  }

  /** Without duplicates, a deleted student's email is left in no
      participant list, the catalogue stays duplicate-free, and the student
      can no longer be read. */
  lemma DeleteRemovesEverywhere(s: State, email: Email)
    requires NoDuplicateParticipants(s.activities)
    requires email in Keys(s.students)
    ensures ListedNowhere(DeleteStudent(s, email).state.activities, email)
    ensures NoDuplicateParticipants(DeleteStudent(s, email).state.activities)
    ensures GetStudent(DeleteStudent(s, email).state, email) == Err(NotFound("Student not found"))
  {
    var acts := DeleteStudent(s, email).state.activities;
    forall i | 0 <= i < |acts|
      ensures email !in acts[i].1.participants && NoDup(acts[i].1.participants)
    {
      DropEffect(s.activities[i].1.participants, email, email);
    }
  }

  /** A delete never creates a duplicate, whether or not the catalogue had
      any before: each list only loses an element. */
  lemma DeletePreservesNoDuplicates(s: State, email: Email)
    requires NoDuplicateParticipants(s.activities)
    ensures NoDuplicateParticipants(DeleteStudent(s, email).state.activities)
  {
    if DeleteStudent(s, email).result.Ok? {
      DeleteRemovesEverywhere(s, email);
    }
  }

  /** A successful rename rewrites the catalogue: lists without the old
      email are unchanged; a list with it keeps its length, ends with the
      new email and keeps every email other than the old and new ones; and
      if it was duplicate-free it no longer holds the old email. */
  lemma RenameCascade(s: State, email: Email, u: StudentUpdate)
    requires Renames(email, u)
    requires email in Keys(s.students) && u.email.value !in Keys(s.students)
    ensures var acts := UpdateStudent(s, email, u).state.activities;
      var to := u.email.value;
      && Keys(acts) == Keys(s.activities)
      && (forall i :: 0 <= i < |acts| && email !in s.activities[i].1.participants ==>
            acts[i] == s.activities[i])
      && (forall i :: 0 <= i < |acts| && email in s.activities[i].1.participants ==>
            && |acts[i].1.participants| == |s.activities[i].1.participants|
            && acts[i].1.participants[|acts[i].1.participants| - 1] == to
            && (NoDup(s.activities[i].1.participants) ==> email !in acts[i].1.participants))
      && (forall i, y :: 0 <= i < |acts| && y != email && y != to ==>
            (y in acts[i].1.participants <==> y in s.activities[i].1.participants))
  {
    UpdateMoves(s, email, u);
    RenameAll(s.activities, email, u.email.value);
  }

  /** A rename onto an email listed nowhere keeps the catalogue
      duplicate-free. */
  lemma RenamePreservesNoDuplicates(s: State, email: Email, u: StudentUpdate)
    requires Renames(email, u)
    requires NoDuplicateParticipants(s.activities)
    requires ListedNowhere(s.activities, u.email.value)
    ensures NoDuplicateParticipants(UpdateStudent(s, email, u).state.activities)
  {
    RenameDuplicatesIffCoListed(s, email, u);
  }

  /** On a duplicate-free catalogue, a successful rename leaves a duplicate
      exactly when some list already held both the old and the new email;
      the handler does not check this. A rejected update keeps the catalogue. */
  lemma RenameDuplicatesIffCoListed(s: State, email: Email, u: StudentUpdate)
    requires Renames(email, u)
    requires NoDuplicateParticipants(s.activities)
    ensures NoDuplicateParticipants(UpdateStudent(s, email, u).state.activities) <==>
      UpdateStudent(s, email, u).result.Err? || !CoListed(s.activities, email, u.email.value)
  {
    var r := UpdateStudent(s, email, u);
    var to := u.email.value;
    if r.result.Ok? {
      UpdateMoves(s, email, u);
      var acts := r.state.activities;
      if CoListed(s.activities, email, to) {
        var i :| 0 <= i < |s.activities| && email in s.activities[i].1.participants && to in s.activities[i].1.participants;
        RenameEffect(s.activities[i].1.participants, email, to, email);
        assert !NoDup(acts[i].1.participants);
      } else {
        forall i | 0 <= i < |acts| ensures NoDup(acts[i].1.participants) {
          RenameEffect(s.activities[i].1.participants, email, to, email);
        }
      }
    } else if email in Keys(s.students) {
      UpdateInPlace(s, email, u);
    }
  }

  /** After a successful rename the old key reads as NotFound and the new
      key reads the record with the new email and the updated name and grade. */
  lemma RenameThenGet(s: State, email: Email, u: StudentUpdate)
    requires Renames(email, u)
    requires email in Keys(s.students) && u.email.value !in Keys(s.students)
    ensures var s' := UpdateStudent(s, email, u).state;
      var patched := Patch(Get(s.students, email).value, u);
      && GetStudent(s', email) == Err(NotFound("Student not found"))
      && GetStudent(s', u.email.value) == Ok(Student(patched.name, u.email.value, patched.grade))
  {
    UpdateMoves(s, email, u);
  }

  /** A created student reads back as the record that was sent. */
  lemma CreateThenGet(s: State, st: Student)
    requires st.email !in Keys(s.students)
    ensures GetStudent(CreateStudent(s, st).state, st.email) == Ok(st)
  {
  }

  /** Deleting a freshly created student who was listed in no activity
      restores the state exactly. */
  lemma CreateThenDelete(s: State, st: Student)
    requires st.email !in Keys(s.students)
    requires ListedNowhere(s.activities, st.email)
    ensures DeleteStudent(CreateStudent(s, st).state, st.email).result.Ok?
    ensures DeleteStudent(CreateStudent(s, st).state, st.email).state == s
  {
    var s1 := CreateStudent(s, st).state;
    var s2 := DeleteStudent(s1, st.email).state;
    IndexOfUnique(s1.students, st.email, |s.students|);
    assert s1.students[..|s.students|] == s.students;
    assert s2.students == s.students;
    assert |s2.activities| == |s.activities|;
    forall i | 0 <= i < |s.activities| ensures s2.activities[i] == s.activities[i] {
      assert s2.activities[i].0 == Keys(s2.activities)[i] == Keys(s.activities)[i];
    }
  }
}
