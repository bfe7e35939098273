/** Concrete runs on a fragment of the seeded data, including the two
    behaviours that break the no-duplicates and no-partial-update
    expectations: a rejected rename that still changes name and grade, and
    a rename onto an already-listed email that duplicates it. */
module Examples {
  import opened Options
  import opened Dict
  import opened Participants
  import opened School
  import opened ActivityApi
  import opened StudentApi
  import opened Reports

  const Michael: Email := "michael@mergington.edu"
  const Daniel: Email := "daniel@mergington.edu"

  const Chess := Activity(
    "Learn strategies and compete in chess tournaments",
    "Fridays, 3:30 PM - 5:00 PM",
    12,
    [Michael, Daniel])

  /** Chess Club and two of its seeded students. */
  function Seed(): (s: State)
    ensures Keys(s.activities) == ["Chess Club"]
    ensures RecordsMatchKeys(s.students)
    ensures NoDuplicateParticipants(s.activities)
  {
    State(
      [("Chess Club", Chess)],
      [(Michael, Student("Michael Smith", Michael, "10")),
       (Daniel, Student("Daniel Johnson", Daniel, "11"))])
  }

  lemma SignupNewStudent()
    ensures var r := Signup(Seed(), "Chess Club", "new@mergington.edu");
      && r.result == Ok("Signed up new@mergington.edu for Chess Club")
      && |Get(r.state.activities, "Chess Club").value.participants| == 3
  {
    GetAt(Seed().activities, 0);
    assert |"new@mergington.edu"| != |Michael| && |"new@mergington.edu"| != |Daniel|;
    assert "new@mergington.edu" !in Chess.participants;
    assert "Signed up " + "new@mergington.edu" + " for " + "Chess Club" == "Signed up new@mergington.edu for Chess Club";
  }

  lemma SignupAlreadyListed()
    ensures Signup(Seed(), "Chess Club", Michael) ==
      Step(Err(Conflict("Student is already signed up")), Seed())
  {
  }

  lemma MichaelsActivities()
    ensures Enrolled(Seed().activities, Michael) ==
      [ActivitySummary("Chess Club", "Learn strategies and compete in chess tournaments", "Fridays, 3:30 PM - 5:00 PM")]
  {
    assert Seed().activities[..0] == [];
  }

  lemma DeleteMichael()
    ensures var r := DeleteStudent(Seed(), Michael);
      && r.result.Ok?
      && Get(r.state.activities, "Chess Club").value.participants == [Daniel]
  {
    var p := Chess.participants;
    assert Keys(Seed().students)[0] == Michael;
    assert FirstIndex(p, Michael) == 0;
    assert RemoveFirst(p, Michael) == [Daniel];
  }

  /** Renaming Michael onto Daniel's email is rejected, but Michael's name
      has already been overwritten. */
  lemma RejectedRenameStillWritesName()
    ensures var r := UpdateStudent(Seed(), Michael, StudentUpdate(Some("Mike"), Some(Daniel), None));
      && r.result == Err(Conflict("Email already in use by another student"))
      && Get(r.state.students, Michael) == Some(Student("Mike", Michael, "10"))
      && r.state != Seed()
  {
  }

  /** An email that is listed but has no student record. */
  const Guest: Email := "guest@mergington.edu"

  /** The seed with Michael's Chess Club partner replaced by the guest. */
  function GuestListed(): (s: State)
    ensures NoDuplicateParticipants(s.activities)
  {
    Seed().(activities := [("Chess Club", Chess.(participants := [Michael, Guest]))])
  }

  /** The guest state is reachable: the guest signs up for Chess Club and
      Daniel unregisters. */
  lemma GuestListedReachable()
    ensures Unregister(Signup(Seed(), "Chess Club", Guest).state, "Chess Club", Daniel).state == GuestListed()
  {
    var s0 := Seed();
    assert |Guest| != |Michael| && |Guest| != |Daniel|;
    assert IndexOf(s0.activities, "Chess Club") == Some(0);
    GetAt(s0.activities, 0);
    var r1 := Signup(s0, "Chess Club", Guest);
    assert r1.result.Ok?;
    var s1 := r1.state;
    assert Chess.participants + [Guest] == [Michael, Daniel, Guest];
    assert Keys(s1.activities) == ["Chess Club"];
    GetAt(s1.activities, 0);
    assert s1.activities == [s1.activities[0]];
    assert s1.activities == [("Chess Club", Chess.(participants := [Michael, Daniel, Guest]))];
    assert IndexOf(s1.activities, "Chess Club") == Some(0);
    assert FirstIndex([Michael, Daniel, Guest], Daniel) == 1;
    assert RemoveFirst([Michael, Daniel, Guest], Daniel) == [Michael, Guest];
    var r2 := Unregister(s1, "Chess Club", Daniel);
    assert r2.result.Ok?;
    assert r2.state.activities == [("Chess Club", Chess.(participants := [Michael, Guest]))];
  }

  /** The rename edit on the guest catalogue: Michael's entry becomes a
      second copy of the guest. */
  lemma GuestCascade()
    ensures CascadeAll(GuestListed().activities, Rename(Michael, Guest)) ==
      [("Chess Club", Chess.(participants := [Guest, Guest]))]
  {
    var acts := GuestListed().activities;
    var c := CascadeAll(acts, Rename(Michael, Guest));
    assert FirstIndex([Michael, Guest], Michael) == 0;
    assert ApplyCascade([Michael, Guest], Rename(Michael, Guest)) == [Guest, Guest];
    assert c[0].0 == Keys(c)[0] == Keys(acts)[0] == "Chess Club";
    assert c == [c[0]];
  }

  /** A rename onto an email already in a participant list succeeds and
      leaves two copies of that email in the list. */
  lemma RenameOntoListedEmailDuplicates()
    ensures var r := UpdateStudent(GuestListed(), Michael, StudentUpdate(None, Some(Guest), None));
      && r.result.Ok?
      && r.state.activities == [("Chess Club", Chess.(participants := [Guest, Guest]))]
      && !NoDuplicateParticipants(r.state.activities)
  {
    var s := GuestListed();
    var u := StudentUpdate(None, Some(Guest), None);
    assert |Guest| != |Michael| && |Guest| != |Daniel|;
    assert Keys(s.students) == [Michael, Daniel];
    assert UpdateStudent(s, Michael, u).result.Ok?;
    UpdateRenamesCatalogue(s, Michael, u);
    GuestCascade();
    var acts := UpdateStudent(s, Michael, u).state.activities;
    assert acts[0].1.participants[0] == acts[0].1.participants[1];
  }

  /** Unregistering an email listed twice removes only the first copy. */
  lemma UnregisterLeavesSecondCopy()
    ensures var s := Seed().(activities := [("Chess Club", Chess.(participants := [Guest, Guest]))]);
      var r := Unregister(s, "Chess Club", Guest);
      && r.result.Ok?
      && r.state.activities == [("Chess Club", Chess.(participants := [Guest]))]
  {
    var s := Seed().(activities := [("Chess Club", Chess.(participants := [Guest, Guest]))]);
    GetAt(s.activities, 0);
    assert FirstIndex([Guest, Guest], Guest) == 0;
    assert RemoveFirst([Guest, Guest], Guest) == [Guest];
  }
}
