/** The two activity endpoints: signing a student email up for an activity
    and unregistering it again. Neither consults the student store. */
module ActivityApi {
  import opened Options
  import opened Dict
  import opened Participants
  import opened School

  /** POST /activities/{name}/signup. */
  function Signup(s: State, name: string, email: Email): (r: Step<string>)
    ensures r.result == Err(NotFound("Activity not found")) <==> name !in Keys(s.activities)
    ensures r.result == Err(Conflict("Student is already signed up")) <==>
      name in Keys(s.activities) && email in Get(s.activities, name).value.participants
    ensures r.result.Ok? <==>
      name in Keys(s.activities) && email !in Get(s.activities, name).value.participants
    ensures r.result.Err? ==> r.state == s
    ensures r.result.Ok? ==>
      var before := Get(s.activities, name).value;
      && r.result.value == "Signed up " + email + " for " + name
      && Get(r.state.activities, name) == Some(before.(participants := before.participants + [email]))
      && Keys(r.state.activities) == Keys(s.activities)
      && (forall n :: n != name ==> Get(r.state.activities, n) == Get(s.activities, n))
      && r.state.students == s.students
  {
    match Get(s.activities, name)
    case None => Step(Err(NotFound("Activity not found")), s)
    case Some(a) =>
      if email in a.participants then
        Step(Err(Conflict("Student is already signed up")), s)
      else
        var a' := a.(participants := a.participants + [email]);
        Step(Ok("Signed up " + email + " for " + name), s.(activities := Put(s.activities, name, a')))
  }

  /** DELETE /activities/{name}/unregister. */
  function Unregister(s: State, name: string, email: Email): (r: Step<string>)
    ensures r.result == Err(NotFound("Activity not found")) <==> name !in Keys(s.activities)
    ensures r.result == Err(Conflict("Student is not signed up for this activity")) <==>
      name in Keys(s.activities) && email !in Get(s.activities, name).value.participants
    ensures r.result.Ok? <==>
      name in Keys(s.activities) && email in Get(s.activities, name).value.participants
    ensures r.result.Err? ==> r.state == s
    ensures r.result.Ok? ==>
      var p := Get(s.activities, name).value.participants;
      && email in p
      && r.result.value == "Unregistered " + email + " from " + name
      && Get(r.state.activities, name) == Some(Get(s.activities, name).value.(participants := RemoveFirst(p, email)))
      && |RemoveFirst(p, email)| == |p| - 1
      && Keys(r.state.activities) == Keys(s.activities)
      && (forall n :: n != name ==> Get(r.state.activities, n) == Get(s.activities, n))
      && r.state.students == s.students
  {
    match Get(s.activities, name)
    case None => Step(Err(NotFound("Activity not found")), s)
    case Some(a) =>
      if email !in a.participants then
        Step(Err(Conflict("Student is not signed up for this activity")), s)
      else
        RemoveFirstMembers(a.participants, email, email);
        var a' := a.(participants := RemoveFirst(a.participants, email));
        Step(Ok("Unregistered " + email + " from " + name), s.(activities := Put(s.activities, name, a')))
  }

  /** The participant lists of a catalogue whose entries agree with another
      one's under every key. */
  lemma SameEntriesNoDup(d: Dict<string, Activity>, d': Dict<string, Activity>, name: string)
    requires Keys(d') == Keys(d)
    requires forall n :: n != name ==> Get(d', n) == Get(d, n)
    requires NoDuplicateParticipants(d)
    requires name in Keys(d) ==> NoDup(Get(d', name).value.participants)
    ensures NoDuplicateParticipants(d')
  {
    forall i | 0 <= i < |d'| ensures NoDup(d'[i].1.participants) {
      assert Keys(d')[i] == Keys(d)[i];
      GetAt(d', i);
      GetAt(d, i);
    }
  }

  /** A successful signup cannot create a duplicate: the email was checked absent. */
  lemma SignupPreservesNoDuplicates(s: State, name: string, email: Email)
    requires NoDuplicateParticipants(s.activities)
    ensures NoDuplicateParticipants(Signup(s, name, email).state.activities)
  {
    var r := Signup(s, name, email);
    if r.result.Ok? {
      var a := Get(s.activities, name).value;
      GetAt(s.activities, IndexOf(s.activities, name).value);
      AppendNoDup(a.participants, email);
      SameEntriesNoDup(s.activities, r.state.activities, name);
    }
  }

  /** Unregistering removes one copy, which keeps a duplicate-free list so. */
  lemma UnregisterPreservesNoDuplicates(s: State, name: string, email: Email)
    requires NoDuplicateParticipants(s.activities)
    ensures NoDuplicateParticipants(Unregister(s, name, email).state.activities)
  {
    var r := Unregister(s, name, email);
    if r.result.Ok? {
      var a := Get(s.activities, name).value;
      GetAt(s.activities, IndexOf(s.activities, name).value);
      RemoveFirstNoDup(a.participants, email);
      SameEntriesNoDup(s.activities, r.state.activities, name);
    }
  }

  /** A successful signup followed by unregistering the same email restores
      the state exactly. */
  lemma SignupThenUnregister(s: State, name: string, email: Email)
    requires Signup(s, name, email).result.Ok?
    ensures Unregister(Signup(s, name, email).state, name, email).result.Ok?
    ensures Unregister(Signup(s, name, email).state, name, email).state == s
  {
    var a := Get(s.activities, name).value;
    var s1 := Signup(s, name, email).state;
    AppendThenRemove(a.participants, email);
    var s2 := Unregister(s1, name, email).state;
    var i := IndexOf(s.activities, name).value;
    GetAt(s.activities, i);
    assert s2.activities == s.activities by {
      SameLookups(s2.activities, s.activities);
    }
  }

  /** Signing up twice: the second attempt is rejected and changes nothing. */
  lemma SignupTwiceConflicts(s: State, name: string, email: Email)
    requires Signup(s, name, email).result.Ok?
    ensures var s1 := Signup(s, name, email).state;
      Signup(s1, name, email) == Step(Err(Conflict("Student is already signed up")), s1)
  {
  }
}
