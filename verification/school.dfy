/** The application state: the activity catalogue and the student store,
    both insertion-ordered dicts, plus the outcome types of the handlers and
    the participant-list cascades that keep the two stores in step. */
module School {
  import opened Options
  import opened Dict
  import opened Participants

  type Email = string

  /** One catalogue entry. `maxParticipants` is stored but no handler reads it. */
  datatype Activity = Activity(
    description: string,
    schedule: string,
    maxParticipants: int,
    participants: seq<Email>)

  datatype Student = Student(name: string, email: Email, grade: string)

  /** The catalogue is keyed by activity name, the student store by email. */
  datatype State = State(
    activities: Dict<string, Activity>,
    students: Dict<Email, Student>)

  /** The two client errors the handlers raise as `HTTPException`. */
  datatype Error = NotFound(detail: string) | Conflict(detail: string) {
    function Status(): (code: int)
      ensures code == 404 <==> NotFound?
      ensures code == 400 <==> Conflict?
    {
      match this
      case NotFound(_) => 404
      case Conflict(_) => 400
    }
  }

  datatype Result<T> = Ok(value: T) | Err(error: Error)

  /** What a mutating handler returns: its response and the state after it.
      The state is returned on errors too, because one handler mutates
      before it fails. */
  datatype Step<T> = Step(result: Result<T>, state: State)

  /** Every student record carries the email it is stored under. `create`
      and `update` maintain this; nothing in the stores enforces it. */
  predicate RecordsMatchKeys(students: seq<(Email, Student)>) {
    forall i :: 0 <= i < |students| ==> students[i].1.email == students[i].0
  }

  /** No participant list holds an email twice. */
  predicate NoDuplicateParticipants(activities: seq<(string, Activity)>) {
    forall i :: 0 <= i < |activities| ==> NoDup(activities[i].1.participants)
  }

  /** `email` is absent from every participant list. */
  predicate ListedNowhere(activities: seq<(string, Activity)>, email: Email) {
    forall i :: 0 <= i < |activities| ==> email !in activities[i].1.participants
  }

  /** Some participant list holds both `a` and `b`. */
  predicate CoListed(activities: seq<(string, Activity)>, a: Email, b: Email) {
    exists i :: 0 <= i < |activities| && a in activities[i].1.participants && b in activities[i].1.participants
  }

  /** The change a student delete or rename makes to each participant list. */
  datatype Cascade = Drop(email: Email) | Rename(from: Email, to: Email)

  /** The body of the cascade loops: remove the first copy of the email when
      the list holds it; on a rename, append the new email after removing. */
  function ApplyCascade(p: seq<Email>, c: Cascade): (r: seq<Email>)
    ensures c.Drop? ==> multiset(r) == multiset(p) - multiset{c.email}
    ensures c.Rename? && c.from in p ==> multiset(r) == multiset(p) - multiset{c.from} + multiset{c.to}
    ensures c.Rename? && c.from !in p ==> r == p
  {
    match c
    case Drop(e) =>
      if e in p then
        RemoveFirstMultiset(p, e);
        RemoveFirst(p, e)
      else
        assert multiset(p)[e] == 0;
        p
    case Rename(a, b) =>
      if a in p then
        RemoveFirstMultiset(p, a);
        RemoveFirst(p, a) + [b]
      else p
  }

  /** The cascade applied to every activity, in catalogue order. */
  function CascadeAll(activities: Dict<string, Activity>, c: Cascade): (r: Dict<string, Activity>)
    ensures Keys(r) == Keys(activities)
    ensures forall i :: 0 <= i < |activities| ==>
      r[i].1 == activities[i].1.(participants := ApplyCascade(activities[i].1.participants, c))
  {
    var r := seq(|activities|, i requires 0 <= i < |activities| =>
      (activities[i].0,
       activities[i].1.(participants := ApplyCascade(activities[i].1.participants, c))));
    assert Keys(r) == Keys(activities);
    r
  }

  /** A dropped email leaves a list without losing or gaining any other
      email, and a duplicate-free list keeps no copy of it. */
  lemma DropEffect(p: seq<Email>, e: Email, y: Email)
    ensures |ApplyCascade(p, Drop(e))| == if e in p then |p| - 1 else |p|
    ensures y != e ==> (y in ApplyCascade(p, Drop(e)) <==> y in p)
    ensures NoDup(p) ==> e !in ApplyCascade(p, Drop(e)) && NoDup(ApplyCascade(p, Drop(e)))
  {
    if e in p {
      RemoveFirstMembers(p, e, y);
      if NoDup(p) {
        RemoveFirstNoDup(p, e);
      }
    }
  }

  /** A renamed email moves to the end of every list that held it; a
      duplicate-free list then holds no copy of the old email, and it stays
      duplicate-free exactly when it did not already hold the new email. */
  lemma RenameEffect(p: seq<Email>, a: Email, b: Email, y: Email)
    requires a != b
    ensures a !in p ==> ApplyCascade(p, Rename(a, b)) == p
    ensures a in p ==> |ApplyCascade(p, Rename(a, b))| == |p|
    ensures a in p ==> ApplyCascade(p, Rename(a, b))[|p| - 1] == b
    ensures a in p && y != a && y != b ==> (y in ApplyCascade(p, Rename(a, b)) <==> y in p)
    ensures a in p && NoDup(p) ==> a !in ApplyCascade(p, Rename(a, b))
    ensures NoDup(p) && b !in p ==> NoDup(ApplyCascade(p, Rename(a, b)))
    ensures a in p && b in p ==> !NoDup(ApplyCascade(p, Rename(a, b)))
  {
    if a in p {
      RemoveFirstMembers(p, a, y);
      RemoveFirstMembers(p, a, b);
      var q := RemoveFirst(p, a);
      if NoDup(p) {
        RemoveFirstNoDup(p, a);
        if b !in p {
          AppendNoDup(q, b);
        }
      }
      if b in p {
        var j :| 0 <= j < |q| && q[j] == b;
        var r := q + [b];
        assert r[j] == r[|q|];
      }
    }
  }

  /** The rename cascade over the whole catalogue: lists without the old
      email are unchanged; a list with it keeps its length, ends with the new
      email and, if it was duplicate-free, no longer holds the old one; no
      list gains or loses any third email. */
  lemma RenameAll(activities: Dict<string, Activity>, a: Email, b: Email)
    requires a != b
    ensures var r := CascadeAll(activities, Rename(a, b));
      && (forall i :: 0 <= i < |r| && a !in activities[i].1.participants ==> r[i] == activities[i])
      && (forall i :: 0 <= i < |r| && a in activities[i].1.participants ==>
            && |r[i].1.participants| == |activities[i].1.participants|
            && r[i].1.participants[|r[i].1.participants| - 1] == b
            && (NoDup(activities[i].1.participants) ==> a !in r[i].1.participants))
      && (forall i, y :: 0 <= i < |r| && y != a && y != b ==>
            (y in r[i].1.participants <==> y in activities[i].1.participants))
  {
    var r := CascadeAll(activities, Rename(a, b));
    forall i, y | 0 <= i < |r|
      ensures a !in activities[i].1.participants ==> r[i] == activities[i]
      ensures a in activities[i].1.participants ==>
        && |r[i].1.participants| == |activities[i].1.participants|
        && r[i].1.participants[|r[i].1.participants| - 1] == b
        && (NoDup(activities[i].1.participants) ==> a !in r[i].1.participants)
      ensures y != a && y != b ==> (y in r[i].1.participants <==> y in activities[i].1.participants)
    {
      var p := activities[i].1.participants;
      RenameEffect(p, a, b, y);
      assert r[i].0 == Keys(r)[i] == Keys(activities)[i] == activities[i].0;
      assert r[i].1 == activities[i].1.(participants := ApplyCascade(p, Rename(a, b)));
    }
  }
}
