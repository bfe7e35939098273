/** The two read-only views that join the stores: a student's activities
    and the rows of the CSV export with each student's activity count. */
module Reports {
  import opened Dict
  import opened School

  /** The reduced activity record the per-student listing returns. */
  datatype ActivitySummary = ActivitySummary(name: string, description: string, schedule: string)

  function Summary(entry: (string, Activity)): ActivitySummary {
    ActivitySummary(entry.0, entry.1.description, entry.1.schedule)
  }

  /** Reference definition: the catalogue entries whose participant list
      holds `email`, projected and kept in catalogue order. */
  function Enrolled(activities: seq<(string, Activity)>, email: Email): seq<ActivitySummary> {
    if activities == [] then []
    else
      var last := activities[|activities| - 1];
      Enrolled(activities[..|activities| - 1], email)
        + (if email in last.1.participants then [Summary(last)] else [])
  }

  /** Reference definition of the export's count: one per catalogue entry
      whose participant list holds `email`. */
  function ActivityCount(activities: seq<(string, Activity)>, email: Email): nat {
    if activities == [] then 0
    else
      var last := activities[|activities| - 1];
      ActivityCount(activities[..|activities| - 1], email)
        + (if email in last.1.participants then 1 else 0)
  }

  /** The listing holds exactly the summaries of the activities that list
      the email. */
  lemma {:induction false} EnrolledMembers(activities: seq<(string, Activity)>, email: Email, x: ActivitySummary)
    ensures x in Enrolled(activities, email) <==>
      exists i :: 0 <= i < |activities| && email in activities[i].1.participants && x == Summary(activities[i])
  {
    if activities != [] {
      var n := |activities| - 1;
      var prefix := activities[..n];
      EnrolledMembers(prefix, email, x);
      assert forall i :: 0 <= i < n ==> prefix[i] == activities[i];
      if x in Enrolled(activities, email) && x !in Enrolled(prefix, email) {
        assert email in activities[n].1.participants && x == Summary(activities[n]);
      }
    }
  }

  /** The listing's length is the export's count. */
  lemma {:induction false} EnrolledLength(activities: seq<(string, Activity)>, email: Email)
    ensures |Enrolled(activities, email)| == ActivityCount(activities, email)
  {
    if activities != [] {
      EnrolledLength(activities[..|activities| - 1], email);
    }
  }

  /** The count is zero exactly when no participant list holds the email. */
  lemma {:induction false} CountZeroIffListedNowhere(activities: seq<(string, Activity)>, email: Email)
    ensures ActivityCount(activities, email) == 0 <==> ListedNowhere(activities, email)
  {
    if activities != [] {
      var n := |activities| - 1;
      var prefix := activities[..n];
      CountZeroIffListedNowhere(prefix, email);
      assert forall i :: 0 <= i < n ==> prefix[i] == activities[i];
    }
  }

  /** GET /students/{email}/activities, as the loop over the catalogue. */
  method GetStudentActivities(s: State, email: Email) returns (r: Result<seq<ActivitySummary>>)
    ensures r == Err(NotFound("Student not found")) <==> email !in Keys(s.students)
    ensures r.Ok? <==> email in Keys(s.students)
    ensures r.Ok? ==> r.value == Enrolled(s.activities, email)
    ensures r.Ok? ==> |r.value| == ActivityCount(s.activities, email)
  {
    if email !in Keys(s.students) {
      return Err(NotFound("Student not found"));
    }
    var found: seq<ActivitySummary> := [];
    var i := 0;
    while i < |s.activities|
      invariant 0 <= i <= |s.activities|
      invariant found == Enrolled(s.activities[..i], email)
    {
      var (name, details) := s.activities[i];
      if email in details.participants {
        found := found + [ActivitySummary(name, details.description, details.schedule)];
      }
      assert s.activities[..i + 1][..i] == s.activities[..i];
      i := i + 1;
    }
    assert s.activities[..i] == s.activities;
    EnrolledLength(s.activities, email);
    return Ok(found);
  }

  /** The export's per-student count: one for each activity whose
      participant list holds the email. */
  method CountActivities(activities: seq<(string, Activity)>, email: Email) returns (n: nat)
    ensures n == ActivityCount(activities, email)
    ensures n == 0 <==> ListedNowhere(activities, email)
  {
    n := 0;
    var i := 0;
    while i < |activities|
      invariant 0 <= i <= |activities|
      invariant n == ActivityCount(activities[..i], email)
    {
      if email in activities[i].1.participants {
        n := n + 1;
      }
      assert activities[..i + 1][..i] == activities[..i];
      i := i + 1;
    }
    assert activities[..i] == activities;
    CountZeroIffListedNowhere(activities, email);
  }

  /** One data row of the export, before CSV quoting. */
  datatype CsvRow = CsvRow(name: string, email: string, grade: string, activitiesCount: nat)

  const Header: seq<string> := ["Name", "Email", "Grade", "Activities Count"]

  datatype Export = Export(header: seq<string>, rows: seq<CsvRow>)

  /** GET /students/export/csv, as the rows it writes: the header, then one
      row per student in store order. The count is taken under the store key,
      the email column from the record. */
  method ExportStudentsCsv(s: State) returns (out: Export)
    ensures out.header == Header
    ensures |out.rows| == |s.students|
    ensures forall i :: 0 <= i < |s.students| ==>
      var (key, st) := s.students[i];
      out.rows[i] == CsvRow(st.name, st.email, st.grade, ActivityCount(s.activities, key))
  {
    var rows: seq<CsvRow> := [];
    var i := 0;
    while i < |s.students|
      invariant 0 <= i <= |s.students|
      invariant |rows| == i
      invariant forall j :: 0 <= j < i ==>
        var (key, st) := s.students[j];
        rows[j] == CsvRow(st.name, st.email, st.grade, ActivityCount(s.activities, key))
    {
      var (key, st) := s.students[i];
      var count := CountActivities(s.activities, key);
      rows := rows + [CsvRow(st.name, st.email, st.grade, count)];
      i := i + 1;
    }
    return Export(Header, rows);
  }
}
