/**
 * The crontab operations of the server: `add_schedule`, `get_schedules`, `delete_schedules`
 * and the normalise-then-add flow of the `POST /schedule` route. The user's crontab is a
 * sequence of jobs held by a `CronTable` object; writing the crontab back replaces that sequence.
 */
module Repository {
  import opened Wrappers
  import opened Seqs
  import opened CronExpr
  import opened Entry
  import opened Text

  /** The comment that tags a job as created by this server. */
  const McpTag: string := "mcp"

  /** One crontab job: its schedule as stored, its command and its comment. */
  datatype Job = Job(schedule: string, command: string, comment: string)

  predicate IsManaged(job: Job) {
    job.comment == McpTag
  }

  /** The entry built from a job when listing or reporting matched jobs. */
  function ToEntry(job: Job): (e: ScheduleEntry)
    ensures e.schedule == job.schedule && e.command == job.command
    ensures e.mcpManaged <==> job.comment == "mcp"
  {
    ScheduleEntry(job.schedule, job.command, IsManaged(job))
  }

  function Entries(jobs: seq<Job>): seq<ScheduleEntry> {
    if jobs == [] then [] else [ToEntry(jobs[0])] + Entries(jobs[1..])
  }

  /** What `get_schedules` returns for a table: one entry per job, or per managed job when `mcpOnly`. */
  function Listing(jobs: seq<Job>, mcpOnly: bool): seq<ScheduleEntry> {
    Entries(if mcpOnly then Filter(jobs, IsManaged) else jobs)
  }

  /** The delete filter: the command matches OR the comment matches; an absent or empty filter matches nothing. */
  function Selects(job: Job, command: Option<string>, comment: Option<string>): (b: bool)
    ensures !Given(command) && !Given(comment) ==> !b
    ensures command.Some? && command.value != "" && job.command == command.value ==> b
    ensures comment.Some? && comment.value != "" && job.comment == comment.value ==> b
    ensures b ==> (command.Some? && job.command == command.value) || (comment.Some? && job.comment == comment.value)
  {
    (Given(command) && job.command == command.value) || (Given(comment) && job.comment == comment.value)
  }

  /** The jobs `delete_schedules` matches, in table order. */
  function Matched(jobs: seq<Job>, command: Option<string>, comment: Option<string>): seq<Job> {
    Filter(jobs, job => Selects(job, command, comment))
  }

  /** The jobs `delete_schedules` leaves in the table, in table order. */
  function Remaining(jobs: seq<Job>, command: Option<string>, comment: Option<string>): seq<Job> {
    Filter(jobs, job => !Selects(job, command, comment))
  }

  /** The result of a delete: the count it reports and the jobs it matched. */
  datatype Deletion = Deletion(count: nat, matched: seq<Job>)

  /** The answer of the `POST /schedule` route: `{"message": "Scheduled", "cron": ...}` or `{"error": ...}`. */
  datatype ScheduleResponse = Scheduled(cron: string) | Failed(error: Error)

  // ----- Properties of the listing -----

  lemma {:induction false} EntriesAppend(a: seq<Job>, b: seq<Job>)
    ensures Entries(a + b) == Entries(a) + Entries(b)
  {
    if a == [] {
      assert a + b == b;
    } else {
      assert (a + b)[1..] == a[1..] + b;
      EntriesAppend(a[1..], b);
    }
  }

  /** Listing a concatenation lists each part in turn: the table's order is kept. */
  lemma ListingAppend(a: seq<Job>, b: seq<Job>, mcpOnly: bool)
    ensures Listing(a + b, mcpOnly) == Listing(a, mcpOnly) + Listing(b, mcpOnly)
  {
    FilterAppend(a, b, IsManaged);
    EntriesAppend(if mcpOnly then Filter(a, IsManaged) else a, if mcpOnly then Filter(b, IsManaged) else b);
  }

  lemma {:induction false} EntriesAt(jobs: seq<Job>)
    ensures |Entries(jobs)| == |jobs|
    ensures forall i :: 0 <= i < |jobs| ==> Entries(jobs)[i] == ToEntry(jobs[i])
  {
    if jobs != [] {
      EntriesAt(jobs[1..]);
    }
  }

  /** Without `mcpOnly` there is one entry per job, in order, managed exactly when the comment is `mcp`. */
  lemma ListingAllJobs(jobs: seq<Job>)
    ensures |Listing(jobs, false)| == |jobs|
    ensures forall i :: 0 <= i < |jobs| ==>
              Listing(jobs, false)[i].schedule == jobs[i].schedule
              && Listing(jobs, false)[i].command == jobs[i].command
              && (Listing(jobs, false)[i].mcpManaged <==> jobs[i].comment == McpTag)
  {
    EntriesAt(jobs);
  }

  /** With `mcpOnly` the listing is that of exactly the jobs whose comment is `mcp`, all of them managed. */
  lemma ListingManagedOnly(jobs: seq<Job>)
    ensures Listing(jobs, true) == Listing(Matched(jobs, None, Some(McpTag)), false)
    ensures forall job :: job in Matched(jobs, None, Some(McpTag)) <==> job in jobs && job.comment == McpTag
    ensures forall e :: e in Listing(jobs, true) ==> e.mcpManaged
  {
    FilterExtensional(jobs, IsManaged, job => Selects(job, None, Some(McpTag)));
    FilterMembership(jobs, job => Selects(job, None, Some(McpTag)));
    var managed := Filter(jobs, IsManaged);
    FilterMembership(jobs, IsManaged);
    EntriesAt(managed);
    forall e | e in Listing(jobs, true) ensures e.mcpManaged {
      var i :| 0 <= i < |managed| && Entries(managed)[i] == e;
      assert managed[i] in managed;
    }
  }

  /** Adding a job appends its entry, marked managed, to every listing. */
  lemma ListingAfterAdd(jobs: seq<Job>, entry: ScheduleEntry, mcpOnly: bool)
    ensures Listing(jobs + [Job(entry.schedule, entry.command, McpTag)], mcpOnly)
            == Listing(jobs, mcpOnly) + [ScheduleEntry(entry.schedule, entry.command, true)]
  {
    var job := Job(entry.schedule, entry.command, McpTag);
    ListingAppend(jobs, [job], mcpOnly);
    assert Filter([job], IsManaged) == [job];
    assert Entries([job]) == [ToEntry(job)];
  }

  // ----- Properties of the match set -----

  /** A job is matched iff it is in the table and its command equals the command filter or its comment the comment filter. */
  lemma MatchedMembership(jobs: seq<Job>, command: Option<string>, comment: Option<string>)
    ensures forall job :: job in Matched(jobs, command, comment) <==>
              job in jobs && ((Given(command) && job.command == command.value) || (Given(comment) && job.comment == comment.value))
    ensures forall job :: job in Remaining(jobs, command, comment) <==> job in jobs && !Selects(job, command, comment)
  {
    FilterMembership(jobs, job => Selects(job, command, comment));
    FilterMembership(jobs, job => !Selects(job, command, comment));
  }

  /** Matched and remaining jobs split the table: order kept on both sides, every job on exactly one side. */
  lemma MatchedSplitsTable(a: seq<Job>, b: seq<Job>, command: Option<string>, comment: Option<string>)
    ensures Matched(a + b, command, comment) == Matched(a, command, comment) + Matched(b, command, comment)
    ensures Remaining(a + b, command, comment) == Remaining(a, command, comment) + Remaining(b, command, comment)
    ensures multiset(Matched(a, command, comment)) + multiset(Remaining(a, command, comment)) == multiset(a)
  {
    FilterAppend(a, b, job => Selects(job, command, comment));
    FilterAppend(a, b, job => !Selects(job, command, comment));
    FilterPartition(a, job => Selects(job, command, comment), job => !Selects(job, command, comment));
  }

  /** Removing each matched job in turn leaves exactly the remaining jobs. */
  lemma RemoveMatchedLeavesRemaining(jobs: seq<Job>, command: Option<string>, comment: Option<string>)
    ensures RemoveEach(jobs, Matched(jobs, command, comment)) == Remaining(jobs, command, comment)
  {
    RemoveEachFiltered(jobs, job => Selects(job, command, comment), job => !Selects(job, command, comment));
  }

  /** Deleting by the `mcp` comment leaves a table whose managed-only listing is empty. */
  lemma ListingAfterDeletingManaged(jobs: seq<Job>)
    ensures Listing(Remaining(jobs, None, Some(McpTag)), true) == []
  {
    var rest := Remaining(jobs, None, Some(McpTag));
    MatchedMembership(jobs, None, Some(McpTag));
    FilterMembership(rest, IsManaged);
    if Filter(rest, IsManaged) != [] {
      assert Filter(rest, IsManaged)[0] in Filter(rest, IsManaged);
    }
  }

  // ----- The crontab -----

  class CronTable {
    /** The jobs of the user's crontab, in file order. */
    var jobs: seq<Job>

    constructor (initial: seq<Job>)
      ensures jobs == initial
    {
      jobs := initial;
    }

    /** `add_schedule`: a new job with the entry's command and schedule, tagged `mcp`, at the end of the table. */
    method AddSchedule(entry: ScheduleEntry)
      modifies this
      ensures jobs == old(jobs) + [Job(entry.schedule, entry.command, McpTag)]
    {
      jobs := jobs + [Job(entry.schedule, entry.command, McpTag)];
    }

    /** `get_schedules`, with the `mcp_only` setting passed in. */
    method GetSchedules(mcpOnly: bool) returns (entries: seq<ScheduleEntry>)
      ensures entries == Listing(jobs, mcpOnly)
    {
      entries := [];
      var i := 0;
      while i < |jobs|
        invariant 0 <= i <= |jobs|
        invariant entries == Listing(jobs[..i], mcpOnly)
      {
        var job := jobs[i];
        assert jobs[..i + 1] == jobs[..i] + [job];
        ListingAppend(jobs[..i], [job], mcpOnly);
        FilterSingleton(job, IsManaged);
        assert Entries([job]) == [ToEntry(job)];
        i := i + 1;
        if mcpOnly && job.comment != McpTag {
          continue;
        }
        entries := entries + [ToEntry(job)];
      }
      assert jobs[..i] == jobs;
    }

    /** The matching loop of `delete_schedules`. */
    method MatchJobs(command: Option<string>, comment: Option<string>) returns (matched: seq<Job>)
      ensures matched == Matched(jobs, command, comment)
    {
      matched := [];
      for i := 0 to |jobs|
        invariant matched == Matched(jobs[..i], command, comment)
      {
        var job := jobs[i];
        assert jobs[..i + 1] == jobs[..i] + [job];
        MatchedSplitsTable(jobs[..i], [job], command, comment);
        FilterSingleton(job, job => Selects(job, command, comment));
        if (Given(command) && job.command == command.value) || (Given(comment) && job.comment == comment.value) {
          matched := matched + [job];
        }
      }
      assert jobs[..|jobs|] == jobs;
    }

    /**
     * `delete_schedules`: refuses a request with no usable filter; otherwise matches jobs and,
     * in preview, reports them with a count of 0 and leaves the table alone, else removes each
     * matched job and reports how many there were.
     */
    method DeleteSchedules(command: Option<string>, comment: Option<string>, preview: bool) returns (r: Result<Deletion>)
      modifies this
      ensures !Given(command) && !Given(comment) ==> r == Err(InvalidArgument) && jobs == old(jobs)
      ensures Given(command) || Given(comment) ==> r.Ok? && r.value.matched == Matched(old(jobs), command, comment)
      ensures r.Ok? && preview ==> r.value.count == 0 && jobs == old(jobs)
      ensures r.Ok? && !preview ==> r.value.count == |r.value.matched| && jobs == Remaining(old(jobs), command, comment)
    {
      if !Given(command) && !Given(comment) {
        return Err(InvalidArgument);
      }
      var matched := MatchJobs(command, comment);
      if preview {
        return Ok(Deletion(0, matched));
      }
      for i := 0 to |matched|
        invariant RemoveEach(jobs, matched[i..]) == RemoveEach(old(jobs), matched)
      {
        assert matched[i..][1..] == matched[i + 1..];
        jobs := RemoveFirst(jobs, matched[i]);
      }
      RemoveMatchedLeavesRemaining(old(jobs), command, comment);
      return Ok(Deletion(|matched|, matched));
    }

    /** `schedule_job` (and the `add` command): normalise the expression, add the job, answer with its crontab text. */
    method ScheduleJob(expression: string, command: string) returns (response: ScheduleResponse)
      modifies this
      ensures response.Failed? <==> !IsCronExpression(expression) && !EqualsIgnoringCase(expression, DailyAt5pm)
      ensures response.Failed? ==> response.error == InvalidExpression && jobs == old(jobs)
      ensures response.Scheduled? ==>
                var schedule := Normalize(expression).value;
                response.cron == schedule + " " + command && jobs == old(jobs) + [Job(schedule, command, McpTag)]
      ensures IsCronExpression(expression) ==> response == Scheduled(expression + " " + command)
    {
      var normalized := Normalize(expression);
      if normalized.Err? {
        return Failed(normalized.error);
      }
      var entry := ScheduleEntry(normalized.value, command, true);
      AddSchedule(entry);
      return Scheduled(ToCrontab(entry));
    }
  }
}
