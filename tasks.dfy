/** The scraping tasks of the app (app.py): the task list and its ids, the
    check a batch must pass before it runs, the run of one task with its
    failure captured, the run of a batch, and the date range a task's show
    allows. */
module Tasks {
  import opened Basics
  import opened Text
  import opened Dates
  import opened Catalog
  import opened PricingText

  /** One row of the task form. */
  datatype Task = Task(id: nat, showTitle: string, url: string, fromDate: string, toDate: string)

  /** The form's new, empty task with a given id. */
  function BlankTask(id: nat): Task {
    Task(id, "", "", "", "")
  }

  // ---------------------------------------------------------------------
  // add_task and remove_task
  // ---------------------------------------------------------------------

  /** `add_task`: a blank task whose id is the length of the list. */
  function WithNewTask(tasks: seq<Task>): seq<Task> {
    tasks + [BlankTask(|tasks|)]
  }

  /** `remove_task`: every task with that id goes, the others keep their order. */
  function WithoutTask(tasks: seq<Task>, id: nat): (r: seq<Task>)
    ensures |r| <= |tasks|
  {
    if tasks == [] then []
    else (if tasks[0].id == id then [] else [tasks[0]]) + WithoutTask(tasks[1..], id)
  }

  /** A task stays exactly when it was there and its id differs. */
  lemma {:induction false} WithoutTaskHas(tasks: seq<Task>, id: nat, t: Task)
    ensures t in WithoutTask(tasks, id) <==> t in tasks && t.id != id
  {
    if tasks != [] {
      WithoutTaskHas(tasks[1..], id, t);
      assert tasks == [tasks[0]] + tasks[1..];
    }
  }

  /** No two tasks share an id, so an id names one task. */
  predicate DistinctIds(tasks: seq<Task>) {
    forall i, j | 0 <= i < j < |tasks| :: tasks[i].id != tasks[j].id
  }

  /** One more than the largest id, or 0: an id no task has. */
  function FreshId(tasks: seq<Task>): (n: nat)
    ensures forall t | t in tasks :: t.id < n
  {
    if tasks == [] then 0
    else
      var rest := FreshId(tasks[1..]);
      assert forall t | t in tasks :: t == tasks[0] || t in tasks[1..];
      if tasks[0].id + 1 > rest then tasks[0].id + 1 else rest
  }

  /** `add_task` as evidently intended: a blank task with an id no task has. */
  function WithFreshTask(tasks: seq<Task>): seq<Task> {
    tasks + [BlankTask(FreshId(tasks))]
  }

  /** The session's task list. */
  class TaskList {
    var tasks: seq<Task>

    constructor()
      ensures tasks == []
    {
      tasks := [];
    }

    /** `add_task` as written: the new id is the current length. */
    method AddTask()
      modifies this
      ensures tasks == WithNewTask(old(tasks))
    {
      tasks := tasks + [BlankTask(|tasks|)];
    }

    /** `add_task` with an id no task has: the ids stay distinct. */
    method AddTaskWithFreshId()
      modifies this
      ensures tasks == WithFreshTask(old(tasks))
      ensures DistinctIds(old(tasks)) ==> DistinctIds(tasks)
    {
      FreshTaskKeepsDistinct(tasks);
      tasks := tasks + [BlankTask(FreshId(tasks))];
    }

    /** `remove_task`: the list is rebuilt without the tasks of that id. */
    method RemoveTask(id: nat)
      modifies this
      ensures tasks == WithoutTask(old(tasks), id)
      ensures DistinctIds(old(tasks)) ==> DistinctIds(tasks)
    {
      if DistinctIds(tasks) {
        WithoutTaskKeepsDistinct(tasks, id);
      }
      tasks := WithoutTask(tasks, id);
    }
  }

  /** Removing an id no task has leaves the list as it was. */
  lemma {:induction false} WithoutAbsentTask(tasks: seq<Task>, id: nat)
    requires forall t | t in tasks :: t.id != id
    ensures WithoutTask(tasks, id) == tasks
  {
    if tasks != [] {
      WithoutAbsentTask(tasks[1..], id);
      assert [tasks[0]] + tasks[1..] == tasks;
    }
  }

  /** Some task has this id. */
  predicate HasId(tasks: seq<Task>, id: nat) {
    exists k | 0 <= k < |tasks| :: tasks[k].id == id
  }

  lemma DistinctTail(tasks: seq<Task>)
    requires tasks != [] && DistinctIds(tasks)
    ensures DistinctIds(tasks[1..])
    ensures forall t | t in tasks[1..] :: t.id != tasks[0].id
  {
    var rest := tasks[1..];
    forall i, j | 0 <= i < j < |rest| ensures rest[i].id != rest[j].id {
      assert rest[i] == tasks[i + 1] && rest[j] == tasks[j + 1];
    }
    forall t | t in rest ensures t.id != tasks[0].id {
      var j :| 0 <= j < |rest| && rest[j] == t;
      assert tasks[j + 1] == t;
    }
  }

  /** Removal keeps the ids distinct. */
  lemma {:induction false} WithoutTaskKeepsDistinct(tasks: seq<Task>, id: nat)
    requires DistinctIds(tasks)
    ensures DistinctIds(WithoutTask(tasks, id))
  {
    if tasks != [] {
      var rest := tasks[1..];
      DistinctTail(tasks);
      WithoutTaskKeepsDistinct(rest, id);
      var r := WithoutTask(tasks, id);
      var rr := WithoutTask(rest, id);
      if tasks[0].id != id {
        assert r == [tasks[0]] + rr;
        forall i, j | 0 <= i < j < |r| ensures r[i].id != r[j].id {
          if i == 0 {
            WithoutTaskHas(rest, id, rr[j - 1]);
            assert r[j] == rr[j - 1] && rr[j - 1] in rest;
          } else {
            assert r[i] == rr[i - 1] && r[j] == rr[j - 1];
          }
        }
      }
    }
  }

  /** With distinct ids, removal takes out exactly one task when the id is
      present and none when it is not. */
  lemma {:induction false} WithoutTaskCount(tasks: seq<Task>, id: nat)
    requires DistinctIds(tasks)
    ensures |WithoutTask(tasks, id)| == |tasks| - (if HasId(tasks, id) then 1 else 0)
  {
    if tasks != [] {
      var rest := tasks[1..];
      DistinctTail(tasks);
      WithoutTaskCount(rest, id);
      assert HasId(tasks, id) <==> tasks[0].id == id || HasId(rest, id) by {
        assert forall k | 0 < k < |tasks| :: tasks[k] == rest[k - 1];
        assert forall k | 0 <= k < |rest| :: rest[k] == tasks[k + 1];
      }
      if tasks[0].id == id {
        assert !HasId(rest, id) by {
          assert forall k | 0 <= k < |rest| :: rest[k] in rest;
        }
      }
    }
  }

  /** The fresh add keeps the ids distinct, and the new task's id is new. */
  lemma FreshTaskKeepsDistinct(tasks: seq<Task>)
    ensures forall t | t in tasks :: t.id != FreshId(tasks)
    ensures DistinctIds(tasks) ==> DistinctIds(WithFreshTask(tasks))
  {
    var r := WithFreshTask(tasks);
    if DistinctIds(tasks) {
      forall i, j | 0 <= i < j < |r| ensures r[i].id != r[j].id {
        if j == |tasks| {
          assert r[i] == tasks[i] && tasks[i] in tasks;
        } else {
          assert r[i] == tasks[i] && r[j] == tasks[j];
        }
      }
    }
  }

  /** Removing the task just added with a fresh id gives the list back. */
  lemma RemoveUndoesFreshAdd(tasks: seq<Task>)
    ensures WithoutTask(WithFreshTask(tasks), FreshId(tasks)) == tasks
  {
    var n := FreshId(tasks);
    WithoutAppend(tasks, BlankTask(n), n);
    WithoutAbsentTask(tasks, n);
  }

  lemma {:induction false} WithoutAppend(tasks: seq<Task>, t: Task, id: nat)
    ensures WithoutTask(tasks + [t], id) == WithoutTask(tasks, id) + (if t.id == id then [] else [t])
  {
    if tasks == [] {
      assert [] + [t] == [t];
    } else {
      assert (tasks + [t])[1..] == tasks[1..] + [t];
      WithoutAppend(tasks[1..], t, id);
    }
  }

  /** With adds only, `add_task` numbers the tasks by position, so the ids
      are distinct. */
  lemma AddsOnlyNumberByPosition(tasks: seq<Task>)
    requires forall i | 0 <= i < |tasks| :: tasks[i].id == i
    ensures forall i | 0 <= i < |WithNewTask(tasks)| :: WithNewTask(tasks)[i].id == i
    ensures DistinctIds(WithNewTask(tasks))
  {
  }

  /** Two tasks, the first removed, one added: the new task takes the id the
      remaining task has, and removing that id then removes both. */
  lemma AddAfterRemoveReusesId()
    ensures var before := WithNewTask(WithNewTask([]));
      var after := WithNewTask(WithoutTask(before, 0));
      after == [BlankTask(1), BlankTask(1)] && !DistinctIds(after) && WithoutTask(after, 1) == []
  {
    var before := WithNewTask(WithNewTask([]));
    assert before == [BlankTask(0), BlankTask(1)];
    assert WithoutTask(before, 0) == [BlankTask(1)] by {
      assert before[1..] == [BlankTask(1)];
      assert before[1..][1..] == [];
    }
    var after := WithNewTask([BlankTask(1)]);
    assert after == [BlankTask(1), BlankTask(1)];
    assert after[1..] == [BlankTask(1)] && after[1..][1..] == [];
  }

  /** The same steps with the fresh add keep the ids distinct. */
  lemma FreshAddAfterRemoveKeepsDistinct()
    ensures var before := WithFreshTask(WithFreshTask([]));
      DistinctIds(before) && DistinctIds(WithFreshTask(WithoutTask(before, 0)))
  {
    var one := WithFreshTask([]);
    FreshTaskKeepsDistinct([]);
    FreshTaskKeepsDistinct(one);
    var before := WithFreshTask(one);
    WithoutTaskKeepsDistinct(before, 0);
    FreshTaskKeepsDistinct(WithoutTask(before, 0));
  }

  // ---------------------------------------------------------------------
  // The check in run_all_tasks, and the run filter
  // ---------------------------------------------------------------------

  /** Why a batch is refused; `task` numbers the task from 1. */
  datatype BatchError =
    | NoTasks
    | MissingShow(task: nat)
    | MissingFromDate(task: nat)
    | BadFromDate(task: nat)
    | BadToDate(task: nat)

  /** The condition the run applies to each task before it scrapes. */
  predicate TaskIsValid(t: Task) {
    Strip(t.url) != [] && t.fromDate != [] && ValidateDate(t.fromDate) && ValidateDate(t.toDate)
  }

  /** The first complaint about the task numbered `number`, in the order
      the check makes them; none exactly when the run would accept the task. */
  function TaskProblem(t: Task, number: nat): (r: Option<BatchError>)
    ensures r.None? <==> TaskIsValid(t)
    ensures r.Some? ==> !r.value.NoTasks? && r.value.task == number
  {
    if Strip(t.url) == [] then Some(MissingShow(number))
    else if t.fromDate == [] then Some(MissingFromDate(number))
    else if !ValidateDate(t.fromDate) then Some(BadFromDate(number))
    else if !ValidateDate(t.toDate) then Some(BadToDate(number))
    else None
  }

  /** The first complaint about the tasks from index `from` on. */
  function FirstProblem(tasks: seq<Task>, from: nat): Option<BatchError>
    requires from <= |tasks|
    decreases |tasks| - from
  {
    if from == |tasks| then None
    else
      var p := TaskProblem(tasks[from], from + 1);
      if p.Some? then p else FirstProblem(tasks, from + 1)
  }

  /** The batch check: refused when empty or at its first faulty task. */
  function CheckBatch(tasks: seq<Task>): Result<seq<Task>, BatchError> {
    if tasks == [] then Err(NoTasks)
    else
      match FirstProblem(tasks, 0)
      case Some(e) => Err(e)
      case None => Ok(tasks)
  }

  lemma {:induction false} FirstProblemSkips(tasks: seq<Task>, i: nat)
    requires i <= |tasks|
    requires forall k | 0 <= k < i :: TaskIsValid(tasks[k])
    ensures FirstProblem(tasks, 0) == FirstProblem(tasks, i)
    decreases i
  {
    if i > 0 {
      FirstProblemSkips(tasks, i - 1);
    }
  }

  /** The loop of `run_all_tasks` that checks every task before anything runs. */
  method ValidateTasks(tasks: seq<Task>) returns (r: Result<seq<Task>, BatchError>)
    ensures r == CheckBatch(tasks)
  {
    if tasks == [] {
      return Err(NoTasks);
    }
    var valid := [];
    var i := 0;
    while i < |tasks|
      invariant 0 <= i <= |tasks|
      invariant valid == tasks[..i]
      invariant forall k | 0 <= k < i :: TaskIsValid(tasks[k])
    {
      var p := TaskProblem(tasks[i], i + 1);
      if p.Some? {
        FirstProblemSkips(tasks, i);
        return Err(p.value);
      }
      valid := valid + [tasks[i]];
      i := i + 1;
    }
    FirstProblemSkips(tasks, i);
    assert valid == tasks;
    return Ok(valid);
  }

  lemma {:induction false} FirstProblemNone(tasks: seq<Task>, from: nat)
    requires from <= |tasks|
    ensures FirstProblem(tasks, from).None? <==> forall k | from <= k < |tasks| :: TaskIsValid(tasks[k])
    decreases |tasks| - from
  {
    if from < |tasks| {
      FirstProblemNone(tasks, from + 1);
    }
  }

  lemma {:induction false} FirstProblemIs(tasks: seq<Task>, from: nat)
    requires from <= |tasks| && FirstProblem(tasks, from).Some?
    ensures var e := FirstProblem(tasks, from).value;
      !e.NoTasks? && from < e.task <= |tasks| && TaskProblem(tasks[e.task - 1], e.task) == Some(e)
      && forall k | from <= k < e.task - 1 :: TaskIsValid(tasks[k])
    decreases |tasks| - from
  {
    if TaskProblem(tasks[from], from + 1).None? {
      FirstProblemIs(tasks, from + 1);
    }
  }

  /** A batch passes exactly when it is non-empty and the run would accept
      each of its tasks; it then passes whole. */
  lemma CheckBatchOk(tasks: seq<Task>)
    ensures CheckBatch(tasks).Ok? <==> tasks != [] && forall k | 0 <= k < |tasks| :: TaskIsValid(tasks[k])
    ensures CheckBatch(tasks).Ok? ==> CheckBatch(tasks).value == tasks
  {
    FirstProblemNone(tasks, 0);
  }

  /** A refused non-empty batch names its first faulty task, by number from
      1, with that task's first complaint; every earlier task is fine. */
  lemma CheckBatchErr(tasks: seq<Task>)
    requires CheckBatch(tasks).Err? && tasks != []
    ensures var e := CheckBatch(tasks).error;
      !e.NoTasks? && 1 <= e.task <= |tasks| && TaskProblem(tasks[e.task - 1], e.task) == Some(e)
      && forall k | 0 <= k < e.task - 1 :: TaskIsValid(tasks[k])
  {
    FirstProblemIs(tasks, 0);
  }

  /** The tasks the run scrapes: those it accepts, in list order. */
  function RunnableTasks(tasks: seq<Task>): seq<Task> {
    Filter(tasks, TaskIsValid)
  }

  /** The run keeps exactly the accepted tasks. */
  lemma RunnableTasksAre(tasks: seq<Task>, t: Task)
    ensures t in RunnableTasks(tasks) <==> t in tasks && TaskIsValid(t)
  {
    FilterHas(tasks, TaskIsValid, t);
  }

  /** After the batch check passed, the run scrapes every task. */
  lemma RunnableAfterCheck(tasks: seq<Task>)
    requires forall k | 0 <= k < |tasks| :: TaskIsValid(tasks[k])
    ensures RunnableTasks(tasks) == tasks
  {
    FilterAll(tasks, TaskIsValid);
  }

  /** The run's filter loop. */
  method SelectRunnable(tasks: seq<Task>) returns (valid: seq<Task>)
    ensures valid == RunnableTasks(tasks)
  {
    valid := [];
    var i := 0;
    while i < |tasks|
      invariant 0 <= i <= |tasks|
      invariant valid == RunnableTasks(tasks[..i])
    {
      assert tasks[..i + 1][..i] == tasks[..i];
      if TaskIsValid(tasks[i]) {
        valid := valid + [tasks[i]];
      }
      i := i + 1;
    }
    assert tasks[..i] == tasks;
  }

  // ---------------------------------------------------------------------
  // run_scraping_task and the run
  // ---------------------------------------------------------------------

  /** What `scrape_pricing` returns. */
  datatype ScrapeReply = ScrapeReply(error: Option<string>, scrapedData: seq<Item>, clickSuccessful: bool)

  /** A call of `scrape_pricing`: it returns a reply or raises with a message. */
  datatype ScrapeOutcome = Returned(reply: ScrapeReply) | Raised(message: string)

  /** The record of one task's run. */
  datatype TaskResult = TaskResult(task: Task, result: ScrapeReply, success: bool, timestamp: string)

  /** The last day asked for: the from date when the to date is empty. */
  function ToDateOf(t: Task): (d: string)
    ensures t.toDate != [] ==> d == t.toDate
    ensures t.toDate == [] ==> d == t.fromDate
  {
    if t.toDate != [] then t.toDate else t.fromDate
  }

  /** `run_scraping_task`: the scraper, given the task's show and date range,
      and the clock's reading are parameters. A raised error becomes a
      failed result with no data; a returned reply is a success, whatever
      the reply says. */
  function RunScrapingTask(t: Task, scrape: (string, string, string) -> ScrapeOutcome, timestamp: string): (r: TaskResult)
    ensures r.task == t && r.timestamp == timestamp
    ensures var outcome := scrape(t.url, t.fromDate, ToDateOf(t));
      (r.success <==> outcome.Returned?)
      && (outcome.Returned? ==> r.result == outcome.reply)
      && (outcome.Raised? ==> r.result == ScrapeReply(Some(outcome.message), [], false))
  {
    match scrape(t.url, t.fromDate, ToDateOf(t))
    case Returned(reply) => TaskResult(t, reply, true, timestamp)
    case Raised(message) => TaskResult(t, ScrapeReply(Some(message), [], false), false, timestamp)
  }

  /** A task the run accepts asks the scraper for a range of two
      non-empty dates of the `MM/DD/YYYY` shape. */
  lemma RunnableTaskAsksWellFormedRange(t: Task)
    requires TaskIsValid(t)
    ensures var to := ToDateOf(t);
      to != [] && ValidateDate(to) && ValidateDate(t.fromDate) && t.fromDate != []
  {
  }

  /** A task whose show is chosen and whose dates come from the date picker
      is accepted. */
  lemma PickedTaskIsValid(t: Task, from: Date, to: Option<Date>)
    requires Strip(t.url) != []
    requires IsValidDate(from) && (to.Some? ==> IsValidDate(to.value))
    requires t.fromDate == FormatDateForTask(Some(from)) && t.toDate == FormatDateForTask(to)
    ensures TaskIsValid(t)
  {
    TaskDateValidates(Some(from));
    TaskDateValidates(to);
    assert |DateText(from)| == 10 by {
      FormattedDateValidates(from);
    }
  }

  /** The results of a run over the accepted tasks, the `k`-th stamped with
      the clock's `k`-th reading. */
  function BatchResults(valid: seq<Task>, scrape: (string, string, string) -> ScrapeOutcome, clock: nat -> string)
    : (rs: seq<TaskResult>)
    ensures |rs| == |valid|
  {
    seq(|valid|, k requires 0 <= k < |valid| => RunScrapingTask(valid[k], scrape, clock(k)))
  }

  /** Faults stay with their task: the `k`-th result is for the `k`-th task; it
      failed exactly when the scrape of that task raised, and then it carries
      the error, no rows and no click; otherwise it carries the scraper's reply. */
  lemma RunIsolatesFaults(valid: seq<Task>, scrape: (string, string, string) -> ScrapeOutcome, clock: nat -> string, k: nat)
    requires k < |valid|
    ensures var r := BatchResults(valid, scrape, clock)[k];
      var outcome := scrape(valid[k].url, valid[k].fromDate, ToDateOf(valid[k]));
      r.task == valid[k]
      && (!r.success <==> outcome.Raised?)
      && (!r.success ==> r.result.error == Some(outcome.message) && r.result.scrapedData == [] && !r.result.clickSuccessful)
      && (r.success ==> r.result == outcome.reply)
  {
    assert BatchResults(valid, scrape, clock)[k] == RunScrapingTask(valid[k], scrape, clock(k));
  }

  /** What the scraper does for other tasks, raising included, cannot change a
      task's result: it depends only on that task's own scrape and clock reading. */
  lemma RunResultIsOwn(valid: seq<Task>, s1: (string, string, string) -> ScrapeOutcome,
                       s2: (string, string, string) -> ScrapeOutcome, clock: nat -> string, j: nat)
    requires j < |valid|
    requires var t := valid[j]; s1(t.url, t.fromDate, ToDateOf(t)) == s2(t.url, t.fromDate, ToDateOf(t))
    ensures BatchResults(valid, s1, clock)[j] == BatchResults(valid, s2, clock)[j]
  {
    assert BatchResults(valid, s1, clock)[j] == RunScrapingTask(valid[j], s1, clock(j));
    assert BatchResults(valid, s2, clock)[j] == RunScrapingTask(valid[j], s2, clock(j));
  }

  /** The run, one task after another: each accepted task gets exactly one
      result, read at the clock's `k`-th reading, and `completed` counts them. */
  method RunTasks(tasks: seq<Task>, scrape: (string, string, string) -> ScrapeOutcome, clock: nat -> string)
    returns (results: seq<TaskResult>, completed: nat)
    ensures completed == |results| == |RunnableTasks(tasks)|
    ensures results == BatchResults(RunnableTasks(tasks), scrape, clock)
    ensures forall k | 0 <= k < |results| :: TaskIsValid(results[k].task) && results[k].task in tasks
  {
    var valid := SelectRunnable(tasks);
    results := [];
    completed := 0;
    while completed < |valid|
      invariant completed <= |valid|
      invariant |results| == completed
      invariant forall k | 0 <= k < completed :: results[k] == RunScrapingTask(valid[k], scrape, clock(k))
    {
      results := results + [RunScrapingTask(valid[completed], scrape, clock(completed))];
      completed := completed + 1;
    }
    assert results == BatchResults(valid, scrape, clock);
    forall k | 0 <= k < |results| ensures TaskIsValid(results[k].task) && results[k].task in tasks {
      assert results[k].task == valid[k] && valid[k] in valid;
      RunnableTasksAre(tasks, valid[k]);
    }
  }

  // ---------------------------------------------------------------------
  // get_show_date_constraints
  // ---------------------------------------------------------------------

  const EarliestDefault := Date(2020, 1, 1)
  const LatestDefault := Date(2030, 12, 31)

  /** The first show of the catalog with this link. */
  function FirstShowWithUrl(shows: seq<Show>, url: string): (r: Option<Show>)
    ensures r.None? <==> forall k | 0 <= k < |shows| :: shows[k].url != url
    ensures r.Some? ==> exists k | 0 <= k < |shows| :: shows[k] == r.value && r.value.url == url
                          && forall j | 0 <= j < k :: shows[j].url != url
  {
    if shows == [] then None
    else if shows[0].url == url then Some(shows[0])
    else
      var r := FirstShowWithUrl(shows[1..], url);
      assert forall k | 0 <= k < |shows| - 1 :: shows[1..][k] == shows[k + 1];
      r
  }

  /** The search loop, stopping at the first show with the task's link. */
  method FindShow(shows: seq<Show>, url: string) returns (r: Option<Show>)
    ensures r == FirstShowWithUrl(shows, url)
  {
    var i := 0;
    while i < |shows|
      invariant 0 <= i <= |shows|
      invariant FirstShowWithUrl(shows, url) == FirstShowWithUrl(shows[i..], url)
    {
      if shows[i].url == url {
        return Some(shows[i]);
      }
      assert shows[i..][1..] == shows[i + 1..];
      i := i + 1;
    }
    return None;
  }

  /** `parse_show_date` on a catalog value: a falsy value gives no date, a
      text is read, and any other value makes `strptime` raise. */
  function ShowDateOf(v: Value): (r: Result<Option<Date>, string>)
    ensures r.Ok? && r.value.Some? ==> IsValidDate(r.value.value)
    ensures r.Err? <==> v.Truthy() && !v.Str?
  {
    if !v.Truthy() then Ok(None)
    else if v.Str? then Ok(ParseShowDate(v.s))
    else Err("strptime() argument 1 must be str")
  }

  /** The earliest and latest day a task may ask for: the defaults unless
      the task's show is in the catalog with readable dates. */
  function ShowDateConstraints(url: string, shows: seq<Show>): Result<(Date, Date), string> {
    if url == [] || shows == [] then Ok((EarliestDefault, LatestDefault))
    else
      match FirstShowWithUrl(shows, url)
      case None => Ok((EarliestDefault, LatestDefault))
      case Some(show) =>
        match ShowDateOf(show.firstPerformance)
        case Err(e) => Err(e)
        case Ok(first) =>
          match ShowDateOf(show.onSaleThrough)
          case Err(e) => Err(e)
          case Ok(last) => Ok((first.GetOr(EarliestDefault), last.GetOr(LatestDefault)))
  }

  /** `get_show_date_constraints`, with its search loop. */
  method GetShowDateConstraints(url: string, shows: seq<Show>) returns (r: Result<(Date, Date), string>)
    ensures r == ShowDateConstraints(url, shows)
  {
    if url == [] || shows == [] {
      return Ok((EarliestDefault, LatestDefault));
    }
    var selected := FindShow(shows, url);
    if selected.None? {
      return Ok((EarliestDefault, LatestDefault));
    }
    var first := ShowDateOf(selected.value.firstPerformance);
    if first.Err? {
      return Err(first.error);
    }
    var last := ShowDateOf(selected.value.onSaleThrough);
    if last.Err? {
      return Err(last.error);
    }
    return Ok((first.value.GetOr(EarliestDefault), last.value.GetOr(LatestDefault)));
  }

  /** Both bounds are real days; each is the show's date when it reads as
      one and the default otherwise. */
  lemma ConstraintsAreDays(url: string, shows: seq<Show>)
    requires ShowDateConstraints(url, shows).Ok?
    ensures var (lo, hi) := ShowDateConstraints(url, shows).value;
      IsValidDate(lo) && IsValidDate(hi)
  {
  }

  /** A show whose catalog dates are written `M/D/YYYY` bounds the task's
      range by exactly those days. */
  lemma ConstraintsFromShowDates(url: string, shows: seq<Show>, first: Date, last: Date)
    requires url != []
    requires IsValidDate(first) && IsValidDate(last)
    requires FirstShowWithUrl(shows, url).Some?
    requires FirstShowWithUrl(shows, url).value.firstPerformance == Str(ShowDateText(first))
    requires FirstShowWithUrl(shows, url).value.onSaleThrough == Str(ShowDateText(last))
    ensures ShowDateConstraints(url, shows) == Ok((first, last))
  {
    ShowDateRoundTrip(first);
    ShowDateRoundTrip(last);
    assert ShowDateText(first) != [] by {
      assert ShowDateText(first)[|NatToDecimal(first.month)|] == '/';
    }
    assert ShowDateText(last) != [] by {
      assert ShowDateText(last)[|NatToDecimal(last.month)|] == '/';
    }
  }

  /** A task with no show chosen, or a show missing from the catalog, gets
      the default range. */
  lemma ConstraintsDefault(url: string, shows: seq<Show>)
    requires url == [] || forall k | 0 <= k < |shows| :: shows[k].url != url
    ensures ShowDateConstraints(url, shows) == Ok((EarliestDefault, LatestDefault))
  {
  }
}
