/**
 * The task page's two lists. `loadTasks` walks the fetched tasks once and
 * pushes each into the "today" list, the "pending" list, or neither;
 * `loadTaskSelector` offers every incomplete task in the timer's selector.
 */
module TaskLists {
  import opened Wrappers
  import opened Decimal
  import opened Calendar

  /** A task as the server returns it; `dueDate` is the stored due date read as a local `Date`. */
  datatype Task = Task(id: nat, title: string, description: Option<string>, dueDate: LocalDateTime, isCompleted: bool)

  datatype Bucket = TodayBucket | PendingBucket | NoBucket

  /** The branch of the `forEach` body that a task takes, with its conditions taken in the source's order. */
  function BucketOf(task: Task, now: LocalDateTime): (b: Bucket)
    ensures b == NoBucket <==> task.isCompleted && !IsToday(task.dueDate, now)
    ensures b == PendingBucket ==> !IsOverdue(task.dueDate, now) && !IsToday(task.dueDate, now)
  {
    if !task.isCompleted && (IsToday(task.dueDate, now) || IsOverdue(task.dueDate, now)) then TodayBucket
    else if !task.isCompleted && !IsToday(task.dueDate, now) then PendingBucket
    else if task.isCompleted && IsToday(task.dueDate, now) then TodayBucket
    else NoBucket
  }

  /** The tasks of `tasks` that land in bucket `b`, in their input order. */
  function Select(tasks: seq<Task>, now: LocalDateTime, b: Bucket): seq<Task> {
    if tasks == [] then []
    else (if BucketOf(tasks[0], now) == b then [tasks[0]] else []) + Select(tasks[1..], now, b)
  }

  /**
   * The partition loop of `loadTasks`: one pass over the tasks, each pushed
   * onto at most one of the two lists.
   */
  method SplitTasks(tasks: seq<Task>, now: LocalDateTime) returns (todayTasks: seq<Task>, pendingTasks: seq<Task>)
    ensures todayTasks == Select(tasks, now, TodayBucket)
    ensures pendingTasks == Select(tasks, now, PendingBucket)
  {
    todayTasks, pendingTasks := [], [];
    for i := 0 to |tasks|
      invariant todayTasks == Select(tasks[..i], now, TodayBucket)
      invariant pendingTasks == Select(tasks[..i], now, PendingBucket)
    {
      var task := tasks[i];
      SelectAppend(tasks[..i], [task], now, TodayBucket);
      SelectAppend(tasks[..i], [task], now, PendingBucket);
      assert tasks[..i + 1] == tasks[..i] + [task];
      if !task.isCompleted && (IsToday(task.dueDate, now) || IsOverdue(task.dueDate, now)) {
        todayTasks := todayTasks + [task];
      } else if !task.isCompleted && !IsToday(task.dueDate, now) {
        pendingTasks := pendingTasks + [task];
      } else if task.isCompleted && IsToday(task.dueDate, now) {
        todayTasks := todayTasks + [task];
      }
    }
    assert tasks[..|tasks|] == tasks;
  }

  /** Selecting from a concatenation selects from each part in turn: the input order is kept. */
  lemma {:induction false} SelectAppend(s: seq<Task>, t: seq<Task>, now: LocalDateTime, b: Bucket)
    ensures Select(s + t, now, b) == Select(s, now, b) + Select(t, now, b)
  {
    if s == [] {
      assert s + t == t;
    } else {
      assert (s + t)[1..] == s[1..] + t;
      SelectAppend(s[1..], t, now, b);
    }
  }

  /** A task is in bucket `b`'s list exactly when it is one of the input tasks and its bucket is `b`. */
  lemma {:induction false} SelectMembers(tasks: seq<Task>, now: LocalDateTime, b: Bucket, x: Task)
    ensures x in Select(tasks, now, b) <==> x in tasks && BucketOf(x, now) == b
  {
    if tasks != [] {
      SelectMembers(tasks[1..], now, b, x);
      assert tasks == [tasks[0]] + tasks[1..];
    }
  }

  /** The three selections together are the input, counted with repetitions: nothing is lost or doubled. */
  lemma {:induction false} SelectPartition(tasks: seq<Task>, now: LocalDateTime)
    ensures multiset(Select(tasks, now, TodayBucket)) + multiset(Select(tasks, now, PendingBucket))
            + multiset(Select(tasks, now, NoBucket)) == multiset(tasks)
  {
    if tasks != [] {
      SelectPartition(tasks[1..], now);
      assert tasks == [tasks[0]] + tasks[1..];
    }
  }

  /** No task is both in the today list and in the pending list. */
  lemma BucketsDisjoint(tasks: seq<Task>, now: LocalDateTime, x: Task)
    ensures !(x in Select(tasks, now, TodayBucket) && x in Select(tasks, now, PendingBucket))
  {
    SelectMembers(tasks, now, TodayBucket, x);
    SelectMembers(tasks, now, PendingBucket, x);
  }

  /**
   * The bucket rules in terms of calendar days: an incomplete task due today
   * or earlier is shown today, one due on a later day is pending; a completed
   * task is shown today when due today and nowhere otherwise.
   */
  lemma BucketRules(task: Task, now: LocalDateTime)
    requires ValidDate(task.dueDate) && ValidDate(now)
    ensures BucketOf(task, now) == TodayBucket <==>
      (!task.isCompleted && DayNumber(task.dueDate) <= DayNumber(now))
      || (task.isCompleted && DayNumber(task.dueDate) == DayNumber(now))
    ensures BucketOf(task, now) == PendingBucket <==> !task.isCompleted && DayNumber(task.dueDate) > DayNumber(now)
    ensures BucketOf(task, now) == NoBucket <==> task.isCompleted && DayNumber(task.dueDate) != DayNumber(now)
  {
    IsTodaySameDay(task.dueDate, now);
    IsOverdueEarlierDay(task.dueDate, now);
  }

  /** The incomplete tasks, in input order: `tasks.filter(task => !task.is_completed)`. */
  function IncompleteTasks(tasks: seq<Task>): (open: seq<Task>)
    ensures |open| <= |tasks|
    ensures forall i :: 0 <= i < |open| ==> !open[i].isCompleted
  {
    if tasks == [] then []
    else (if !tasks[0].isCompleted then [tasks[0]] else []) + IncompleteTasks(tasks[1..])
  }

  /** One `<option>` of the task selector. */
  datatype SelectOption = SelectOption(value: string, text: string)

  /**
   * The selector after `loadTaskSelector`: the "select a task" placeholder
   * with an empty value, then one option per incomplete task, valued by its
   * id and labelled by its title.
   */
  function SelectorOptions(tasks: seq<Task>, placeholderLabel: string): (opts: seq<SelectOption>)
    ensures |opts| == |IncompleteTasks(tasks)| + 1
    ensures opts[0] == SelectOption("", placeholderLabel)
  {
    var open := IncompleteTasks(tasks);
    [SelectOption("", placeholderLabel)]
      + seq(|open|, i requires 0 <= i < |open| => SelectOption(NatToString(open[i].id), open[i].title))
  }

  /** A task is offered by the selector exactly when it is in the input and not completed. */
  lemma {:induction false} IncompleteTasksMembers(tasks: seq<Task>, x: Task)
    ensures x in IncompleteTasks(tasks) <==> x in tasks && !x.isCompleted
  {
    if tasks != [] {
      IncompleteTasksMembers(tasks[1..], x);
      assert tasks == [tasks[0]] + tasks[1..];
    }
  }

  /** Every task the selector offers is also listed on the page, today or pending. */
  lemma SelectorTasksAreListed(tasks: seq<Task>, now: LocalDateTime, x: Task)
    requires x in IncompleteTasks(tasks)
    ensures x in Select(tasks, now, TodayBucket) || x in Select(tasks, now, PendingBucket)
  {
    IncompleteTasksMembers(tasks, x);
    SelectMembers(tasks, now, TodayBucket, x);
    SelectMembers(tasks, now, PendingBucket, x);
  }

  /**
   * Only the placeholder has an empty value: every other option's value is
   * the decimal id of its task, so picking a task always passes the timer's
   * "select a task first" check.
   */
  lemma SelectorOptionValues(tasks: seq<Task>, placeholderLabel: string)
    ensures var opts := SelectorOptions(tasks, placeholderLabel);
      && |opts| == |IncompleteTasks(tasks)| + 1
      && opts[0].value == ""
      && forall i :: 1 <= i < |opts| ==>
           opts[i].value != "" && AllDigits(opts[i].value)
           && DecimalValue(opts[i].value) == IncompleteTasks(tasks)[i - 1].id
           && opts[i].text == IncompleteTasks(tasks)[i - 1].title
  {
    var opts := SelectorOptions(tasks, placeholderLabel);
    var open := IncompleteTasks(tasks);
    forall i | 1 <= i < |opts|
      ensures opts[i].value != "" && AllDigits(opts[i].value) && DecimalValue(opts[i].value) == open[i - 1].id
    {
      DecimalValueOfNatToString(open[i - 1].id);
    }
  }
}
