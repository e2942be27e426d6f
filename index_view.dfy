/** The `Index` screen (task-manager/app/index.tsx): an add form that requires both a title
    and a description and reports a blank one with an error message, a due date picked as a
    calendar day, the "Show Incomplete Only" switch and the progress read-out. Each handler
    runs to completion on the current state; React's state updates become field assignments. */
module IndexView {
  import opened Seqs
  import opened Text
  import opened TaskStore

  /** The message shown when the title or the description is blank. */
  const AddTaskError: string := "Please enter a title and description."

  /** What the add form lets through: neither the title nor the description is blank,
      that is, each holds at least one character that is not white space. */
  predicate Accepted(title: string, description: string): (b: bool)
    ensures b <==> (exists i :: 0 <= i < |title| && !IsWhiteSpace(title[i])) &&
                   (exists j :: 0 <= j < |description| && !IsWhiteSpace(description[j]))
  {
    Trim(title) != "" && Trim(description) != ""
  }

  class Index {
    var tasks: seq<Task>
    var incompleteOnly: bool
    var title: string
    var description: string
    /** The picked due date, as the calendar day (`YYYY-MM-DD`) a new task stores. */
    var dueDate: string
    var errorMessage: string
    /** Every id ever handed to `AddTask`, in order. */
    ghost var history: seq<string>

    /** Ids are distinct and in insertion order, and every task held passed the add form's
        check: its title and its description are not blank. */
    ghost predicate Valid()
      reads this`tasks, this`history
    {
      WellFormed(tasks, history) &&
      forall i :: 0 <= i < |tasks| ==> Accepted(tasks[i].title, tasks[i].description)
    }

    /** A fresh screen: no tasks, empty form, today's date picked, no error, switch off. */
    constructor (today: string)
      ensures Valid()
      ensures tasks == [] && history == [] && !incompleteOnly
      ensures title == "" && description == "" && dueDate == today && errorMessage == ""
    {
      tasks, incompleteOnly := [], false;
      title, description, dueDate, errorMessage := "", "", today, "";
      history := [];
    }

    /** The title field's `onChangeText`. */
    method SetTitle(s: string)
      modifies this`title
      ensures title == s
    {
      title := s;
    }

    /** The description field's `onChangeText`. */
    method SetDescription(s: string)
      modifies this`description
      ensures description == s
    {
      description := s;
    }

    /** `addTask`. A blank title or description only sets the error message. Otherwise the
        task (carrying the caller's fresh `id`, the untrimmed title and description and the
        picked day) is appended incomplete, the form is cleared, the date picker goes back
        to `today` and the error message is cleared. */
    method AddTask(id: string, today: string)
      requires Valid()
      requires !HasId(tasks, id)
      modifies this
      ensures Valid()
      ensures incompleteOnly == old(incompleteOnly)
      ensures !Accepted(old(title), old(description)) ==>
        tasks == old(tasks) && history == old(history) && errorMessage == AddTaskError &&
        title == old(title) && description == old(description) && dueDate == old(dueDate)
      ensures Accepted(old(title), old(description)) ==>
        tasks == old(tasks) + [Task(id, old(title), old(description), old(dueDate), false)] &&
        history == old(history) + [id] &&
        title == "" && description == "" && dueDate == today && errorMessage == ""
    {
      if !Accepted(title, description) {
        errorMessage := AddTaskError;
        return;
      }
      var newTask := Task(id, title, description, dueDate, false);
      AppendKeepsWellFormed(tasks, history, newTask);
      var r := tasks + [newTask];
      forall i | 0 <= i < |r|
        ensures Accepted(r[i].title, r[i].description)
      {
        if i < |tasks| {
          assert r[i] == tasks[i];
        }
      }
      tasks, history := r, history + [id];
      title, description, dueDate, errorMessage := "", "", today, "";
    }

    /** `toggleCompletion(id)`. */
    method ToggleCompletion(id: string)
      requires Valid()
      modifies this`tasks
      ensures Valid()
      ensures tasks == Toggle(old(tasks), id)
    {
      ToggleKeepsWellFormed(tasks, history, id);
      tasks := Toggle(tasks, id);
    }

    /** `deleteTask(id)`. */
    method DeleteTask(id: string)
      requires Valid()
      modifies this`tasks
      ensures Valid()
      ensures tasks == Delete(old(tasks), id)
    {
      DeleteKeepsWellFormed(tasks, history, id);
      var r := Delete(tasks, id);
      forall i | 0 <= i < |r|
        ensures Accepted(r[i].title, r[i].description)
      {
        assert r[i] in tasks;
      }
      tasks := r;
    }

    /** The switch's `onValueChange`: flips the incomplete-only flag. */
    method ToggleIncompleteOnly()
      modifies this`incompleteOnly
      ensures incompleteOnly == !old(incompleteOnly)
    {
      incompleteOnly := !incompleteOnly;
    }

    /** `calculateProgress()` on the current list. */
    function CalculateProgress(): (p: int)
      reads this`tasks
      ensures 0 <= p <= 100
      ensures tasks == [] ==> p == 0
      ensures tasks != [] && CompletedCount(tasks) == |tasks| ==> p == 100
    {
      Progress(tasks)
    }

    /** The list passed to the task list widget. */
    function VisibleTasks(): (r: seq<Task>)
      reads this`tasks, this`incompleteOnly
      ensures !incompleteOnly ==> r == tasks
      ensures incompleteOnly ==> IsSubsequence(r, tasks)
      ensures incompleteOnly ==> forall t :: t in r <==> t in tasks && !t.completed
    {
      Visible(tasks, incompleteOnly)
    }
  }

  /** A blank description is refused with the error message and nothing is added. */
  method SessionBlankDescription() {
    var screen := new Index("2024-05-01");
    screen.SetTitle("Buy milk");
    screen.AddTask("a", "2024-05-01");
    assert screen.errorMessage == AddTaskError && screen.tasks == [];
  }

  /** A filled-in form adds one incomplete task at 0% progress and clears the form; deleting
      an unknown id then changes nothing. */
  method SessionAdd() {
    var screen := new Index("2024-05-01");
    screen.SetTitle("Buy milk");
    screen.SetDescription("2%");
    TrimUnpadded("Buy milk");
    TrimUnpadded("2%");
    screen.AddTask("a", "2024-05-02");
    assert screen.tasks == [Task("a", "Buy milk", "2%", "2024-05-01", false)];
    assert screen.errorMessage == "" && screen.title == "" && screen.dueDate == "2024-05-02";
    assert screen.CalculateProgress() == 0;

    screen.DeleteTask("b");
    assert screen.tasks == [Task("a", "Buy milk", "2%", "2024-05-01", false)];
  }

  /** Completing the only task gives 100%, and the switch then hides it. */
  method SessionCompleteHide() {
    var screen := new Index("2024-05-01");
    screen.SetTitle("Buy milk");
    screen.SetDescription("2%");
    TrimUnpadded("Buy milk");
    TrimUnpadded("2%");
    screen.AddTask("a", "2024-05-01");
    var milk := Task("a", "Buy milk", "2%", "2024-05-01", false);
    screen.ToggleCompletion("a");
    assert screen.tasks == [milk.(completed := true)];
    assert screen.CalculateProgress() == 100;

    screen.ToggleIncompleteOnly();
    assert screen.VisibleTasks() == [];
  }
}
