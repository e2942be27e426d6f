/** The `HomeScreen` component (task-manager/app/screens/HomeScreen.jsx): an add form that
    requires only a title, silently ignores a blank one, and takes the due date as free text;
    the "Show Incomplete Only" switch; the progress read-out. Each handler runs to completion
    on the current state; React's state updates become field assignments. */
module HomeView {
  import opened Seqs
  import opened Text
  import opened TaskStore

  class HomeScreen {
    var tasks: seq<Task>
    var incompleteOnly: bool
    var title: string
    var description: string
    /** The due date text field, stored verbatim in a new task. */
    var dueDate: string
    /** Every id ever handed to `AddTask`, in order. */
    ghost var history: seq<string>

    /** Ids are distinct and in insertion order, and every task held has a title that is not blank. */
    ghost predicate Valid()
      reads this`tasks, this`history
    {
      WellFormed(tasks, history) &&
      forall i :: 0 <= i < |tasks| ==> Trim(tasks[i].title) != ""
    }

    /** A fresh screen: no tasks, empty form, switch off. */
    constructor ()
      ensures Valid()
      ensures tasks == [] && history == [] && !incompleteOnly
      ensures title == "" && description == "" && dueDate == ""
    {
      tasks, incompleteOnly := [], false;
      title, description, dueDate := "", "", "";
      history := [];
    }

    /** The title field's `onChangeText`. */
    method SetTitle(s: string)
      modifies this`title
      ensures title == s
    {
      title := s;
    }

    /** The description field's `onChangeText`. */
    method SetDescription(s: string)
      modifies this`description
      ensures description == s
    {
      description := s;
    }

    /** The due date field's `onChangeText`. */
    method SetDueDate(s: string)
      modifies this`dueDate
      ensures dueDate == s
    {
      dueDate := s;
    }

    /** `addTask`. A blank title changes nothing at all (a blank description is accepted).
        Otherwise the task (carrying the caller's fresh `id`, and the title, description and
        due date text as typed) is appended incomplete and all three fields are cleared. */
    method AddTask(id: string)
      requires Valid()
      requires !HasId(tasks, id)
      modifies this
      ensures Valid()
      ensures incompleteOnly == old(incompleteOnly)
      ensures Trim(old(title)) == "" ==>
        tasks == old(tasks) && history == old(history) &&
        title == old(title) && description == old(description) && dueDate == old(dueDate)
      ensures Trim(old(title)) != "" ==>
        tasks == old(tasks) + [Task(id, old(title), old(description), old(dueDate), false)] &&
        history == old(history) + [id] &&
        title == "" && description == "" && dueDate == ""
    {
      if Trim(title) != "" {
        var newTask := Task(id, title, description, dueDate, false);
        AppendKeepsWellFormed(tasks, history, newTask);
        var r := tasks + [newTask];
        forall i | 0 <= i < |r|
          ensures Trim(r[i].title) != ""
        {
          if i < |tasks| {
            assert r[i] == tasks[i];
          }
        }
        tasks, history := r, history + [id];
        title, description, dueDate := "", "", "";
      }
    }

    /** `toggleCompletion(id)`. */
    method ToggleCompletion(id: string)
      requires Valid()
      modifies this`tasks
      ensures Valid()
      ensures tasks == Toggle(old(tasks), id)
    {
      ToggleKeepsWellFormed(tasks, history, id);
      tasks := Toggle(tasks, id);
    }

    /** `deleteTask(id)`. */
    method DeleteTask(id: string)
      requires Valid()
      modifies this`tasks
      ensures Valid()
      ensures tasks == Delete(old(tasks), id)
    {
      DeleteKeepsWellFormed(tasks, history, id);
      var r := Delete(tasks, id);
      forall i | 0 <= i < |r|
        ensures Trim(r[i].title) != ""
      {
        assert r[i] in tasks;
      }
      tasks := r;
    }

    /** The switch's `onValueChange`: flips the incomplete-only flag. */
    method ToggleIncompleteOnly()
      modifies this`incompleteOnly
      ensures incompleteOnly == !old(incompleteOnly)
    {
      incompleteOnly := !incompleteOnly;
    }

    /** `calculateProgress()` on the current list. */
    function CalculateProgress(): (p: int)
      reads this`tasks
      ensures 0 <= p <= 100
      ensures tasks == [] ==> p == 0
      ensures tasks != [] && CompletedCount(tasks) == |tasks| ==> p == 100
    {
      Progress(tasks)
    }

    /** The list passed to the task list widget. */
    function VisibleTasks(): (r: seq<Task>)
      reads this`tasks, this`incompleteOnly
      ensures !incompleteOnly ==> r == tasks
      ensures incompleteOnly ==> IsSubsequence(r, tasks)
      ensures incompleteOnly ==> forall t :: t in r <==> t in tasks && !t.completed
    {
      Visible(tasks, incompleteOnly)
    }
  }

  /** A white-space title is ignored without touching the form; a title with an empty
      description is accepted and the due date text is stored as typed. */
  method Session() {
    var screen := new HomeScreen();
    screen.SetTitle("  ");
    screen.SetDueDate("next week");
    screen.AddTask("a");
    assert screen.tasks == [] && screen.title == "  " && screen.dueDate == "next week";

    screen.SetTitle("Call Sam");
    TrimUnpadded("Call Sam");
    screen.AddTask("a");
    assert screen.tasks == [Task("a", "Call Sam", "", "next week", false)];
    assert screen.title == "" && screen.dueDate == "";
  }
}
