/** The state of the task page and the handlers that replace it: the task list,
    the text in the input box and the selected filter. */
module Home {
  import opened Text
  import opened Priority
  import opened Tasks

  /** The add handler's guard: text whose trim is empty is blank. */
  predicate IsBlank(s: string) {
    Trim(s) == []
  }

  /** Blank text is exactly text made only of whitespace. */
  lemma IsBlankIff(s: string)
    ensures IsBlank(s) <==> AllWhitespace(s)
    ensures IsBlank("")
  {
  }

  class TaskBoard {
    var tasks: seq<Task>
    var newTask: string
    var filter: FilterMode

    /** Every task on the board came from the add handler: its title is not blank
        and its priority is the one suggested for that title. */
    ghost predicate Valid()
      reads this
    {
      forall t :: t in tasks ==> !IsBlank(t.title) && t.priority == Classify(t.title)
    }

    /** A fresh page: no tasks, an empty input box, the "all" filter. */
    constructor ()
      ensures Valid()
      ensures tasks == [] && newTask == "" && filter == All
    {
      tasks := [];
      newTask := "";
      filter := All;
    }

    /** Typing in the input box. */
    method SetNewTask(text: string)
      modifies this`newTask
      ensures newTask == text
    {
      newTask := text;
    }

    /** Pressing one of the filter buttons. */
    method SetFilter(mode: FilterMode)
      modifies this`filter
      ensures filter == mode
    {
      filter := mode;
    }

    /** The add handler, with the clock readings for the id and the creation time
        passed in. Blank text changes nothing, not even the input box; otherwise a
        new task with the text as typed is put at the front and the box is cleared. */
    method AddTask(id: string, createdAt: int)
      requires Valid()
      modifies this`tasks, this`newTask
      ensures Valid()
      ensures IsBlank(old(newTask)) ==> tasks == old(tasks) && newTask == old(newTask)
      ensures !IsBlank(old(newTask)) ==>
        tasks == [NewTask(id, old(newTask), createdAt)] + old(tasks) && newTask == ""
    {
      if IsBlank(newTask) {
        return;
      }
      var task := NewTask(id, newTask, createdAt);
      tasks := [task] + tasks;
      newTask := "";
    }

    /** The checkbox handler: flips completed on every task with this id. */
    method ToggleTask(id: string)
      requires Valid()
      modifies this`tasks
      ensures Valid()
      ensures tasks == Toggled(old(tasks), id)
    {
      tasks := Toggled(tasks, id);
    }

    /** The delete handler: removes every task with this id. */
    method DeleteTask(id: string)
      requires Valid()
      modifies this`tasks
      ensures Valid()
      ensures tasks == Deleted(old(tasks), id)
    {
      tasks := Deleted(tasks, id);
    }

    /** The list shown under the selected filter. */
    function VisibleTasks(): seq<Task>
      reads this
    {
      Visible(tasks, filter)
    }

    /** The header counters. */
    function Counters(): Stats
      reads this
    {
      StatsOf(tasks)
    }
  }
}
