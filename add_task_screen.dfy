/** src/screens/AddTaskScreen.tsx: the form that adds a task to the
    navigator's list. */
module AddTaskScreen {
  import opened Text
  import AppNavigator

  /** What `handleSaveTask` does: add the trimmed text and go back, or show
      the "Campo Vazio" alert. */
  datatype SaveAction = AddAndGoBack(text: string) | AlertEmpty

  function SaveTaskAction(taskText: string): (r: SaveAction)
    ensures r.AddAndGoBack? <==> !IsBlank(taskText)
    ensures r.AddAndGoBack? ==> r.text == Trim(taskText) && |r.text| > 0
  {
    TrimEmptyIffBlank(taskText);
    if |Trim(taskText)| > 0 then AddAndGoBack(Trim(taskText)) else AlertEmpty
  }

  /** The added text has no surrounding whitespace, and submitting it again
      would add the same text. */
  lemma AddedTextIsTrimmed(taskText: string)
    requires SaveTaskAction(taskText).AddAndGoBack?
    ensures var s := SaveTaskAction(taskText).text;
      Trim(s) == s && SaveTaskAction(s) == SaveTaskAction(taskText)
  {
    TrimIdempotent(taskText);
    TrimEmptyIffBlank(Trim(taskText));
  }

  class AddTaskForm {
    var taskText: string

    /** The form opens empty. */
    constructor ()
      ensures taskText == ""
    {
      taskText := "";
    }

    /** `onChangeText`. */
    method ChangeText(s: string)
      modifies this
      ensures taskText == s
    {
      taskText := s;
    }

    /** `handleSaveTask`, on the button and on submit; `now` is the clock
        reading that becomes the new task's id. The form's own text is left
        as it was. */
    method HandleSaveTask(nav: AppNavigator.Navigator, now: int) returns (action: SaveAction)
      modifies nav`tasks
      ensures action == SaveTaskAction(taskText)
      ensures nav.tasks == if action.AddAndGoBack?
        then AppNavigator.AfterAppend(old(nav.tasks), action.text, now)
        else old(nav.tasks)
    {
      var trimmed := Trim(taskText);
      if |trimmed| > 0 {
        nav.AddTask(trimmed, now);
        action := AddAndGoBack(trimmed);
      } else {
        action := AlertEmpty;
      }
    }
  }
}
