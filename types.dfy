/** Value types shared by the timer, the task list and the storage adapters
    (the `Task` and `PomodoroStats` records of src/types/index.ts). */
module Types {

  datatype Option<T> = None | Some(value: T)

  /** A task. `estimatedPomodoros` is an optional field of the record; the
      task screens create tasks without it. JavaScript numbers are modelled
      as mathematical integers. */
  datatype Task = Task(id: int, text: string, completed: bool, estimatedPomodoros: Option<int>)

  /** The statistics the timer keeps and persists. */
  datatype PomodoroStats = PomodoroStats(completedPomodoros: int, totalPomodoros: int)
}
