/** The request and response records of the job endpoint. */
module Jobs {

  /** A task of the request: its name, its shell command and the names of
      the tasks it requires. */
  datatype Task = Task(name: string, command: string, required: seq<string>)

  /** A line of the response: the task name and the command to run. (The
      Legacy release calls the second field `Command`, the Current one
      `Script`.) */
  datatype Command = Command(name: string, script: string)

  /** The zero value Go gives an unwritten `Command` slot. */
  const EmptyCommand := Command("", "")

  /** The response line a task becomes. */
  function CommandFor(t: Task): Command
  {
    Command(t.name, t.command)
  }

  function TaskNames(tasks: seq<Task>): set<string>
  {
    set t | t in tasks :: t.name
  }
}
