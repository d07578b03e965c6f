/**
 * The channel through which a screen reports to the application: an `Action`
 * carries at most one instruction for the parent and a task of follow-up
 * messages for the screen itself (iced's `Task`, kept opaque: a batch of
 * messages, or the request to exit).
 */
module Actions {
  import opened Wrappers

  datatype Task<M> = Batch(messages: seq<M>) | Exit

  /** `Task::none()`. */
  function NoTask<M>(): Task<M> {
    Batch([])
  }

  /** `Task::map`: every follow-up message is wrapped by `f`; an exit stays an exit. */
  function MapTask<M, N>(task: Task<M>, f: M -> N): (r: Task<N>)
    ensures r.Exit? <==> task.Exit?
    ensures task.Batch? ==> |r.messages| == |task.messages|
    ensures task.Batch? ==> forall i :: 0 <= i < |task.messages| ==> r.messages[i] == f(task.messages[i])
  {
    match task
    case Exit => Exit
    case Batch(messages) => Batch(seq(|messages|, i requires 0 <= i < |messages| => f(messages[i])))
  }

  datatype Action<I, M> = Action(instruction: Option<I>, task: Task<M>) {

    /** `Action::new(instruction)`: the instruction and no follow-up. */
    static function New(instruction: I): Action<I, M> {
      Action(Some(instruction), NoTask())
    }

    /** `Action::none()`: neither. */
    static function Nothing(): Action<I, M> {
      Action(Option.None, NoTask())
    }
  }
}
