/**
 * The `Application` component's event handler: on a "function_select" event it
 * looks the payload up in the registry and calls the handler found there.
 */
module Application {
  import opened Wrappers
  import Registry
  import opened ListBox

  /** The name of the event the application reacts to. */
  const FunctionSelectEvent := "function_select"

  /** What handling one event surfaces: nothing, the (name, result) pair, or a lookup miss. */
  datatype Dispatch = Ignored | Gave(name: string, output: string) | NotFound(name: string)

  /**
   * `Application::on_event`: ignores every event but "function_select"; for that
   * one, calls the handler most recently registered under the payload and surfaces
   * the name with the handler's result. Where the original panics on a name that
   * was never registered, this reports NotFound.
   */
  method OnEvent(registry: Registry.HandlerRegistry, event: Event) returns (outcome: Dispatch)
    requires registry.Valid()
    ensures event.name != FunctionSelectEvent ==> outcome == Ignored
    ensures event.name == FunctionSelectEvent && !Registry.EverRegistered(registry.history, event.data) ==>
      outcome == NotFound(event.data)
    ensures forall i :: event.name == FunctionSelectEvent && Registry.IsLastFor(registry.history, event.data, i) ==>
      outcome == Gave(event.data, registry.history[i].handler.output)
  {
    if event.name != FunctionSelectEvent {
      return Ignored;
    }
    var key := event.data;
    match registry.GetFun(key)
    case Some(f) =>
      outcome := Gave(key, f.output);
    case None =>
      outcome := NotFound(key);
  }
}
