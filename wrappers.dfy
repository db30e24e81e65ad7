/** Failure-carrying values shared by every module of the model. */
module Wrappers {

  datatype Option<+T> = None | Some(value: T)

  /** The JavaScript exceptions the modelled code can raise. */
  datatype JsError =
    | TypeError          // a property read on `undefined`/`null`, or calling a non-function
    | UnhandledAction    // a reducer's `default:` branch throws

  /** Either the value a JavaScript expression yields or the exception it throws. */
  datatype Result<+T> = Ok(value: T) | Err(error: JsError)
}

/** Identities and element payloads shared by the engine and the views that use it. */
module Elements {

  /** Item keys are the `id` props of the rendered tags: non-negative integers. */
  type Key = nat

  /** Identity of a React ref object and of the DOM element it points at. */
  type Ref = nat

  /** Identity of a callback closure (`onAdd`, `onRemove`, ...), which the engine only passes around. */
  type HandlerId = nat

  /**
   * The props of a rendered tag element (`node.props`): the four room fields the views
   * read back, plus every other prop (`icon`, handlers, ...) that the views drop.
   */
  datatype Props = Props(id: nat, title: string, subtitle: string, group: nat, rest: map<string, string>)
}
