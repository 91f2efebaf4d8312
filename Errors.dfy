/** The error values that reach a caller of the orchestrator. */
module Errors {

  /** The assertion of `isValidService` that failed; each names the service when it has a name. */
  datatype ValidationError =
    | NameRequired                       // the entity has no (or a falsy) `name`
    | StartRequired(service: string)     // `start` is missing or falsy
    | StopRequired(service: string)      // `stop` is missing or falsy
    | StartNotFunction(service: string)  // `start` is truthy but not a function
    | StopNotFunction(service: string)   // `stop` is truthy but not a function

  datatype Error =
    | Invalid(reason: ValidationError)   // raised by `addService` when validation fails
    | NameMissing                        // raised by `getService` for an empty name
    | NoSuchNode(node: string)           // raised by the graph when an edge names an unknown node
    | UnknownService(name: string)       // `getClients` asked for a name that is not registered
    | CycleFound(cycle: seq<string>)     // the graph has a dependency cycle; the path closes on its first name
    | ServiceFailed(code: nat)           // an error a service passed to its own completion callback
}
