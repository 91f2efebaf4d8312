/**
 * The service contract: the shape of an entity handed to `addService`, and the
 * checks `isValidService` makes of it before the entity is registered.
 */
module Services {
  import opened Wrappers
  import opened Errors

  /** How a property of a JavaScript object looks to `assert(...)` and `typeof ... === 'function'`. */
  datatype Member = Missing | Plain(truthy: bool) | Callable

  /** The handle a service's `getClient()` returns; the orchestrator never looks inside it. */
  datatype Client = Client(handle: nat)

  /**
   * A service entity. A falsy `name` (missing, null, empty) is the empty string.
   * `getClient` is `Some(c)` when the entity defines `getClient` and that accessor returns `c`.
   */
  datatype Descriptor = Descriptor(name: string, start: Member, stop: Member, getClient: Option<Client>)

  predicate Truthy(m: Member) {
    m.Callable? || (m.Plain? && m.truthy)
  }

  /** The validity invariant of a descriptor: a name, and callable `start` and `stop`. */
  predicate IsValid(s: Descriptor) {
    s.name != "" && s.start.Callable? && s.stop.Callable?
  }

  /**
   * `isValidService`: its five assertions in source order, yielding the first one that fails.
   */
  function Validate(s: Descriptor): (r: Option<ValidationError>)
    ensures r.None? <==> IsValid(s)
    ensures r == Some(NameRequired) <==> s.name == ""
    ensures r.Some? && s.name != "" ==> r.value.service == s.name
    ensures r.Some? && !Truthy(s.start) && s.name != "" ==> r == Some(StartRequired(s.name))
  {
    if s.name == "" then Some(NameRequired)
    else if !Truthy(s.start) then Some(StartRequired(s.name))
    else if !Truthy(s.stop) then Some(StopRequired(s.name))
    else if !s.start.Callable? then Some(StartNotFunction(s.name))
    else if !s.stop.Callable? then Some(StopNotFunction(s.name))
    else None
  }
}
