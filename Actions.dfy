/**
 * Action handles. The engines never invoke a handle: they only collect the
 * handles of states and transitions into ordered lists for the host to run.
 */
module Actions {

  /** An opaque `UnityEvent` reference; `Null` where the source passes `null`. */
  datatype ActionHandle = Null | Handle(id: nat)
}
