/**
 * The front end's properties slice: the state of the property list and the
 * three reducer cases of the fetch thunk's lifecycle (pending, fulfilled,
 * rejected). Any other action leaves the state as it is.
 */
module PropertiesSlice {
  import opened Wrappers

  datatype LoadStatus = Idle | Loading | Succeeded | Failed

  datatype PropertyItem = PropertyItem(id: int, name: string)

  /** `error`: null until a rejection stores its message (which may itself be undefined). */
  datatype ErrorSlot = NoError | Message(text: Option<string>)

  datatype SliceState = SliceState(items: seq<PropertyItem>, status: LoadStatus, error: ErrorSlot)

  datatype Action =
    | FetchPending
    | FetchFulfilled(payload: seq<PropertyItem>)
    | FetchRejected(message: Option<string>)
    | OtherAction

  const InitialState: SliceState := SliceState([], Idle, NoError)

  /** The reducer: each case assigns its fields of the draft state. */
  function Reduce(s: SliceState, a: Action): (s': SliceState)
    ensures a.OtherAction? ==> s' == s
    ensures s'.items == if a.FetchFulfilled? then a.payload else s.items
    ensures s'.error == if a.FetchRejected? then Message(a.message) else s.error
    ensures a.FetchPending? ==> s'.status == Loading
    ensures a.FetchFulfilled? ==> s'.status == Succeeded
    ensures a.FetchRejected? ==> s'.status == Failed
  {
    match a
    case FetchPending => s.(status := Loading)
    case FetchFulfilled(payload) => s.(status := Succeeded, items := payload)
    case FetchRejected(message) => s.(status := Failed, error := Message(message))
    case OtherAction => s
  }

  /** The state after dispatching `actions` in order. */
  function ReduceAll(s: SliceState, actions: seq<Action>): SliceState
    decreases |actions|
  {
    if actions == [] then s else Reduce(ReduceAll(s, actions[..|actions| - 1]), actions[|actions| - 1])
  }

  /** The payload of the last fulfilled fetch, if any. */
  function LastPayload(actions: seq<Action>): Option<seq<PropertyItem>>
    decreases |actions|
  {
    if actions == [] then None
    else if actions[|actions| - 1].FetchFulfilled? then Some(actions[|actions| - 1].payload)
    else LastPayload(actions[..|actions| - 1])
  }

  /** The message of the last rejected fetch, if any. */
  function LastRejection(actions: seq<Action>): Option<Option<string>>
    decreases |actions|
  {
    if actions == [] then None
    else if actions[|actions| - 1].FetchRejected? then Some(actions[|actions| - 1].message)
    else LastRejection(actions[..|actions| - 1])
  }

  /** The status the last lifecycle action sets, if any. */
  function LastStatus(actions: seq<Action>): Option<LoadStatus>
    decreases |actions|
  {
    if actions == [] then None
    else match actions[|actions| - 1]
      case FetchPending => Some(Loading)
      case FetchFulfilled(_) => Some(Succeeded)
      case FetchRejected(_) => Some(Failed)
      case OtherAction => LastStatus(actions[..|actions| - 1])
  }

  /**
   * From any state, after a run of actions: the items are the last fulfilled
   * payload, the error is the last rejection's message, the status is the one
   * the last lifecycle action set; where there is no such action the field
   * keeps its value.
   */
  lemma {:induction false} ReduceAllFields(s: SliceState, actions: seq<Action>)
    ensures ReduceAll(s, actions).items == LastPayload(actions).GetOr(s.items)
    ensures ReduceAll(s, actions).status == LastStatus(actions).GetOr(s.status)
    ensures ReduceAll(s, actions).error == (if LastRejection(actions).Some? then Message(LastRejection(actions).value) else s.error)
    decreases |actions|
  {
    if actions != [] {
      ReduceAllFields(s, actions[..|actions| - 1]);
    }
  }

  /** From the initial state, a failed status always comes with a stored error. */
  lemma {:induction false} FailedHasError(actions: seq<Action>)
    ensures ReduceAll(InitialState, actions).status == Failed ==> ReduceAll(InitialState, actions).error.Message?
    decreases |actions|
  {
    if actions != [] {
      FailedHasError(actions[..|actions| - 1]);
    }
  }

  /** The slice state as a mutable draft. */
  class PropertiesStore {
    var items: seq<PropertyItem>
    var status: LoadStatus
    var error: ErrorSlot

    function State(): SliceState
      reads this
    {
      SliceState(items, status, error)
    }

    constructor ()
      ensures State() == InitialState
    {
      items := [];
      status := Idle;
      error := NoError;
    }

    /** `fetchProperties.pending`: status becomes loading; items and error stay. */
    method Pending()
      modifies this
      ensures status == Loading && items == old(items) && error == old(error)
      ensures State() == Reduce(old(State()), FetchPending)
    {
      status := Loading;
    }

    /** `fetchProperties.fulfilled`: status becomes succeeded and items the payload; error stays. */
    method Fulfilled(payload: seq<PropertyItem>)
      modifies this
      ensures status == Succeeded && items == payload && error == old(error)
      ensures State() == Reduce(old(State()), FetchFulfilled(payload))
    {
      status := Succeeded;
      items := payload;
    }

    /** `fetchProperties.rejected`: status becomes failed and error the message; items stay. */
    method Rejected(message: Option<string>)
      modifies this
      ensures status == Failed && error == Message(message) && items == old(items)
      ensures State() == Reduce(old(State()), FetchRejected(message))
    {
      status := Failed;
      error := Message(message);
    }
  }
}
