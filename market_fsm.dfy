/** The market data listener: a six-state machine whose transition table
    admits sixteen (state, input) pairs. The machine itself (the library's
    state) and the listener's own `state` field are kept apart; an input
    absent from the table is rejected and changes nothing. As in the
    library, a transition switches the machine state before its outputs
    run, so an output may feed a further input to the machine. */
module MarketFsm {
  import opened Wrappers

  datatype State = Disconnected | Connecting | Connected | Subscribing | Subscribed | Error

  datatype InputKind =
    | ConnectInput
    | ConnectionSuccessInput
    | ConnectionFailureInput
    | SubscribeInput
    | SubscriptionSuccessInput
    | SubscriptionFailureInput
    | DisconnectInput
    | ErrorOccurredInput

  /** The transition table, one case per `upon` declaration. */
  function Transition(s: State, k: InputKind): (r: Option<State>)
  {
    match (s, k)
    case (Disconnected, ConnectInput) => Some(Connecting)
    case (Connecting, ConnectionSuccessInput) => Some(Connected)
    case (Connecting, ConnectionFailureInput) => Some(Error)
    case (Connected, SubscribeInput) => Some(Subscribing)
    case (Subscribing, SubscriptionSuccessInput) => Some(Subscribed)
    case (Subscribing, SubscriptionFailureInput) => Some(Error)
    case (Subscribed, SubscribeInput) => Some(Subscribing)
    case (Subscribed, DisconnectInput) => Some(Disconnected)
    case (Connected, DisconnectInput) => Some(Disconnected)
    case (Error, ConnectInput) => Some(Connecting)
    case (Disconnected, ErrorOccurredInput) => Some(Error)
    case (Connected, ErrorOccurredInput) => Some(Error)
    case (Subscribed, ErrorOccurredInput) => Some(Error)
    case (Connecting, ErrorOccurredInput) => Some(Error)
    case (Subscribing, ErrorOccurredInput) => Some(Error)
    case (Error, DisconnectInput) => Some(Disconnected)
    case _ => None
  }

  const AllStates: seq<State> := [Disconnected, Connecting, Connected, Subscribing, Subscribed, Error]
  const AllInputs: seq<InputKind> :=
    [ConnectInput, ConnectionSuccessInput, ConnectionFailureInput, SubscribeInput,
     SubscriptionSuccessInput, SubscriptionFailureInput, DisconnectInput, ErrorOccurredInput]

  /** How many of the first `n` inputs state `s` admits. */
  function AdmittedFrom(s: State, n: nat): (c: nat)
    requires n <= |AllInputs|
    ensures c <= n
  {
    if n == 0 then 0
    else AdmittedFrom(s, n - 1) + (if Transition(s, AllInputs[n - 1]).Some? then 1 else 0)
  }

  /** How many (state, input) pairs the first `m` states admit. */
  function Admitted(m: nat): (c: nat)
    requires m <= |AllStates|
    ensures c <= m * |AllInputs|
  {
    if m == 0 then 0 else Admitted(m - 1) + AdmittedFrom(AllStates[m - 1], |AllInputs|)
  }

  /** Of the 48 (state, input) pairs exactly sixteen are admitted. */
  lemma SixteenTransitions()
    ensures Admitted(|AllStates|) == 16
  {
    assert AdmittedFrom(Disconnected, 8) == 2;
    assert AdmittedFrom(Connecting, 8) == 3;
    assert AdmittedFrom(Connected, 8) == 3;
    assert AdmittedFrom(Subscribing, 8) == 3;
    assert AdmittedFrom(Subscribed, 8) == 3;
    assert AdmittedFrom(Error, 8) == 2;
  }

  class MarketDataListener {
    /** The library's machine state. */
    var machine: State
    /** The listener's own `state` field, written by the outputs. */
    var state: State
    var subscribedSymbols: set<string>
    var connectionAttempts: int

    /** At rest (between inputs) the field mirrors the machine, no
        intermediate state is visible, no attempt is pending, at most two
        symbols are held, and a disconnected listener holds none. */
    predicate Valid()
      reads this
    {
      state == machine && machine != Connecting && machine != Subscribing &&
      connectionAttempts == 0 && |subscribedSymbols| <= 2 &&
      (machine == Disconnected ==> subscribedSymbols == {})
    }

    constructor()
      ensures Valid()
      ensures machine == Disconnected && state == Disconnected
      ensures subscribedSymbols == {} && connectionAttempts == 0
    {
      machine := Disconnected;
      state := Disconnected;
      subscribedSymbols := {};
      connectionAttempts := 0;
    }

    // -- inputs fed by the outputs ---------------------------------------

    method ConnectionSuccess() returns (accepted: bool)
      modifies this
      ensures accepted <==> Transition(old(machine), ConnectionSuccessInput).Some?
      ensures !accepted ==> unchanged(this)
      ensures accepted ==>
                machine == Connected && state == Connected && connectionAttempts == 0 &&
                subscribedSymbols == old(subscribedSymbols)
    {
      var next := Transition(machine, ConnectionSuccessInput);
      if next.None? {
        return false;
      }
      machine := next.value;
      // _handle_connection_success
      state := Connected;
      connectionAttempts := 0;
      return true;
    }

    method ConnectionFailure() returns (accepted: bool)
      modifies this
      ensures accepted <==> Transition(old(machine), ConnectionFailureInput).Some?
      ensures !accepted ==> unchanged(this)
      ensures accepted ==>
                machine == Error && state == Error && connectionAttempts == old(connectionAttempts) &&
                subscribedSymbols == old(subscribedSymbols)
    {
      var next := Transition(machine, ConnectionFailureInput);
      if next.None? {
        return false;
      }
      machine := next.value;
      // _handle_connection_failure
      state := Error;
      return true;
    }

    method SubscriptionSuccess(symbol: string) returns (accepted: bool)
      modifies this
      ensures accepted <==> Transition(old(machine), SubscriptionSuccessInput).Some?
      ensures !accepted ==> unchanged(this)
      ensures accepted ==>
                machine == Subscribed && state == Subscribed && connectionAttempts == old(connectionAttempts) &&
                subscribedSymbols == old(subscribedSymbols) + {symbol}
    {
      var next := Transition(machine, SubscriptionSuccessInput);
      if next.None? {
        return false;
      }
      machine := next.value;
      // _handle_subscription_success
      state := Subscribed;
      subscribedSymbols := subscribedSymbols + {symbol};
      return true;
    }

    method SubscriptionFailure(symbol: string) returns (accepted: bool)
      modifies this
      ensures accepted <==> Transition(old(machine), SubscriptionFailureInput).Some?
      ensures !accepted ==> unchanged(this)
      ensures accepted ==>
                machine == Error && state == Error && connectionAttempts == old(connectionAttempts) &&
                subscribedSymbols == old(subscribedSymbols)
    {
      var next := Transition(machine, SubscriptionFailureInput);
      if next.None? {
        return false;
      }
      machine := next.value;
      // _handle_subscription_failure
      state := Error;
      return true;
    }

    // -- outputs that feed a further input -------------------------------

    /** `_start_connection`: counts the attempt and reports success below
        three attempts, failure otherwise. */
    method StartConnection()
      requires machine == Connecting
      modifies this
      ensures old(connectionAttempts) + 1 < 3 ==>
                machine == Connected && state == Connected && connectionAttempts == 0
      ensures old(connectionAttempts) + 1 >= 3 ==>
                machine == Error && state == Error && connectionAttempts == old(connectionAttempts) + 1
      ensures subscribedSymbols == old(subscribedSymbols)
    {
      state := Connecting;
      connectionAttempts := connectionAttempts + 1;
      var accepted;
      if connectionAttempts < 3 {
        accepted := ConnectionSuccess();
      } else {
        accepted := ConnectionFailure();
      }
    }

    /** `_start_subscription`: succeeds while fewer than two symbols are held. */
    method StartSubscription(symbol: string)
      requires machine == Subscribing
      modifies this
      ensures |old(subscribedSymbols)| < 2 ==>
                machine == Subscribed && state == Subscribed && subscribedSymbols == old(subscribedSymbols) + {symbol}
      ensures |old(subscribedSymbols)| >= 2 ==>
                machine == Error && state == Error && subscribedSymbols == old(subscribedSymbols)
      ensures connectionAttempts == old(connectionAttempts)
    {
      state := Subscribing;
      var accepted;
      if |subscribedSymbols| < 2 {
        accepted := SubscriptionSuccess(symbol);
      } else {
        accepted := SubscriptionFailure(symbol);
      }
    }

    // -- inputs a client calls -------------------------------------------

    /** `connect`: admitted from disconnected and error; as written the
        first attempt always succeeds, so it always ends connected. */
    method Connect() returns (accepted: bool)
      requires Valid()
      modifies this
      ensures Valid()
      ensures accepted <==> old(machine) == Disconnected || old(machine) == Error
      ensures !accepted ==> unchanged(this)
      ensures accepted ==> machine == Connected && subscribedSymbols == old(subscribedSymbols)
    {
      var next := Transition(machine, ConnectInput);
      if next.None? {
        return false;
      }
      machine := next.value;
      StartConnection();
      return true;
    }

    /** `subscribe`: admitted from connected and subscribed. */
    method Subscribe(symbol: string) returns (accepted: bool)
      requires Valid()
      modifies this
      ensures Valid()
      ensures accepted <==> old(machine) == Connected || old(machine) == Subscribed
      ensures !accepted ==> unchanged(this)
      ensures accepted && |old(subscribedSymbols)| < 2 ==>
                machine == Subscribed && subscribedSymbols == old(subscribedSymbols) + {symbol}
      ensures accepted && |old(subscribedSymbols)| >= 2 ==>
                machine == Error && subscribedSymbols == old(subscribedSymbols)
    {
      var next := Transition(machine, SubscribeInput);
      if next.None? {
        return false;
      }
      machine := next.value;
      StartSubscription(symbol);
      assert |subscribedSymbols| <= |old(subscribedSymbols)| + 1;
      return true;
    }

    /** `disconnect`: admitted from connected, subscribed and error; drops
        every symbol. */
    method Disconnect() returns (accepted: bool)
      requires Valid()
      modifies this
      ensures Valid()
      ensures accepted <==> old(machine) in {Connected, Subscribed, Error}
      ensures !accepted ==> unchanged(this)
      ensures accepted ==> machine == Disconnected && subscribedSymbols == {}
    {
      var next := Transition(machine, DisconnectInput);
      if next.None? {
        return false;
      }
      machine := next.value;
      // _handle_disconnect
      state := Disconnected;
      subscribedSymbols := {};
      return true;
    }

    /** `error_occurred`: admitted from every state but error. The message
        is only printed. */
    method ErrorOccurred(message: string) returns (accepted: bool)
      requires Valid()
      modifies this
      ensures Valid()
      ensures accepted <==> old(machine) != Error
      ensures !accepted ==> unchanged(this)
      ensures accepted ==> machine == Error && subscribedSymbols == old(subscribedSymbols)
    {
      var next := Transition(machine, ErrorOccurredInput);
      if next.None? {
        return false;
      }
      machine := next.value;
      // _handle_error
      state := Error;
      return true;
    }
  }

  /** The example session at the end of the source file: the third
      subscription fails, and reconnecting starts over with no symbols. */
  method ExampleSession() returns (listener: MarketDataListener)
    ensures listener.machine == Subscribed && listener.subscribedSymbols == {"AAPL"}
  {
    listener := new MarketDataListener();
    var ok := listener.Connect();
    ok := listener.Subscribe("AAPL");
    ok := listener.Subscribe("GOOG");
    assert listener.subscribedSymbols == {"AAPL", "GOOG"};
    assert |listener.subscribedSymbols| == 2;
    ok := listener.Subscribe("MSFT");
    assert listener.machine == Error;
    ok := listener.Disconnect();
    ok := listener.Connect();
    ok := listener.Subscribe("AAPL");
  }
}
