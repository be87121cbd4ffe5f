/**
  Concrete call sequences, each checked against the registry's contracts from
  a fresh registry: some follow the repository's test cases, the others
  exercise single branches of the registry. Each returns the calls the
  registry made (and, where it matters, the table or the completion), and its
  postcondition says what they are.
*/
module Scenarios {
  import opened Wrappers
  import opened Registrations
  import opened Service

  /** Without an implementation, adding a pair twice, emitting and removing it
      twice invokes the listener once and calls no delegate. */
  method DuplicateCallsWithoutImplementation(event: EventName, listener: FunctionRef) returns (calls: seq<Call>, table: seq<Registration>)
    ensures calls == [Invoke(listener, None)]
    ensures table == []
  {
    var entry := Registration(event, listener);
    DispatchOne(entry, event, None);
    assert RemoveFirst([entry], entry) == [];
    var service := new EventListenerService();
    service.UseWithoutImplementation();
    var _ := service.AddListener(event, listener, []);
    var _ := service.AddListener(event, listener, []);
    service.Emit(event, None);
    var _ := service.RemoveListener(event, listener, []);
    var _ := service.RemoveListener(event, listener, []);
    calls, table := service.trace, service.registered;
  }

  /** With an implementation, the same sequence makes exactly one delegate add
      and one delegate remove around the single invocation. */
  method DuplicateCallsWithImplementation(delegate: Delegate, event: EventName, listener: FunctionRef) returns (calls: seq<Call>, table: seq<Registration>)
    ensures calls == [
      DelegateAdd(delegate.addListener, event, listener, []),
      Invoke(listener, None),
      DelegateRemove(delegate.removeListener, event, listener, [])]
    ensures table == []
  {
    var entry := Registration(event, listener);
    DispatchOne(entry, event, None);
    assert RemoveFirst([entry], entry) == [];
    var service := new EventListenerService();
    service.SetImplementation(delegate);
    var _ := service.AddListener(event, listener, []);
    var _ := service.AddListener(event, listener, []);
    service.Emit(event, None);
    var _ := service.RemoveListener(event, listener, []);
    var _ := service.RemoveListener(event, listener, []);
    calls, table := service.trace, service.registered;
  }

  /** Two listeners of one event both receive a truthy payload, in
      registration order. */
  method FanOutWithPayload(event: EventName, first: FunctionRef, second: FunctionRef, payload: Value) returns (calls: seq<Call>)
    requires first != second && payload.truthy
    ensures calls == [Invoke(first, Some(payload)), Invoke(second, Some(payload))]
  {
    DispatchTwo(Registration(event, first), Registration(event, second), event, Some(payload));
    var service := new EventListenerService();
    service.UseWithoutImplementation();
    var _ := service.AddListener(event, first, []);
    var _ := service.AddListener(event, second, []);
    service.Emit(event, Some(payload));
    calls := service.trace;
  }

  /** Replacing the delegate by one with other hooks reports every pair to the
      previous remove hook, newest first, and later emissions invoke nothing. */
  method SwapFlushesThroughPreviousDelegate(
    previous: Delegate, next: Delegate,
    listener: FunctionRef, second: FunctionRef, payload: Value) returns (calls: seq<Call>, table: seq<Registration>)
    requires previous.addListener != next.addListener && previous.removeListener != next.removeListener
    ensures calls == [
      DelegateAdd(previous.addListener, "listen", listener, []),
      DelegateAdd(previous.addListener, "message", second, []),
      DelegateRemove(previous.removeListener, "message", second, []),
      DelegateRemove(previous.removeListener, "listen", listener, [])]
    ensures table == []
  {
    FlushCallsLastToFirst(previous.removeListener, [Registration("listen", listener), Registration("message", second)]);
    var service := new EventListenerService();
    service.SetImplementation(previous);
    var _ := service.AddListener("listen", listener, []);
    var _ := service.AddListener("message", second, []);
    service.SetImplementation(next);
    service.Emit("listen", None);
    service.Emit("message", Some(payload));
    calls, table := service.trace, service.registered;
  }

  /** Re-installing a delegate with the same two hooks keeps the table: the
      listener is still invoked and no remove hook is called. */
  method SameHooksKeepRegistrations(delegate: Delegate, event: EventName, listener: FunctionRef) returns (calls: seq<Call>)
    ensures calls == [DelegateAdd(delegate.addListener, event, listener, []), Invoke(listener, None)]
  {
    DispatchOne(Registration(event, listener), event, None);
    var service := new EventListenerService();
    service.SetImplementation(delegate);
    var _ := service.AddListener(event, listener, []);
    service.SetImplementation(Delegate(delegate.addListener, delegate.removeListener));
    service.Emit(event, None);
    calls := service.trace;
  }

  /** Two listeners on one event, one removed between two emissions: the
      second emission reaches only the remaining one. */
  method RemoveBetweenEmissions(event: EventName, f: FunctionRef, g: FunctionRef) returns (calls: seq<Call>)
    requires f != g
    ensures calls == [Invoke(f, None), Invoke(g, None), Invoke(g, None)]
  {
    var table := [Registration(event, f), Registration(event, g)];
    DispatchTwo(table[0], table[1], event, None);
    DispatchOne(table[1], event, None);
    assert RemoveFirst(table, table[0]) == [table[1]];
    var service := new EventListenerService();
    service.UseWithoutImplementation();
    var _ := service.AddListener(event, f, []);
    var _ := service.AddListener(event, g, []);
    service.Emit(event, None);
    var _ := service.RemoveListener(event, f, []);
    service.Emit(event, None);
    calls := service.trace;
  }

  /** Before any implementation is configured the slot is `undefined`: the
      pair is stored and then the delegate call fails with a TypeError. */
  method AddBeforeConfiguration(event: EventName, listener: FunctionRef) returns (completion: Completion, calls: seq<Call>, table: seq<Registration>)
    ensures completion == ThrewTypeError
    ensures calls == []
    ensures table == [Registration(event, listener)]
  {
    var service := new EventListenerService();
    completion := service.AddListener(event, listener, []);
    calls, table := service.trace, service.registered;
  }
}
