/**
  The values the event-listener registry works with, and the specification
  functions that say what each of its operations does to the table of
  registrations and which foreign calls it makes.

  Listeners and the delegate's two hooks are JavaScript functions that the
  registry only ever compares with `===`, so each is an opaque reference
  (`FunctionRef`). What those functions do when called is outside the model:
  a call is recorded as a `Call` in the order it is made.
*/
module Registrations {
  import opened Wrappers

  type EventName = string

  /** The identity of a JavaScript function value; equal iff `===`. */
  type FunctionRef = nat

  /** An arbitrary JavaScript value passed through the registry. Only its
      truthiness is ever inspected. */
  datatype Value = Value(id: nat, truthy: bool)

  /** One entry of the table: an event name and a listener. */
  datatype Registration = Registration(event: EventName, listener: FunctionRef)

  /** The external implementation: its `addListener` and `removeListener` hooks. */
  datatype Delegate = Delegate(addListener: FunctionRef, removeListener: FunctionRef)

  /** The registry's `implementation` slot: `undefined` until first configured,
      `null` after `useWithoutImplementation`, or a delegate. */
  datatype Slot = Undefined | Null | Installed(delegate: Delegate)

  /** A call the registry makes to code it does not own, in the order made:
      a delegate hook (by reference, with the forwarded extra arguments), or a
      listener invoked with one argument or with none. */
  datatype Call =
    | DelegateAdd(hook: FunctionRef, event: EventName, listener: FunctionRef, additional: seq<Value>)
    | DelegateRemove(hook: FunctionRef, event: EventName, listener: FunctionRef, additional: seq<Value>)
    | Invoke(listener: FunctionRef, argument: Option<Value>)

  /** The table's invariant: no `(event, listener)` pair occurs twice. */
  ghost predicate NoDuplicates(table: seq<Registration>) {
    forall i, j :: 0 <= i < j < |table| ==> table[i] != table[j]
  }

  /*** removeListener ***/

  /** The table without the first occurrence of `wanted` (unchanged if absent). */
  function RemoveFirst(table: seq<Registration>, wanted: Registration): (rest: seq<Registration>)
    ensures |rest| == if wanted in table then |table| - 1 else |table|
  {
    if table == [] then []
    else if table[0] == wanted then table[1..]
    else [table[0]] + RemoveFirst(table[1..], wanted)
  }

  /** Splicing out the first index holding `wanted` is removing its first occurrence. */
  lemma {:induction false} SpliceFirstIsRemoveFirst(table: seq<Registration>, wanted: Registration, index: nat)
    requires index < |table| && table[index] == wanted && wanted !in table[..index]
    ensures table[..index] + table[index + 1..] == RemoveFirst(table, wanted)
  {
    if index > 0 {
      assert table[0] in table[..index];
      assert table[1..][..index - 1] == table[1..index];
      SpliceFirstIsRemoveFirst(table[1..], wanted, index - 1);
      assert table[..index] == [table[0]] + table[1..][..index - 1];
      assert table[index + 1..] == table[1..][index..];
    }
  }

  /** Removing a pair that is absent changes nothing. */
  lemma {:induction false} RemoveFirstAbsent(table: seq<Registration>, wanted: Registration)
    requires wanted !in table
    ensures RemoveFirst(table, wanted) == table
  {
    if table != [] {
      assert table[0] in table;
      RemoveFirstAbsent(table[1..], wanted);
      assert table == [table[0]] + table[1..];
    }
  }

  /** Exactly one copy of `wanted` leaves the table, and nothing else does. */
  lemma {:induction false} RemoveFirstMultiset(table: seq<Registration>, wanted: Registration)
    ensures multiset(RemoveFirst(table, wanted)) == multiset(table) - multiset{wanted}
  {
    if table != [] {
      assert table == [table[0]] + table[1..];
      RemoveFirstMultiset(table[1..], wanted);
      if table[0] != wanted {
        assert multiset(table[1..]) - multiset{wanted} + multiset{table[0]}
            == multiset(table) - multiset{wanted};
      }
    }
  }

  /** Removal keeps the invariant and leaves no copy of the removed pair. */
  lemma {:induction false} RemoveFirstKeepsNoDuplicates(table: seq<Registration>, wanted: Registration)
    requires NoDuplicates(table)
    ensures NoDuplicates(RemoveFirst(table, wanted))
    ensures wanted !in RemoveFirst(table, wanted)
  {
    if table != [] && table[0] != wanted {
      var head, rest := table[0], RemoveFirst(table[1..], wanted);
      RemoveFirstKeepsNoDuplicates(table[1..], wanted);
      RemoveFirstMultiset(table[1..], wanted);
      assert head !in table[1..];
      assert multiset(rest)[head] == 0;
      assert NoDuplicates([head] + rest) by {
        forall i, j | 0 <= i < j < |[head] + rest| ensures ([head] + rest)[i] != ([head] + rest)[j] {
          if i > 0 {
            assert ([head] + rest)[i] == rest[i - 1];
          }
        }
      }
    }
  }

  /** Adding an absent pair and then removing it gives back the table. */
  lemma {:induction false} AddThenRemoveRestores(table: seq<Registration>, entry: Registration)
    requires entry !in table
    ensures RemoveFirst(table + [entry], entry) == table
  {
    SpliceFirstIsRemoveFirst(table + [entry], entry, |table|);
    assert (table + [entry])[..|table|] == table;
  }

  /*** emit ***/

  /** What a listener receives: the payload when it is truthy, no argument otherwise. */
  function Argument(emitted: Option<Value>): (argument: Option<Value>) {
    if emitted.Some? && emitted.value.truthy then emitted else None
  }

  /** The invocation `emitToLisener` makes for one entry. */
  function Notify(entry: Registration, event: EventName, emitted: Option<Value>): (calls: seq<Call>) {
    if entry.event == event then [Invoke(entry.listener, Argument(emitted))] else []
  }

  /** The invocations `emit(event, emitted)` makes over `table`, in table order. */
  function Dispatch(table: seq<Registration>, event: EventName, emitted: Option<Value>): (calls: seq<Call>) {
    if table == [] then []
    else Notify(table[0], event, emitted) + Dispatch(table[1..], event, emitted)
  }

  /** Proof helper: `Dispatch` unfolded on a one-entry table. */
  lemma DispatchOne(entry: Registration, event: EventName, emitted: Option<Value>)
    ensures Dispatch([entry], event, emitted) == Notify(entry, event, emitted)
  {
    assert [entry][1..] == [];
  }

  /** Proof helper: `Dispatch` unfolded on a two-entry table. */
  lemma DispatchTwo(first: Registration, second: Registration, event: EventName, emitted: Option<Value>)
    ensures Dispatch([first, second], event, emitted) == Notify(first, event, emitted) + Notify(second, event, emitted)
  {
    assert [first, second][1..] == [second];
    DispatchOne(second, event, emitted);
  }

  /** Emission only invokes listeners (it never calls the delegate), each with
      the same argument, and only listeners registered for `event`. */
  lemma {:induction false} DispatchOnlyInvokes(table: seq<Registration>, event: EventName, emitted: Option<Value>)
    ensures |Dispatch(table, event, emitted)| <= |table|
    ensures forall c :: c in Dispatch(table, event, emitted) ==>
      c.Invoke? && c.argument == Argument(emitted) && Registration(event, c.listener) in table
  {
    if table != [] {
      DispatchOnlyInvokes(table[1..], event, emitted);
    }
  }

  /** Emission follows table order: the invocations for an earlier part of the
      table all come before those for a later part. */
  lemma {:induction false} DispatchAppend(front: seq<Registration>, back: seq<Registration>, event: EventName, emitted: Option<Value>)
    ensures Dispatch(front + back, event, emitted) == Dispatch(front, event, emitted) + Dispatch(back, event, emitted)
  {
    if front == [] {
      assert front + back == back;
    } else {
      assert (front + back)[1..] == front[1..] + back;
      DispatchAppend(front[1..], back, event, emitted);
    }
  }

  /** A listener is invoked by `emit(event, ...)` exactly when it is registered for `event`. */
  lemma {:induction false} DispatchInvokesRegistered(table: seq<Registration>, event: EventName, emitted: Option<Value>, listener: FunctionRef)
    ensures Invoke(listener, Argument(emitted)) in Dispatch(table, event, emitted)
        <==> Registration(event, listener) in table
  {
    if table != [] {
      DispatchInvokesRegistered(table[1..], event, emitted, listener);
      DispatchOnlyInvokes(table[1..], event, emitted);
      assert table == [table[0]] + table[1..];
    }
  }

  /** With no duplicate pairs, each listener registered for `event` is invoked
      exactly once per emission, and every other listener not at all. */
  lemma {:induction false} DispatchOncePerRegistration(table: seq<Registration>, event: EventName, emitted: Option<Value>, listener: FunctionRef)
    requires NoDuplicates(table)
    ensures multiset(Dispatch(table, event, emitted))[Invoke(listener, Argument(emitted))]
         == if Registration(event, listener) in table then 1 else 0
  {
    if table != [] {
      var entry, rest := table[0], table[1..];
      assert table == [entry] + rest;
      assert NoDuplicates(rest);
      assert entry !in rest;
      DispatchOncePerRegistration(rest, event, emitted, listener);
      DispatchInvokesRegistered(rest, event, emitted, listener);
    }
  }

  /*** setImplementation ***/

  /** Whether installing `next` over `previous` flushes the table: there was a
      delegate and one of its hooks differs by reference from the new one's. */
  predicate MustFlush(previous: Slot, next: Delegate) {
    previous.Installed? &&
    (previous.delegate.addListener != next.addListener || previous.delegate.removeListener != next.removeListener)
  }

  /** The delegate calls of a flush: `remove` once per entry, popping from the end. */
  function FlushCalls(remove: FunctionRef, table: seq<Registration>): (calls: seq<Call>) {
    if table == [] then []
    else FlushCalls(remove, table[1..]) + [DelegateRemove(remove, table[0].event, table[0].listener, [])]
  }

  /** A flush calls the previous delegate's remove hook once per entry, with no
      extra arguments, in last-to-first order. */
  lemma {:induction false} FlushCallsLastToFirst(remove: FunctionRef, table: seq<Registration>)
    ensures |FlushCalls(remove, table)| == |table|
    ensures forall k :: 0 <= k < |table| ==>
      FlushCalls(remove, table)[k] == DelegateRemove(remove, table[|table| - 1 - k].event, table[|table| - 1 - k].listener, [])
  {
    if table != [] {
      FlushCallsLastToFirst(remove, table[1..]);
    }
  }
}
