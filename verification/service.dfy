/**
  The registry: class `EventListenerService` of src/index.ts. The source keeps
  its state in static fields of a singleton; here that state lives in one
  object, created in the state the static initialisers give it.

  `trace` is the sequence of calls the registry has made into code it does not
  own (delegate hooks and listeners), so each operation's contract can say
  which calls it makes and in which order.
*/
module Service {
  import opened Wrappers
  import opened Registrations

  /** How an operation ends: normally, or by the TypeError the source raises
      when it calls a hook on an `undefined` implementation. */
  datatype Completion = Returned | ThrewTypeError

  class EventListenerService {
    var implementation: Slot
    var registered: seq<Registration>
    var trace: seq<Call>

    /** The table never holds the same `(event, listener)` pair twice. */
    ghost predicate Valid()
      reads this
    {
      NoDuplicates(registered)
    }

    /** The static initial state: no implementation set yet (`undefined`),
        an empty table, no call made. */
    constructor ()
      ensures Valid()
      ensures implementation == Undefined && registered == [] && trace == []
    {
      implementation := Undefined;
      registered := [];
      trace := [];
    }

    /** The first index of `wanted` in the table, or -1 when it is absent. */
    static method FindIndexOf(registered: seq<Registration>, wanted: Registration) returns (found: int)
      ensures -1 <= found < |registered|
      ensures found == -1 <==> wanted !in registered
      ensures found != -1 ==> registered[found] == wanted && wanted !in registered[..found]
    {
      for index := 0 to |registered|
        invariant wanted !in registered[..index]
      {
        if wanted.event == registered[index].event && wanted.listener == registered[index].listener {
          return index;
        }
        assert registered[..index + 1] == registered[..index] + [registered[index]];
      }
      assert registered[..|registered|] == registered;
      return -1;
    }

    /** Drops the implementation; the table is left as it is. */
    method UseWithoutImplementation()
      modifies this`implementation
      ensures implementation == Null
    {
      implementation := Null;
    }

    /** Installs `next`. When it replaces a delegate with a different hook,
        every entry is first popped from the end of the table and reported to
        the previous delegate's remove hook. */
    method SetImplementation(next: Delegate)
      requires Valid()
      modifies this
      ensures Valid()
      ensures implementation == Installed(next)
      ensures MustFlush(old(implementation), next) ==>
        registered == [] &&
        trace == old(trace) + FlushCalls(old(implementation).delegate.removeListener, old(registered))
      ensures !MustFlush(old(implementation), next) ==>
        registered == old(registered) && trace == old(trace)
    {
      var previous := implementation;
      if MustFlush(previous, next) {
        var remove := previous.delegate.removeListener;
        ghost var initial := registered;
        while |registered| > 0
          invariant registered == initial[..|registered|]
          invariant trace == old(trace) + FlushCalls(remove, initial[|registered|..])
          decreases |registered|
        {
          var entry := registered[|registered| - 1];
          trace := trace + [DelegateRemove(remove, entry.event, entry.listener, [])];
          assert initial[|registered| - 1..][1..] == initial[|registered|..];
          registered := registered[..|registered| - 1];
        }
        assert initial[0..] == initial;
      }
      implementation := Installed(next);
    }

    /** Registers `listener` for `event` unless that pair is already present;
        a new pair goes to the end of the table and is then forwarded, with
        `additional`, to the delegate's add hook. */
    method AddListener(event: EventName, listener: FunctionRef, additional: seq<Value>) returns (completion: Completion)
      requires Valid()
      modifies this`registered, this`trace
      ensures Valid()
      ensures Registration(event, listener) in old(registered) ==>
        registered == old(registered) && trace == old(trace) && completion == Returned
      ensures Registration(event, listener) !in old(registered) ==>
        registered == old(registered) + [Registration(event, listener)] &&
        trace == old(trace) +
          (if implementation.Installed?
           then [DelegateAdd(implementation.delegate.addListener, event, listener, additional)]
           else []) &&
        completion == (if implementation.Undefined? then ThrewTypeError else Returned)
    {
      var register := Registration(event, listener);
      completion := Returned;
      var found := FindIndexOf(registered, register);
      if found == -1 {
        registered := registered + [register];
        match implementation
        case Installed(delegate) =>
          trace := trace + [DelegateAdd(delegate.addListener, event, listener, additional)];
        case Null =>
        case Undefined =>
          completion := ThrewTypeError;
      }
    }

    /** Unregisters `listener` for `event`: the first matching entry is
        spliced out and the removal is forwarded, with `additional`, to the
        delegate's remove hook. An absent pair changes nothing. */
    method RemoveListener(event: EventName, listener: FunctionRef, additional: seq<Value>) returns (completion: Completion)
      requires Valid()
      modifies this`registered, this`trace
      ensures Valid()
      ensures registered == RemoveFirst(old(registered), Registration(event, listener))
      ensures Registration(event, listener) !in registered
      ensures Registration(event, listener) in old(registered) ==>
        trace == old(trace) +
          (if implementation.Installed?
           then [DelegateRemove(implementation.delegate.removeListener, event, listener, additional)]
           else []) &&
        completion == (if implementation.Undefined? then ThrewTypeError else Returned)
      ensures Registration(event, listener) !in old(registered) ==>
        registered == old(registered) && trace == old(trace) && completion == Returned
    {
      var wanted := Registration(event, listener);
      completion := Returned;
      RemoveFirstKeepsNoDuplicates(registered, wanted);
      var found := FindIndexOf(registered, wanted);
      if found != -1 {
        SpliceFirstIsRemoveFirst(registered, wanted, found);
        registered := registered[..found] + registered[found + 1..];
        match implementation
        case Installed(delegate) =>
          trace := trace + [DelegateRemove(delegate.removeListener, event, listener, additional)];
        case Null =>
        case Undefined =>
          completion := ThrewTypeError;
      } else {
        RemoveFirstAbsent(registered, wanted);
      }
    }

    /** Invokes, in table order, every listener registered for `event`; the
        table and the implementation are left as they are. */
    method Emit(event: EventName, emitted: Option<Value>)
      modifies this`trace
      ensures registered == old(registered) && implementation == old(implementation)
      ensures trace == old(trace) + Dispatch(registered, event, emitted)
    {
      var snapshot := registered;
      for index := 0 to |snapshot|
        invariant trace == old(trace) + Dispatch(snapshot[..index], event, emitted)
      {
        assert snapshot[..index + 1] == snapshot[..index] + [snapshot[index]];
        DispatchAppend(snapshot[..index], [snapshot[index]], event, emitted);
        DispatchOne(snapshot[index], event, emitted);
        EmitToListener(snapshot[index], event, emitted);
      }
      assert snapshot[..|snapshot|] == snapshot;
    }

    /** Invokes the entry's listener when its event is `event`: with the
        payload when that is truthy, with no argument otherwise. */
    method EmitToListener(entry: Registration, event: EventName, emitted: Option<Value>)
      modifies this`trace
      ensures trace == old(trace) + Notify(entry, event, emitted)
    {
      if entry.event == event {
        if emitted.Some? && emitted.value.truthy {
          trace := trace + [Invoke(entry.listener, emitted)];
        } else {
          trace := trace + [Invoke(entry.listener, None)];
        }
      }
    }
  }
}
