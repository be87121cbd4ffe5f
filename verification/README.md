# event-listener-service, modelled in Dafny

`EventListenerService` (src/index.ts) is a process-wide registry of event
listeners. It keeps an insertion-ordered table of `(event, listener)` pairs
with no pair twice. It can forward every registration and removal to a
pluggable delegate (the "implementation") that has `addListener` and
`removeListener` hooks. `emit` fans an event out to the matching listeners in
table order. Installing a delegate whose hooks differ from the previous one's
first pops every pair off the table, newest first, and reports each to the
previous delegate's remove hook.

The model has four modules:

- `Wrappers` (wrappers.dfy): the `Option` type used for an omitted payload.
- `Registrations` (registrations.dfy): the values (`Registration`,
  `Delegate`, the `implementation` slot `Slot`, the `Call` log entry) and the
  specification functions the operations are proved against. `RemoveFirst`
  is what `splice` at the first match does. `Dispatch` gives the invocations
  of one `emit`. `FlushCalls` gives the delegate calls of a flush. Lemmas
  relate them to the table invariant `NoDuplicates`.
- `Service` (service.dfy): class `EventListenerService` with the source's
  state as fields: `implementation`, `registered` (a `seq` that the methods
  reassign where the source pushes, splices and pops), and `trace`. Its
  methods follow the source's control flow. That covers the `for` loop of
  `findIndexOf`, the `while` loop that pops during `setImplementation`, and
  the `forEach` of `emit`. Each method's postcondition gives the new table
  and the calls appended to `trace` in terms of the old state.
- `Scenarios` (scenarios.dfy): concrete call sequences, each starting from a
  fresh registry. Four follow test cases of __tests__/index.spec.ts; the other
  three exercise branches of src/index.ts (identical hooks at line 51, removal
  between two emissions, a registration while the slot is still `undefined`).
  Each one's postcondition is the exact list of calls made, and where it
  matters the final table or the completion.

Listeners and delegate hooks are JavaScript functions that the registry
compares only with `===`, so each is an opaque identity (`FunctionRef`).
What they do when called is out of scope. Every call the registry makes to
them is appended to `trace` as a `Call`: `DelegateAdd` and `DelegateRemove`
record the hook called, its arguments and the forwarded extras; `Invoke`
records a listener and its argument. Payloads and forwarded extras are
opaque `Value`s. The only thing the registry inspects about a value is its
truthiness, which is the `truthy` flag.

Two behaviours of the code are easy to miss, and the model keeps both:

- `implementation` starts `undefined` (src/index.ts:23), while `addListener`
  and `removeListener` test only `!== null` (lines 66 and 80). So a first
  registration before any configuration stores the pair and then throws a
  TypeError when it calls `undefined.addListener`. The model keeps the three
  states (`Undefined`, `Null`, `Installed`) and returns a `Completion` that
  says `ThrewTypeError` on that path (scenario `AddBeforeConfiguration`).
- A flush pops every entry (line 55), so after a delegate swap the table is
  empty and a later `emit` reaches nobody.

## Model

| member | source | states |
|---|---|---|
| `Service.EventListenerService.FindIndexOf` | src/index.ts:33-42 | The result is -1 exactly when no entry has both the same event and the same listener; otherwise it is an index holding the pair, and the pair does not occur before it (so it is the smallest such index). |
| `Service.EventListenerService.constructor` | src/index.ts:22-24 | The initial state: implementation `undefined`, empty table, no call made; the table invariant holds. |
| `Service.EventListenerService.UseWithoutImplementation` | src/index.ts:44-46 | The implementation becomes `null`. Nothing else may change (frame), so the table and the log are untouched. |
| `Service.EventListenerService.SetImplementation` | src/index.ts:48-59 | Case 1: a delegate was installed and its add or remove hook differs from the new one's. Then the table ends empty, and the log gains one call to the previous remove hook per former entry, in the order `FlushCalls` gives (last to first). Case 2, otherwise: the table and the log are unchanged. In both cases the new delegate is stored and the no-duplicates invariant is kept. |
| `Service.EventListenerService.AddListener` | src/index.ts:61-68 | Case 1: the pair is present. Then the table and the log are unchanged and the call returns normally. Case 2: the pair is absent. Then it is appended at the end, with earlier entries unchanged. After that comes exactly one delegate add call with the forwarded extras if a delegate is installed, none if the slot is `null`, and a TypeError if it is `undefined`. The no-duplicates invariant is kept. |
| `Service.EventListenerService.RemoveListener` | src/index.ts:75-82 | The new table is `RemoveFirst` of the old one, and the pair is no longer in it. Case 1: the pair was present. Then exactly one delegate remove call with the forwarded extras is made if a delegate is installed, none if the slot is `null`, and a TypeError if it is `undefined`. Case 2: it was absent. Then the table and the log are unchanged. The no-duplicates invariant is kept. |
| `Service.EventListenerService.Emit` | src/index.ts:70-73 | The table and the implementation are unchanged. The log gains exactly `Dispatch` of the table: one invocation per entry for the event, in table order, and no delegate call. |
| `Service.EventListenerService.EmitToListener` | src/index.ts:26-31 | An entry for another event adds nothing to the log. An entry for the event invokes its listener, with the payload when it is truthy and with no argument otherwise. |
| `Registrations.RemoveFirst` | src/index.ts:79 | Removal shortens the table by one exactly when the pair is present, and leaves its length unchanged otherwise. |
| `Registrations.SpliceFirstIsRemoveFirst` | src/index.ts:77-79 | Splicing one element out at the first index that holds the pair is the same as `RemoveFirst`. So removal keeps the relative order of all other entries. |
| `Registrations.RemoveFirstAbsent` | src/index.ts:78 | Removing a pair that is not in the table leaves the table unchanged, so a second remove is a no-op. |
| `Registrations.RemoveFirstMultiset` | src/index.ts:79 | Removal takes out exactly one copy of the pair and nothing else: the new multiset is the old one minus that pair. |
| `Registrations.RemoveFirstKeepsNoDuplicates` | src/index.ts:79 | On a table without duplicates, removal keeps the table without duplicates and leaves no copy of the removed pair. |
| `Registrations.AddThenRemoveRestores` | src/index.ts:61-82 | Appending an absent pair and then removing it gives back the original table. Removal undoes registration. |
| `Registrations.DispatchOnlyInvokes` | src/index.ts:70-73 | An emission makes at most one call per entry. Every call is a listener invocation, never a delegate call. Each invocation carries the same argument. Each invoked listener is registered for the emitted event. |
| `Registrations.DispatchAppend` | src/index.ts:72 | Emission follows table order. The invocations for a table `a + b` are those for `a` followed by those for `b`. |
| `Registrations.DispatchInvokesRegistered` | src/index.ts:26-31 | A listener is invoked by an emission of an event if and only if the pair `(event, listener)` is in the table. |
| `Registrations.DispatchOncePerRegistration` | __tests__/index.spec.ts:57-65 | In a table without duplicates, a listener registered for the event is invoked exactly once per emission, and any other listener is invoked zero times. |
| `Registrations.FlushCallsLastToFirst` | src/index.ts:52-56 | A flush makes exactly one call per entry. Call k goes to the previous remove hook for entry `n-1-k` (last to first), with no extra arguments. |
| `Scenarios.DuplicateCallsWithoutImplementation` | __tests__/index.spec.ts:57-65 | With no delegate, the sequence add, add, emit, remove, remove invokes the listener exactly once, calls nothing else and leaves the table empty. |
| `Scenarios.DuplicateCallsWithImplementation` | __tests__/index.spec.ts:132-142 | With a delegate, the same sequence makes exactly these calls: one delegate add, one invocation, one delegate remove. The table ends empty. |
| `Scenarios.FanOutWithPayload` | __tests__/index.spec.ts:37-45 | Two listeners of one event both receive a truthy payload, in registration order. |
| `Scenarios.SwapFlushesThroughPreviousDelegate` | __tests__/index.spec.ts:183-198 | A delegate with different hooks replaces the previous one. Then both pairs are reported to the previous remove hook, newest first. Later emissions invoke nobody, and the table is empty. |
| `Scenarios.SameHooksKeepRegistrations` | src/index.ts:51 | Re-installing a delegate with reference-identical hooks calls no remove hook, and the listener is still invoked by a later emit. |
| `Scenarios.RemoveBetweenEmissions` | src/index.ts:70-82 | Two listeners are registered, and the first is removed between two emissions. Then the calls are: first, second, second. |
| `Scenarios.AddBeforeConfiguration` | src/index.ts:61-66 | A registration before any configuration stores the pair, calls nothing and then ends in a TypeError. |

## Left out

- Re-entrancy: `emit` iterates with `Array.prototype.forEach` over the live table. A listener that adds or removes registrations during an emission would change what that `forEach` visits. The model emits over a snapshot of the table taken when `emit` starts, and listeners cannot call back into the registry.
- Exceptions thrown by listeners or by delegate hooks. The source does not catch them. The model assumes every foreign call returns normally. The only exception modelled is the TypeError from calling a hook on an `undefined` implementation.
- The JavaScript value domain. A payload is an opaque `Value`, and its truthiness is the flag `truthy`. A falsy payload (empty string, 0, false, null) therefore reaches the listeners as no argument, as in the source. An omitted payload is `None`.
- The contents of the `...additional` arguments. They are only forwarded, so they are an opaque `seq<Value>` recorded in the delegate call.
- Calling `setImplementation` with `null`. The declared parameter type does not exclude it (line 45 itself assigns `null` to the same type). With a delegate installed, reading `implementation.addListener` at line 51 then throws a TypeError before any remove call and the table is untouched; with no delegate installed, it stores `null`, which is what `useWithoutImplementation` does. The model's `Delegate` always has both hooks, so neither path is modelled. An object that lacks the hooks is left out for the same reason.
- Static singleton state. The source keeps the registry in static fields. The model has one object per registry, and the scenarios each start from a fresh one. The test suite instead shares one registry across its test cases.
- The `constants` namespace, the `Emit` interface and the default export carry no logic of their own. The constants are inlined (-1, 0, 1).
