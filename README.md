# CompositeConnectionListener, modelled in Dafny

Spring AMQP's `CompositeConnectionListener` is a connection listener that fans
every connection lifecycle callback out to an ordered, mutable list of delegate
listeners. It has two parts:

- a registry of delegates: `addDelegate` appends, `removeDelegate` removes the
  first equal delegate and says whether there was one, `clearDelegates` empties
  the list, and `setDelegates` replaces the list with a copy of the caller's;
- fan-out of `onCreate(connection)`, `onClose(connection)` and
  `onShutDown(signal)`: each loops over the delegates in list order and makes
  the same call on each. The loops have no exception handling, so the first
  delegate that throws ends the loop and its exception reaches the caller.

The project has three modules:

- `Lists` (Lists.dfy): the `java.util.List` behaviour the class relies on. It
  holds a first-index search and `List.remove(Object)` as pure functions
  (`RemoveFirst`), with lemmas on order, multiplicity and the add/remove round trip.
- `Connection` (Connection.dfy): the class `CompositeConnectionListener`, whose
  fields are `delegates: seq<L>` and `log`. The log holds every delegate
  invocation made so far. The module also holds the specification of one dispatch:
  - `Fanout` is every delegate called once, in order, with the same argument.
  - `DispatchOutcome` is the first delegate that throws, if any.
  - `Invoked` is the prefix of the list that actually gets called.
  It also holds the lemmas relating these to each other and to list concatenation.
  The three dispatch methods `OnCreate`, `OnClose` and `OnShutDown` share one
  `while` loop, in `Dispatch`, over a snapshot of `delegates`. Its contract ties
  the new log and the outcome to those functions and says that the list did not
  change.
- `Scenarios` (Scenarios.dfy): client methods that replay usage
  scenarios using only the class's contracts:
  - registration order;
  - a removed delegate is not notified;
  - removing an absent delegate;
  - a duplicate is notified twice;
  - fail-fast on shutdown;
  - dispatch after clear;
  - `setDelegates` stores a copy.

Listeners, connections and shutdown signals are type parameters `L`, `C` and `S`.
Java's `equals` on listeners is Dafny's `==` on `L`. What a delegate does when
called is represented by two things only:

- the `Invocation(listener, event)` appended to `log`;
- a parameter `fails: Invocation -> bool` of each dispatch, which says whether that
  call throws.

A call that throws is still logged, because the delegate was invoked.

## Model

| member | source | states |
|---|---|---|
| Lists.IndexOf | spring-rabbit/src/main/java/org/springframework/amqp/rabbit/connection/CompositeConnectionListener.java:62 | finds an occurrence exactly when the delegate is in the list; the index holds it and no earlier entry equals it |
| Lists.RemoveFirst | spring-rabbit/src/main/java/org/springframework/amqp/rabbit/connection/CompositeConnectionListener.java:61-63 | an absent delegate leaves the list unchanged; otherwise the result is the list with exactly the first occurrence cut out (length one less, other entries in the same order) and one copy fewer of the delegate in the multiset |
| Lists.RemoveFirstAt | spring-rabbit/src/main/java/org/springframework/amqp/rabbit/connection/CompositeConnectionListener.java:61-63 | any index holding the delegate with no earlier occurrence is where removal cuts |
| Lists.RemoveFirstReinsert | spring-rabbit/src/main/java/org/springframework/amqp/rabbit/connection/CompositeConnectionListener.java:61-63 | putting the removed delegate back at its first index restores the original list, so removal keeps every other entry in order |
| Lists.AddThenRemove | spring-rabbit/src/main/java/org/springframework/amqp/rabbit/connection/CompositeConnectionListener.java:57-63 | addDelegate(d) then removeDelegate(d) restores the list when d was absent; when d was present it removes the earlier copy and the appended one stays last |
| Connection.Fanout | spring-rabbit/src/main/java/org/springframework/amqp/rabbit/connection/CompositeConnectionListener.java:34-51 | a dispatch where nobody throws makes one call per list entry, in list order, each with the same event and argument, so duplicates are called twice |
| Connection.FanoutAppend | spring-rabbit/src/main/java/org/springframework/amqp/rabbit/connection/CompositeConnectionListener.java:34-51 | the calls for a concatenated list are the calls for the first part followed by those for the second |
| Connection.FanoutExtend | spring-rabbit/src/main/java/org/springframework/amqp/rabbit/connection/CompositeConnectionListener.java:35-37 | one more loop iteration adds exactly the call on the next delegate |
| Connection.DispatchOutcome | spring-rabbit/src/main/java/org/springframework/amqp/rabbit/connection/CompositeConnectionListener.java:34-51 | a dispatch completes exactly when no delegate's call throws; otherwise it fails naming the first delegate whose call throws, and every delegate before it returned |
| Connection.Invoked | spring-rabbit/src/main/java/org/springframework/amqp/rabbit/connection/CompositeConnectionListener.java:34-51 | the delegates called form a prefix of the list; all but the last returned, and the prefix stops short of the whole list only because its last delegate threw |
| Connection.NoFailureInvokesAll | spring-rabbit/src/main/java/org/springframework/amqp/rabbit/connection/CompositeConnectionListener.java:34-51 | when no call throws, the dispatch completes and every delegate is called |
| Connection.FailFast | spring-rabbit/src/main/java/org/springframework/amqp/rabbit/connection/CompositeConnectionListener.java:34-51 | when delegate i is the first to throw, the failure names i, delegates 0..i were called and none after i |
| Connection.DispatchAppend | spring-rabbit/src/main/java/org/springframework/amqp/rabbit/connection/CompositeConnectionListener.java:34-59 | dispatching to a concatenated list dispatches to the first part and reaches the second part only if the first part completed; a failure in the second part is reported at its offset in the whole list |
| Connection.CompositeConnectionListener.constructor | spring-rabbit/src/main/java/org/springframework/amqp/rabbit/connection/CompositeConnectionListener.java:32 | a new composite has no delegates and has made no calls |
| Connection.CompositeConnectionListener.Dispatch | spring-rabbit/src/main/java/org/springframework/amqp/rabbit/connection/CompositeConnectionListener.java:34-51 | the loop over a snapshot appends to the log exactly the calls on the delegates that get called, returns the dispatch outcome, and leaves the delegate list unchanged |
| Connection.CompositeConnectionListener.OnCreate | spring-rabbit/src/main/java/org/springframework/amqp/rabbit/connection/CompositeConnectionListener.java:34-38 | onCreate(connection) is that dispatch for the creation event with that connection |
| Connection.CompositeConnectionListener.OnClose | spring-rabbit/src/main/java/org/springframework/amqp/rabbit/connection/CompositeConnectionListener.java:40-44 | onClose(connection) is that dispatch for the close event with that connection |
| Connection.CompositeConnectionListener.OnShutDown | spring-rabbit/src/main/java/org/springframework/amqp/rabbit/connection/CompositeConnectionListener.java:46-51 | onShutDown(signal) is that dispatch for the shutdown event with that signal |
| Connection.CompositeConnectionListener.SetDelegates | spring-rabbit/src/main/java/org/springframework/amqp/rabbit/connection/CompositeConnectionListener.java:53-55 | the delegate list becomes the contents of the caller's list at the time of the call, in the same order; the log is unchanged |
| Connection.CompositeConnectionListener.AddDelegate | spring-rabbit/src/main/java/org/springframework/amqp/rabbit/connection/CompositeConnectionListener.java:57-59 | the new list is the old list followed by the delegate, duplicates included; the log is unchanged |
| Connection.CompositeConnectionListener.RemoveDelegate | spring-rabbit/src/main/java/org/springframework/amqp/rabbit/connection/CompositeConnectionListener.java:61-63 | returns true exactly when the delegate was in the list; the new list is the old one with its first occurrence removed |
| Connection.CompositeConnectionListener.ClearDelegates | spring-rabbit/src/main/java/org/springframework/amqp/rabbit/connection/CompositeConnectionListener.java:65-67 | the list becomes empty; the log is unchanged |
| Scenarios.NotifyInRegistrationOrder | spring-rabbit/src/main/java/org/springframework/amqp/rabbit/connection/CompositeConnectionListener.java:34-38 | A, B, C added in that order receive onCreate(conn) as A, B, C, and the dispatch completes |
| Scenarios.RemovedDelegateIsNotNotified | spring-rabbit/src/main/java/org/springframework/amqp/rabbit/connection/CompositeConnectionListener.java:40-63 | after adding A and B and removing A (which reports true), onClose reaches B only, once; this holds also when A and B are the same delegate |
| Scenarios.RemoveAbsentDelegate | spring-rabbit/src/main/java/org/springframework/amqp/rabbit/connection/CompositeConnectionListener.java:61-63 | removing a delegate that is not registered reports false and leaves the list as it was |
| Scenarios.DuplicateNotifiedTwice | spring-rabbit/src/main/java/org/springframework/amqp/rabbit/connection/CompositeConnectionListener.java:40-59 | a delegate added twice receives onClose twice |
| Scenarios.FailingDelegateStopsDispatch | spring-rabbit/src/main/java/org/springframework/amqp/rabbit/connection/CompositeConnectionListener.java:46-51 | when A's onShutDown throws and B follows it, A is called, the failure names A at index 0, and B is never called |
| Scenarios.DispatchAfterClear | spring-rabbit/src/main/java/org/springframework/amqp/rabbit/connection/CompositeConnectionListener.java:34-38 | after clearDelegates a dispatch calls nobody, adds nothing to the log and completes, whatever `fails` says |
| Scenarios.SetDelegatesStoresCopy | spring-rabbit/src/main/java/org/springframework/amqp/rabbit/connection/CompositeConnectionListener.java:53-55 | after setDelegates, the caller writing into its own list changes neither the delegates nor what the next dispatch reaches: exactly the list as given, in its order |

## Left out

- Concurrency. The initial list is a `CopyOnWriteArrayList`. A dispatch running
  while another thread changes the list, and the snapshot semantics that make this
  safe, are not modelled. `setDelegates` installs a plain `ArrayList`, which is not
  copy-on-write. When no delegate changes the list during a dispatch, that list and
  the `CopyOnWriteArrayList` behave the same, so the model uses one `seq`.
- Re-entrant registry calls. A delegate may call `addDelegate`, `removeDelegate`,
  `setDelegates` or `clearDelegates` on the composite from inside its callback.
  After `setDelegates` the loop iterates a plain `ArrayList`, so such a change can
  make the iterator throw `ConcurrentModificationException` or skip the last
  delegate; before it, the `CopyOnWriteArrayList` iterator keeps to its snapshot.
  In the model a delegate's call cannot change the composite, so neither effect is
  captured.
- Stateful listeners. Whether a call throws is given by `fails`, a function of the
  invocation alone (delegate, callback and argument). A delegate registered twice
  therefore either throws on both calls in one dispatch or on neither; a Java
  listener with state can return on its first call and throw on its second.
- Exceptions. A delegate that throws is represented by the `fails` predicate. The
  `Failed(index, listener)` outcome stands in for the exception that propagates.
  The exception object itself is not modelled.
- `null`. Java allows a `null` delegate, which throws `NullPointerException` when
  it is dispatched to. `setDelegates(null)` throws too. Dafny values are never
  null, so neither case is modelled.
- Listener behaviour. What real `ConnectionListener` implementations do is not
  modelled. `Connection` and `ShutdownSignalException` are opaque type parameters.
- Nesting. `CompositeConnectionListener` is itself a `ConnectionListener`, so a
  composite can be a delegate of another composite. In the model a delegate is an
  opaque identity, not a composite.
