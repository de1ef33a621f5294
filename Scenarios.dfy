/** Clients of the composite listener that replay usage scenarios and
    show what a caller can conclude from the contracts of
    Connection.CompositeConnectionListener alone. */
module Scenarios {
  import opened Lists
  import opened Connection

  /** Delegates A, B, C registered in that order all receive onCreate(conn),
      in that order. */
  method NotifyInRegistrationOrder<L(==), C, S>(a: L, b: L, c: L, conn: C)
    returns (log: seq<Invocation<L, C, S>>, outcome: Outcome<L>)
    ensures outcome == Completed
    ensures log == [Invocation(a, Create(conn)), Invocation(b, Create(conn)), Invocation(c, Create(conn))]
  {
    var composite := new CompositeConnectionListener<L, C, S>();
    var quiet := (_: Invocation<L, C, S>) => false;
    composite.AddDelegate(a);
    composite.AddDelegate(b);
    composite.AddDelegate(c);
    outcome := composite.OnCreate(conn, quiet);
    NoFailureInvokesAll(composite.delegates, Create(conn), quiet);
    log := composite.log;
  }

  /** After registering A and B and removing A, onClose(conn) reaches only B. */
  method RemovedDelegateIsNotNotified<L(==), C, S>(a: L, b: L, conn: C)
    returns (removed: bool, log: seq<Invocation<L, C, S>>)
    ensures removed
    ensures log == [Invocation(b, Close(conn))]
  {
    var composite := new CompositeConnectionListener<L, C, S>();
    var quiet := (_: Invocation<L, C, S>) => false;
    composite.AddDelegate(a);
    composite.AddDelegate(b);
    removed := composite.RemoveDelegate(a);
    assert composite.delegates == [b] by {
      RemoveFirstAt([a, b], a, 0);
    }
    var outcome := composite.OnClose(conn, quiet);
    NoFailureInvokesAll(composite.delegates, Close(conn), quiet);
    log := composite.log;
  }

  /** Removing a delegate that was never registered reports false and leaves the
      list as it was. */
  method RemoveAbsentDelegate<L(==), C, S>(a: L, b: L)
    returns (removed: bool, delegates: seq<L>)
    requires a != b
    ensures !removed
    ensures delegates == [a]
  {
    var composite := new CompositeConnectionListener<L, C, S>();
    composite.AddDelegate(a);
    removed := composite.RemoveDelegate(b);
    delegates := composite.delegates;
  }

  /** A delegate registered twice is notified twice. */
  method DuplicateNotifiedTwice<L(==), C, S>(a: L, conn: C)
    returns (log: seq<Invocation<L, C, S>>)
    ensures log == [Invocation(a, Close(conn)), Invocation(a, Close(conn))]
  {
    var composite := new CompositeConnectionListener<L, C, S>();
    var quiet := (_: Invocation<L, C, S>) => false;
    composite.AddDelegate(a);
    composite.AddDelegate(a);
    var outcome := composite.OnClose(conn, quiet);
    NoFailureInvokesAll(composite.delegates, Close(conn), quiet);
    log := composite.log;
  }

  /** A, whose onShutDown throws, is registered before B: A is called, the
      exception reaches the caller and B is never called. */
  method FailingDelegateStopsDispatch<L(==), C, S>(a: L, b: L, signal: S)
    returns (log: seq<Invocation<L, C, S>>, outcome: Outcome<L>)
    ensures outcome == Failed(0, a)
    ensures log == [Invocation(a, ShutDown(signal))]
  {
    var composite := new CompositeConnectionListener<L, C, S>();
    composite.AddDelegate(a);
    composite.AddDelegate(b);
    var fails := (call: Invocation<L, C, S>) => call.listener == a && call.event.ShutDown?;
    outcome := composite.OnShutDown(signal, fails);
    FailFast(composite.delegates, ShutDown(signal), fails, 0);
    log := composite.log;
  }

  /** After clearDelegates a dispatch calls nobody and completes, whatever the
      delegates that were registered would have done. */
  method DispatchAfterClear<L(==), C, S>(composite: CompositeConnectionListener<L, C, S>, conn: C, fails: Invocation<L, C, S> -> bool)
    returns (outcome: Outcome<L>)
    modifies composite
    ensures composite.delegates == []
    ensures composite.log == old(composite.log)
    ensures outcome == Completed
  {
    composite.ClearDelegates();
    outcome := composite.OnCreate(conn, fails);
  }

  /** setDelegates stores a copy: the caller writing into its own list
      afterwards changes neither the delegates nor what the next dispatch
      reaches, which is exactly the list as it was given, in its order. */
  method SetDelegatesStoresCopy<L(==), C, S>(given: seq<L>, extra: L, conn: C)
    returns (callerList: seq<L>, delegates: seq<L>, log: seq<Invocation<L, C, S>>)
    ensures callerList == [extra] + (given + [extra])[1..]
    ensures delegates == given + [extra]
    ensures log == Fanout(given + [extra], Create(conn))
  {
    var composite := new CompositeConnectionListener<L, C, S>();
    var quiet := (_: Invocation<L, C, S>) => false;
    var initial := given + [extra];
    var caller := new L[|initial|](i requires 0 <= i < |initial| => initial[i]);
    composite.SetDelegates(caller);
    caller[0] := extra;
    callerList := caller[..];
    assert callerList == [extra] + initial[1..];
    var outcome := composite.OnCreate(conn, quiet);
    NoFailureInvokesAll(composite.delegates, Create(conn), quiet);
    delegates := composite.delegates;
    log := composite.log;
  }
}
