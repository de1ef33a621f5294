/** A composite connection listener: an ordered, mutable list of delegate
    listeners, and fan-out of the three connection lifecycle callbacks
    (created, closed, shut down) to every delegate in list order.

    Listeners (L), connections (C) and shutdown signals (S) are opaque: a
    listener is known only by its identity, compared with `==` as Java's
    `equals` compares it; what a real listener does when called is
    represented only by the invocation it receives, recorded in `log`, and by
    whether that invocation fails (the `fails` parameter of each dispatch). */
module Connection {
  import opened Lists

  /** A lifecycle callback together with the argument it carries. */
  datatype Event<C, S> = Create(connection: C) | Close(connection: C) | ShutDown(signal: S)

  /** One call of one delegate's callback. */
  datatype Invocation<L, C, S> = Invocation(listener: L, event: Event<C, S>)

  /** How a dispatch ended: every delegate returned, or the delegate at `index`
      threw and its exception reached the caller. */
  datatype Outcome<L> = Completed | Failed(index: nat, listener: L)

  /** The invocations a dispatch of `e` makes when every delegate in `ls` returns:
      each delegate once, in list order, with the same argument. */
  function Fanout<L, C, S>(ls: seq<L>, e: Event<C, S>): (r: seq<Invocation<L, C, S>>)
    ensures |r| == |ls|
    ensures forall i :: 0 <= i < |ls| ==> r[i] == Invocation(ls[i], e)
  {
    if ls == [] then [] else [Invocation(ls[0], e)] + Fanout(ls[1..], e)
  }

  /** Fan-out distributes over concatenation of delegate lists. */
  lemma {:induction false} FanoutAppend<L, C, S>(a: seq<L>, b: seq<L>, e: Event<C, S>)
    ensures Fanout(a + b, e) == Fanout(a, e) + Fanout(b, e)
  {
    if a != [] {
      assert (a + b)[1..] == a[1..] + b;
      FanoutAppend(a[1..], b, e);
    }
  }

  /** Calling one more delegate extends the fan-out over a prefix by one invocation. */
  lemma FanoutExtend<L, C, S>(ls: seq<L>, i: nat, e: Event<C, S>)
    requires i < |ls|
    ensures Fanout(ls[..i + 1], e) == Fanout(ls[..i], e) + [Invocation(ls[i], e)]
  {
    assert ls[..i + 1] == ls[..i] + [ls[i]];
    FanoutAppend(ls[..i], [ls[i]], e);
  }

  /** The outcome of dispatching `e` to `ls` when `fails` tells which
      invocations throw: the first delegate that throws ends the dispatch. */
  function DispatchOutcome<L, C, S>(ls: seq<L>, e: Event<C, S>, fails: Invocation<L, C, S> -> bool): (r: Outcome<L>)
    ensures r.Completed? <==> forall i :: 0 <= i < |ls| ==> !fails(Invocation(ls[i], e))
    ensures r.Failed? ==> r.index < |ls| && r.listener == ls[r.index] && fails(Invocation(ls[r.index], e))
    ensures r.Failed? ==> forall j :: 0 <= j < r.index ==> !fails(Invocation(ls[j], e))
  {
    match FirstIndex(ls, l => fails(Invocation(l, e)))
    case None => Completed
    case Some(i) => Failed(i, ls[i])
  }

  /** The delegates a dispatch of `e` actually calls: a prefix of `ls` in which
      every delegate but the last returns, and which stops short of the whole
      list only because its last delegate threw. */
  function Invoked<L, C, S>(ls: seq<L>, e: Event<C, S>, fails: Invocation<L, C, S> -> bool): (r: seq<L>)
    ensures r <= ls
    ensures forall j :: 0 <= j < |r| - 1 ==> !fails(Invocation(r[j], e))
    ensures |r| < |ls| ==> r != [] && fails(Invocation(r[|r| - 1], e))
  {
    match DispatchOutcome(ls, e, fails)
    case Completed => ls
    case Failed(i, _) => ls[..i + 1]
  }

  /** When no delegate throws, a dispatch calls every delegate and completes. */
  lemma NoFailureInvokesAll<L, C, S>(ls: seq<L>, e: Event<C, S>, fails: Invocation<L, C, S> -> bool)
    requires forall i :: 0 <= i < |ls| ==> !fails(Invocation(ls[i], e))
    ensures DispatchOutcome(ls, e, fails) == Completed
    ensures Fanout(Invoked(ls, e, fails), e) == Fanout(ls, e)
  {
  }

  /** Fail-fast: when the delegate at index i throws, delegates 0..i have been
      called, the ones after i have not, and the exception names delegate i. */
  lemma FailFast<L, C, S>(ls: seq<L>, e: Event<C, S>, fails: Invocation<L, C, S> -> bool, i: nat)
    requires i < |ls| && fails(Invocation(ls[i], e))
    requires forall j :: 0 <= j < i ==> !fails(Invocation(ls[j], e))
    ensures DispatchOutcome(ls, e, fails) == Failed(i, ls[i])
    ensures Invoked(ls, e, fails) == ls[..i + 1]
  {
  }

  /** Dispatching to `a + b` is dispatching to `a` and then, only if all of `a`
      returned, to `b`. This is what a dispatch after addDelegate sees. */
  lemma {:induction false} DispatchAppend<L, C, S>(a: seq<L>, b: seq<L>, e: Event<C, S>, fails: Invocation<L, C, S> -> bool)
    ensures Invoked(a + b, e, fails)
         == if DispatchOutcome(a, e, fails).Completed? then a + Invoked(b, e, fails) else Invoked(a, e, fails)
    ensures DispatchOutcome(a + b, e, fails)
         == match DispatchOutcome(a, e, fails)
            case Failed(i, l) => Failed(i, l)
            case Completed =>
              match DispatchOutcome(b, e, fails)
              case Completed => Completed
              case Failed(i, l) => Failed(|a| + i, l)
  {
    var ab := a + b;
    match DispatchOutcome(a, e, fails)
    case Failed(i, l) =>
      assert ab[i] == a[i];
      FailFast(ab, e, fails, i);
      assert ab[..i + 1] == a[..i + 1];
    case Completed =>
      match DispatchOutcome(b, e, fails)
      case Completed =>
        assert forall k :: 0 <= k < |ab| ==> !fails(Invocation(ab[k], e)) by {
          forall k | 0 <= k < |ab| ensures !fails(Invocation(ab[k], e)) {
            if k >= |a| { assert ab[k] == b[k - |a|]; }
          }
        }
        assert ab[..|ab|] == ab;
      case Failed(i, l) =>
        assert ab[|a| + i] == b[i];
        forall k | 0 <= k < |a| + i ensures !fails(Invocation(ab[k], e)) {
          if k >= |a| { assert ab[k] == b[k - |a|]; }
        }
        FailFast(ab, e, fails, |a| + i);
        assert ab[..|a| + i + 1] == a + b[..i + 1];
  }

  /** The composite listener. `delegates` is the ordered delegate list; `log` is
      every delegate invocation made so far, in the order they were made. */
  class CompositeConnectionListener<L(==), C, S> {
    var delegates: seq<L>
    var log: seq<Invocation<L, C, S>>

    /** A new composite has no delegates and has called nobody. */
    constructor ()
      ensures delegates == [] && log == []
    {
      delegates := [];
      log := [];
    }

    /** Calls the callback of `e` on each delegate of a snapshot of the list, in
        order, until one throws; that exception is the dispatch's outcome. */
    method Dispatch(e: Event<C, S>, fails: Invocation<L, C, S> -> bool) returns (outcome: Outcome<L>)
      modifies this`log
      ensures delegates == old(delegates)
      ensures log == old(log) + Fanout(Invoked(delegates, e, fails), e)
      ensures outcome == DispatchOutcome(delegates, e, fails)
    {
      var snapshot := delegates;
      var i := 0;
      while i < |snapshot|
        invariant i <= |snapshot|
        invariant forall j :: 0 <= j < i ==> !fails(Invocation(snapshot[j], e))
        invariant log == old(log) + Fanout(snapshot[..i], e)
        invariant delegates == snapshot
      {
        var call := Invocation(snapshot[i], e);
        FanoutExtend(snapshot, i, e);
        log := log + [call];
        if fails(call) {
          FailFast(snapshot, e, fails, i);
          assert log == old(log) + Fanout(snapshot[..i + 1], e);
          return Failed(i, snapshot[i]);
        }
        i := i + 1;
      }
      assert snapshot[..i] == snapshot;
      NoFailureInvokesAll(snapshot, e, fails);
      return Completed;
    }

    /** onCreate: dispatches the creation of `connection` to every delegate. */
    method OnCreate(connection: C, fails: Invocation<L, C, S> -> bool) returns (outcome: Outcome<L>)
      modifies this`log
      ensures delegates == old(delegates)
      ensures log == old(log) + Fanout(Invoked(delegates, Create(connection), fails), Create(connection))
      ensures outcome == DispatchOutcome(delegates, Create(connection), fails)
    {
      outcome := Dispatch(Create(connection), fails);
    }

    /** onClose: dispatches the closing of `connection` to every delegate. */
    method OnClose(connection: C, fails: Invocation<L, C, S> -> bool) returns (outcome: Outcome<L>)
      modifies this`log
      ensures delegates == old(delegates)
      ensures log == old(log) + Fanout(Invoked(delegates, Close(connection), fails), Close(connection))
      ensures outcome == DispatchOutcome(delegates, Close(connection), fails)
    {
      outcome := Dispatch(Close(connection), fails);
    }

    /** onShutDown: dispatches the shutdown `signal` to every delegate. */
    method OnShutDown(signal: S, fails: Invocation<L, C, S> -> bool) returns (outcome: Outcome<L>)
      modifies this`log
      ensures delegates == old(delegates)
      ensures log == old(log) + Fanout(Invoked(delegates, ShutDown(signal), fails), ShutDown(signal))
      ensures outcome == DispatchOutcome(delegates, ShutDown(signal), fails)
    {
      outcome := Dispatch(ShutDown(signal), fails);
    }

    /** setDelegates: the list becomes a copy of the caller's mutable list `ls`,
        in the same order. The copy is taken when the call is made, so what the
        caller later writes into `ls` is not seen here. */
    method SetDelegates(ls: array<L>)
      modifies this`delegates
      ensures delegates == ls[..]
      ensures log == old(log)
    {
      delegates := ls[..];
    }

    /** addDelegate: appends `d`; a delegate already present is added again. */
    method AddDelegate(d: L)
      modifies this`delegates
      ensures delegates == old(delegates) + [d]
      ensures log == old(log)
    {
      delegates := delegates + [d];
    }

    /** removeDelegate: removes the first occurrence of `d` and reports whether
        there was one. */
    method RemoveDelegate(d: L) returns (removed: bool)
      modifies this`delegates
      ensures removed <==> d in old(delegates)
      ensures delegates == RemoveFirst(old(delegates), d)
      ensures log == old(log)
    {
      removed := IndexOf(delegates, d).Some?;
      delegates := RemoveFirst(delegates, d);
    }

    /** clearDelegates: empties the list. */
    method ClearDelegates()
      modifies this`delegates
      ensures delegates == []
      ensures log == old(log)
    {
      delegates := [];
    }
  }
}
