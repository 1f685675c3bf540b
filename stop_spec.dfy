/**
 * The in-place stop source of all.hpp as a state machine over values: the
 * stop flag, the registered callbacks (the intrusive list, head first) and
 * the callbacks that have run, in the order they ran. The imperative model
 * in module StopToken is proved to follow these functions step by step; the
 * lemmas here state what the source promises about them.
 */
module StopSpec {
  import TypeList

  datatype SourceState<C> = SourceState(stopRequested: bool, pending: seq<C>, log: seq<C>)

  /** A freshly constructed source. */
  function Initial<C>(): SourceState<C> {
    SourceState(false, [], [])
  }

  /** request_stop: the first call sets the flag and runs every registered
      callback, head first; the result is whether stop had already been
      requested. */
  function RequestStop<C>(s: SourceState<C>): (r: (SourceState<C>, bool))
    ensures r.0.stopRequested && r.1 == s.stopRequested
    ensures !s.stopRequested ==> r.0.pending == []
    ensures s.log <= r.0.log && |r.0.log| + |r.0.pending| == |s.log| + |s.pending|
  {
    if s.stopRequested then (s, true)
    else (SourceState(true, [], s.log + s.pending), false)
  }

  /** __try_add_callback_: pushes at the head unless stop was requested. */
  function TryAddCallback<C>(s: SourceState<C>, c: C): (r: (SourceState<C>, bool))
    ensures r.1 == !s.stopRequested
    ensures r.1 ==> r.0.pending == [c] + s.pending && r.0.log == s.log
    ensures !r.1 ==> r.0 == s
  {
    if s.stopRequested then (s, false)
    else (s.(pending := [c] + s.pending), true)
  }

  /** __register_callback_: when the node could not be added, the callback
      runs inline on the registering thread. */
  function RegisterCallback<C>(s: SourceState<C>, c: C): (r: SourceState<C>)
    ensures r.stopRequested == s.stopRequested
    ensures s.log <= r.log && |r.log| + |r.pending| == |s.log| + |s.pending| + 1
    ensures !s.stopRequested ==> r.pending == [c] + s.pending
    ensures s.stopRequested ==> r.pending == s.pending && r.log == s.log + [c]
  {
    var (s', added) := TryAddCallback(s, c);
    if added then s' else s'.(log := s'.log + [c])
  }

  /** __remove_callback_: a node still linked is unlinked; one already taken
      by request_stop is left alone. */
  function RemoveCallback<C(==)>(s: SourceState<C>, c: C): (r: SourceState<C>)
    ensures r.stopRequested == s.stopRequested && r.log == s.log
    ensures c !in r.pending
  {
    if c in s.pending then s.(pending := TypeList.Remove(s.pending, c)) else s
  }

  /** One public operation on a source: constructing a callback on one of its
      tokens, destroying a callback, or requesting stop. */
  datatype Op<C> = Register(c: C) | Deregister(c: C) | Request

  function Step<C(==)>(s: SourceState<C>, op: Op<C>): SourceState<C> {
    match op
    case Register(c) => RegisterCallback(s, c)
    case Deregister(c) => RemoveCallback(s, c)
    case Request => RequestStop(s).0
  }

  function Run<C(==)>(s: SourceState<C>, ops: seq<Op<C>>): SourceState<C>
    decreases |ops|
  {
    if ops == [] then s else Run(Step(s, ops[0]), ops[1..])
  }

  /** The callbacks that ops registers, in order. */
  function Registered<C>(ops: seq<Op<C>>): seq<C> {
    if ops == [] then []
    else (if ops[0].Register? then [ops[0].c] else []) + Registered(ops[1..])
  }

  /** Every callback the source knows of: pending or already run. */
  ghost function Seen<C>(s: SourceState<C>): multiset<C> {
    multiset(s.pending) + multiset(s.log)
  }

  ghost predicate AtMostOnce<C>(m: multiset<C>) {
    forall c | c in m :: m[c] <= 1
  }

  /** What holds between operations: no callback is pending twice, or both
      pending and run, or run twice; and once stop has been requested nothing
      is pending. */
  ghost predicate Inv<C>(s: SourceState<C>) {
    AtMostOnce(Seen(s)) && (s.stopRequested ==> s.pending == [])
  }

  lemma {:induction false} AtMostOnceNoDup<C>(s: seq<C>)
    requires AtMostOnce(multiset(s))
    ensures TypeList.NoDup(s)
  {
    forall i, j | 0 <= i < j < |s| ensures s[i] != s[j] {
      TwoPositions(s, i, j);
    }
  }

  lemma TwoPositions<C>(s: seq<C>, i: nat, j: nat)
    requires i < j < |s|
    ensures multiset(s)[s[i]] >= (if s[i] == s[j] then 2 else 1)
  {
    assert s == s[..j] + s[j..];
    assert multiset(s) == multiset(s[..j]) + multiset(s[j..]);
    assert s[..j][i] == s[i];
    assert s[j..][0] == s[j];
  }

  lemma InitialInv<C>()
    ensures Inv(Initial<C>())
  {
  }

  /** request_stop is idempotent: the first call on a source reports false and
      sets the flag; a second call reports true and changes nothing. */
  lemma RequestStopIdempotent<C>(s: SourceState<C>)
    ensures RequestStop(s).1 == s.stopRequested
    ensures RequestStop(s).0.stopRequested
    ensures RequestStop(RequestStop(s).0) == (RequestStop(s).0, true)
  {
  }

  /** Every callback pending when request_stop begins runs exactly once, the
      list is empty afterwards, and callbacks that had already run are not
      run again. */
  lemma {:induction false} RequestStopRunsEachOnce<C>(s: SourceState<C>, c: C)
    requires Inv(s) && !s.stopRequested && c in s.pending
    ensures RequestStop(s).0.pending == []
    ensures multiset(RequestStop(s).0.log)[c] == 1
    ensures Inv(RequestStop(s).0)
  {
    var s' := RequestStop(s).0;
    assert multiset(s'.log) == multiset(s.log) + multiset(s.pending);
    assert Seen(s') == Seen(s);
    assert Seen(s)[c] <= 1;
    assert multiset(s.pending)[c] >= 1;
  }

  /** Registering after stop was requested does not add to the list: the
      callback runs inline, once. */
  lemma LateRegistrationRunsInline<C>(s: SourceState<C>, c: C)
    requires s.stopRequested
    ensures RegisterCallback(s, c) == s.(log := s.log + [c])
    ensures !TryAddCallback(s, c).1
  {
  }

  /** Removing a callback that has not run unlinks exactly its node: the
      other pending callbacks keep their order and nothing runs. */
  lemma {:induction false} RemovePendingUnlinksOne<C>(s: SourceState<C>, k: nat)
    requires Inv(s) && k < |s.pending|
    ensures RemoveCallback(s, s.pending[k]).pending == s.pending[..k] + s.pending[k + 1..]
    ensures RemoveCallback(s, s.pending[k]).log == s.log
    ensures RemoveCallback(s, s.pending[k]).stopRequested == s.stopRequested
  {
    assert multiset(s.pending) <= Seen(s);
    assert AtMostOnce(multiset(s.pending)) by {
      forall c ensures multiset(s.pending)[c] <= 1 { assert Seen(s)[c] <= 1; }
    }
    AtMostOnceNoDup(s.pending);
    TypeList.RemoveUnique(s.pending, k);
  }

  /** Removing a callback that already ran (or never registered) changes
      nothing. */
  lemma RemoveTakenIsNoop<C>(s: SourceState<C>, c: C)
    requires c !in s.pending
    ensures RemoveCallback(s, c) == s
  {
  }

  lemma {:induction false} RemoveShrinks<C>(ts: seq<C>, c: C)
    ensures multiset(TypeList.Remove(ts, c)) <= multiset(ts)
  {
    if ts != [] {
      assert ts == [ts[0]] + ts[1..];
      TypeList.RemoveCons(ts[0], ts[1..], c);
      RemoveShrinks(ts[1..], c);
    }
  }

  /** One operation keeps the invariant, provided a registered callback is
      new to the source (each callback object registers once, in its
      constructor). */
  lemma {:induction false} StepKeepsInv<C>(s: SourceState<C>, op: Op<C>)
    requires Inv(s)
    requires op.Register? ==> AtMostOnce(Seen(s) + multiset{op.c})
    ensures Inv(Step(s, op))
    ensures op.Register? ==> Seen(Step(s, op)) == Seen(s) + multiset{op.c}
    ensures !op.Register? ==> Seen(Step(s, op)) <= Seen(s)
  {
    var s' := Step(s, op);
    match op
    case Register(c) =>
      assert Seen(s') == Seen(s) + multiset{c};
    case Deregister(c) =>
      RemoveShrinks(s.pending, c);
      assert Seen(s') <= Seen(s);
    case Request =>
      assert Seen(s') == Seen(s);
  }

  /** Over any sequence of operations in which every registered callback is
      new, the invariant holds throughout; in particular no callback ever runs
      more than once. */
  lemma {:induction false} RunKeepsInv<C>(s: SourceState<C>, ops: seq<Op<C>>)
    requires Inv(s)
    requires AtMostOnce(Seen(s) + multiset(Registered(ops)))
    ensures Inv(Run(s, ops))
    ensures forall c :: multiset(Run(s, ops).log)[c] <= 1
    decreases |ops|
  {
    if ops != [] {
      var op := ops[0];
      var s' := Step(s, op);
      var rest := Registered(ops[1..]);
      assert Registered(ops) == (if op.Register? then [op.c] else []) + rest;
      if op.Register? {
        assert multiset(Registered(ops)) == multiset{op.c} + multiset(rest);
        assert AtMostOnce(Seen(s) + multiset{op.c}) by {
          forall c ensures (Seen(s) + multiset{op.c})[c] <= 1 {
            assert (Seen(s) + multiset(Registered(ops)))[c] <= 1;
          }
        }
        StepKeepsInv(s, op);
        assert Seen(s') + multiset(rest) == Seen(s) + multiset(Registered(ops));
      } else {
        assert Registered(ops) == rest;
        StepKeepsInv(s, op);
        assert AtMostOnce(Seen(s') + multiset(rest)) by {
          forall c ensures (Seen(s') + multiset(rest))[c] <= 1 {
            assert (Seen(s) + multiset(Registered(ops)))[c] <= 1;
          }
        }
      }
      RunKeepsInv(s', ops[1..]);
    } else {
      forall c ensures multiset(s.log)[c] <= 1 { assert Seen(s)[c] <= 1; }
    }
  }

  /** stop_requested is sticky: no operation clears it. */
  lemma {:induction false} StopRequestedSticky<C>(s: SourceState<C>, ops: seq<Op<C>>)
    requires s.stopRequested
    ensures Run(s, ops).stopRequested
    decreases |ops|
  {
    if ops != [] {
      StopRequestedSticky(Step(s, ops[0]), ops[1..]);
    }
  }

  /** After any operation sequence that contains a request, stop is
      requested. */
  lemma {:induction false} RequestMakesStopped<C>(s: SourceState<C>, ops: seq<Op<C>>, k: nat)
    requires k < |ops| && ops[k] == Request
    ensures Run(s, ops).stopRequested
    decreases |ops|
  {
    if k == 0 {
      StopRequestedSticky(Step(s, ops[0]), ops[1..]);
    } else {
      RequestMakesStopped(Step(s, ops[0]), ops[1..], k - 1);
    }
  }

  /** The reference order: element i of the result is element |cs| - 1 - i
      of the input. */
  function Reversed<C>(cs: seq<C>): (r: seq<C>)
    ensures |r| == |cs|
    ensures forall i | 0 <= i < |cs| :: r[i] == cs[|cs| - 1 - i]
  {
    if cs == [] then [] else Reversed(cs[1..]) + [cs[0]]
  }

  function RegisterAll<C>(cs: seq<C>): seq<Op<C>> {
    seq(|cs|, i requires 0 <= i < |cs| => Register(cs[i]))
  }

  /** Registration pushes at the head, so callbacks registered in order
      c0, c1, ..., cn sit in the list newest first. */
  lemma {:induction false} RegisterAllPending<C>(s: SourceState<C>, cs: seq<C>)
    requires !s.stopRequested
    ensures Run(s, RegisterAll(cs)) == s.(pending := Reversed(cs) + s.pending)
    decreases |cs|
  {
    if cs != [] {
      var s' := Step(s, Register(cs[0]));
      assert RegisterAll(cs)[1..] == RegisterAll(cs[1..]);
      RegisterAllPending(s', cs[1..]);
      assert Reversed(cs) + s.pending == Reversed(cs[1..]) + ([cs[0]] + s.pending);
    }
  }

  /** ... and request_stop runs them newest first. */
  lemma RequestRunsNewestFirst<C>(cs: seq<C>)
    ensures Run(Initial(), RegisterAll(cs) + [Request]).log == Reversed(cs)
  {
    RegisterAllPending(Initial(), cs);
    RunAppend(Initial(), RegisterAll(cs), [Request]);
  }

  lemma {:induction false} RunAppend<C>(s: SourceState<C>, a: seq<Op<C>>, b: seq<Op<C>>)
    ensures Run(s, a + b) == Run(Run(s, a), b)
    decreases |a|
  {
    if a == [] {
      assert a + b == b;
    } else {
      assert (a + b)[0] == a[0] && (a + b)[1..] == a[1..] + b;
      RunAppend(Step(s, a[0]), a[1..], b);
    }
  }
}
