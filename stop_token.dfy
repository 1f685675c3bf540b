/**
 * The in-place stop facility of all.hpp: in_place_stop_source, its tokens,
 * in_place_stop_callback and never_stop_token, modelled sequentially.
 *
 * The source keeps the one-byte state with its two flags, the head of the
 * intrusive, doubly-linked callback list, and the id of the thread that ran
 * the callbacks. A node's `prevPtr` says where the pointer to it is stored:
 * in the source's `callbacks` field or in the `next` field of the node before
 * it. Running a callback appends its node to the ghost `Log` of the source;
 * a node built with `destroysSelf` also destroys itself from its own body.
 * Threads are identified by a number passed to the operations.
 */
module StopToken {
  import opened Wrappers
  import StopSpec
  import TypeList

  type ThreadId = nat

  const StopRequestedFlag: bv8 := 1
  const LockedFlag: bv8 := 2

  /** Where a node's __prev_ptr_ points. */
  datatype PrevLink = Null | HeadOf(source: Source) | NextOf(node: CallbackBase)

  /** The notifier's local `removed_during_callback`, which a node points to
      while its callback runs. */
  class RemovedFlag {
    var value: bool

    constructor ()
      ensures !value
    {
      value := false;
    }
  }

  /** __in_place_stop_callback_base */
  class CallbackBase {
    var source: Source?
    var next: CallbackBase?
    var prevPtr: PrevLink
    var removedDuringCallback: RemovedFlag?
    var callbackCompleted: bool
    /** What the callback's body does besides running: destroy this callback. */
    const destroysSelf: bool

    constructor (source: Source?, destroysSelf: bool)
      ensures this.source == source && this.destroysSelf == destroysSelf
      ensures next == null && prevPtr == Null
      ensures removedDuringCallback == null && !callbackCompleted
    {
      this.source := source;
      this.destroysSelf := destroysSelf;
      next := null;
      prevPtr := Null;
      removedDuringCallback := null;
      callbackCompleted := false;
    }

    /** __register_callback_: link into the source's list, or, when stop was
        already requested, forget the source and run the callback inline. */
    method RegisterCallback(thread: ThreadId)
      requires source != null ==> source.Valid() && this !in source.List
      requires prevPtr == Null && removedDuringCallback == null && !callbackCompleted
      modifies this, source, if source != null then source.List else []
      ensures old(source) != null ==> old(source).Valid()
      ensures old(source) != null ==>
        old(source).Abstract() == StopSpec.RegisterCallback(old(source.Abstract()), this)
      ensures source == (if old(source) != null && old(source.state) & StopRequestedFlag != 0 then null else old(source))
      ensures old(source) != null ==> old(source).notifyingThread == old(source.notifyingThread)
      ensures removedDuringCallback == null && !callbackCompleted
    {
      if source != null {
        var src := source;
        var added := src.TryAddCallback(this);
        if !added {
          source := null;
          src.Execute(this, thread);
        } else {
          assert src.LinkedAt(src.List, 0);
        }
      }
    }

    /** ~in_place_stop_callback: deregister unless the callback ran inline. */
    method Destroy(thread: ThreadId)
      requires source != null ==> source.Valid() && (this in source.List || prevPtr == Null)
      modifies source, if source != null then source.List else [], removedDuringCallback
      ensures source == old(source) && unchanged(this)
      ensures source != null ==> source.Valid()
      ensures source != null ==> source.Abstract() == StopSpec.RemoveCallback(old(source.Abstract()), this)
      ensures source != null ==> source.notifyingThread == old(source.notifyingThread)
      ensures source != null && old(prevPtr) == Null ==> source.state == old(source.state) && source.callbacks == old(source.callbacks)
      ensures removedDuringCallback != null ==>
        removedDuringCallback.value ==
          (old(removedDuringCallback.value) || (source != null && prevPtr == Null && source.notifyingThread == Some(thread)))
    {
      if source != null {
        source.RemoveCallback(this, thread);
      }
    }
  }

  class Source {
    var state: bv8
    var callbacks: CallbackBase?
    var notifyingThread: Option<ThreadId>
    /** The nodes reachable from `callbacks`, head first. */
    ghost var List: seq<CallbackBase>
    /** The callbacks run on behalf of this source, in order. */
    ghost var Log: seq<CallbackBase>

    /** The intrusive list: `callbacks` and the nodes' `next` fields run
        through List, every `prevPtr` points at the pointer to its node, and
        no node in the list has run. */
    ghost predicate Linked()
      reads this`callbacks, this`List, List
    {
      && callbacks == (if List == [] then null else List[0])
      && TypeList.NoDup(List)
      && (forall i | 0 <= i < |List| :: LinkedAt(List, i))
    }

    /** The node at position i of the list belongs to this source, is linked
        to its neighbours, and has not run. */
    ghost predicate LinkedAt(list: seq<CallbackBase>, i: int)
      requires 0 <= i < |list|
      reads list[i]
    {
      var c := list[i];
      && c.source == this
      && c.next == NextAt(list, i)
      && c.prevPtr == PrevAt(this, list, i)
      && !c.callbackCompleted
      && c.removedDuringCallback == null
    }

    /** Between operations the lock is free and only the two flags are used. */
    ghost predicate Valid()
      reads this`state, this`callbacks, this`List, List
    {
      (state == 0 || state == StopRequestedFlag) && Linked()
    }

    ghost function Abstract(): StopSpec.SourceState<CallbackBase>
      reads this
    {
      StopSpec.SourceState(state & StopRequestedFlag != 0, List, Log)
    }

    constructor ()
      ensures Valid() && Abstract() == StopSpec.Initial()
      ensures notifyingThread == None
    {
      state := 0;
      callbacks := null;
      notifyingThread := None;
      List := [];
      Log := [];
    }

    /** ~in_place_stop_source: the lock must be free and no callback may still
        be registered. */
    method Destroy()
      requires Valid()
      requires state & LockedFlag == 0 && callbacks == null
      ensures Abstract().pending == []
    {
    }

    function GetToken(): (t: Token)
      ensures t.source == this && t.StopPossible()
    {
      Token(this)
    }

    function StopRequested(): (r: bool)
      reads this
      ensures r == Abstract().stopRequested
    {
      state & StopRequestedFlag != 0
    }

    /** __lock_: sets the locked flag and returns the state it replaced. (The
        spin wait while another thread holds the lock is not modelled: a
        sequential caller finds it free.) */
    method Lock() returns (oldState: bv8)
      requires state & LockedFlag == 0
      modifies this`state
      ensures oldState == old(state) && state == old(state) | LockedFlag
    {
      oldState := state;
      state := oldState | LockedFlag;
    }

    /** __unlock_: stores the given state, the one the lock was taken from. */
    method Unlock(oldState: bv8)
      modifies this`state
      ensures state == oldState
    {
      state := oldState;
    }

    /** __try_lock_unless_stop_requested_: fails when stop was requested;
        otherwise takes the lock, setting stop_requested at the same time when
        asked to. */
    method TryLockUnlessStopRequested(setStopRequested: bool) returns (locked: bool)
      requires state == 0 || state & StopRequestedFlag != 0
      modifies this`state
      ensures locked == (old(state) & StopRequestedFlag == 0)
      ensures !locked ==> state == old(state)
      ensures locked ==> state == if setStopRequested then LockedFlag | StopRequestedFlag else LockedFlag
    {
      if state & StopRequestedFlag != 0 {
        return false;
      }
      state := if setStopRequested then LockedFlag | StopRequestedFlag else LockedFlag;
      return true;
    }

    /** __try_add_callback_: pushes the node at the head of the list unless
        stop was requested. */
    method TryAddCallback(cb: CallbackBase) returns (added: bool)
      requires Valid()
      requires cb.source == this && cb !in List
      requires !cb.callbackCompleted && cb.removedDuringCallback == null
      modifies this, List, cb
      ensures Valid()
      ensures (Abstract(), added) == StopSpec.TryAddCallback(old(Abstract()), cb)
      ensures notifyingThread == old(notifyingThread)
      ensures !added ==> unchanged(this, cb)
      ensures cb.source == this
    {
      added := TryLockUnlessStopRequested(false);
      if !added {
        return;
      }
      PushFront(cb);
      Unlock(0);
    }

    /** The list surgery of __try_add_callback_, done under the lock: the
        node becomes the head. */
    method PushFront(cb: CallbackBase)
      requires Linked() && cb.source == this && cb !in List
      requires !cb.callbackCompleted && cb.removedDuringCallback == null
      modifies this`callbacks, this`List, cb`next, cb`prevPtr, List
      ensures Linked() && List == [cb] + old(List)
      ensures cb.source == this
    {
      ghost var L := List;
      if L != [] {
        assert LinkedAt(L, 0);
      }
      cb.next := callbacks;
      cb.prevPtr := HeadOf(this);
      if callbacks != null {
        callbacks.prevPtr := NextOf(cb);
      }
      callbacks := cb;
      List := [cb] + L;
      forall i | 0 <= i < |List| ensures LinkedAt(List, i) {
        if i == 1 {
          assert List[1] == L[0];
          assert old(LinkedAt(L, 0));
        } else if i > 1 {
          assert List[i] == L[i - 1] && L[i - 1] != cb && L[i - 1] != L[0];
          assert old(LinkedAt(L, i - 1));
        }
      }
      forall i, j | 0 <= i < j < |List| ensures List[i] != List[j] {
        assert List[j] == L[j - 1];
        if i > 0 { assert List[i] == L[i - 1]; }
      }
    }

    /** __remove_callback_: a node still linked (non-null prevPtr) is unlinked.
        Otherwise request_stop has taken it: on the notifying thread the
        callback is being destroyed from its own body, which the notifier
        learns through removed_during_callback. */
    method RemoveCallback(cb: CallbackBase, thread: ThreadId)
      requires Valid()
      requires cb in List || cb.prevPtr == Null
      modifies this, List, cb.removedDuringCallback
      ensures Valid()
      ensures Abstract() == StopSpec.RemoveCallback(old(Abstract()), cb)
      ensures notifyingThread == old(notifyingThread) && unchanged(cb)
      ensures old(cb.prevPtr) == Null ==> state == old(state) && callbacks == old(callbacks)
      ensures cb.removedDuringCallback != null ==>
        cb.removedDuringCallback.value ==
          (old(cb.removedDuringCallback.value) || (cb.prevPtr == Null && notifyingThread == Some(thread)))
    {
      ghost var L := List;
      ghost var k: nat := 0;
      if cb in L {
        k := IndexOf(L, cb);
        assert LinkedAt(L, k);
      }
      var oldState := Lock();
      if cb.prevPtr != Null {
        // Not run yet: unlink the node.
        Unlink(cb, k);
        TypeList.RemoveUnique(L, k);
        Unlock(oldState);
      } else {
        // Taken by request_stop: running now or already run.
        var notifier := notifyingThread;
        Unlock(oldState);
        if notifier == Some(thread) {
          if cb.removedDuringCallback != null {
            cb.removedDuringCallback.value := true;
          }
        }
      }
    }

    /** The list surgery of __remove_callback_, done under the lock: the
        pointer to the node, found through its prevPtr, is redirected to its
        successor, whose prevPtr takes over the node's. */
    method Unlink(cb: CallbackBase, ghost k: nat)
      requires Linked() && k < |List| && List[k] == cb
      modifies this`callbacks, this`List, List
      ensures Linked() && List == old(List[..k] + List[k + 1..])
      ensures unchanged(cb)
    {
      ghost var L := List;
      assert LinkedAt(L, k);
      if k > 0 {
        assert LinkedAt(L, k - 1);
      }
      if k + 1 < |L| {
        assert LinkedAt(L, k + 1);
      }
      match cb.prevPtr {
        case HeadOf(src) => src.callbacks := cb.next;
        case NextOf(p) => p.next := cb.next;
      }
      if cb.next != null {
        cb.next.prevPtr := cb.prevPtr;
      }
      List := L[..k] + L[k + 1..];
      forall i | 0 <= i < |List| ensures LinkedAt(List, i) {
        if i < k {
          assert List[i] == L[i] && L[i] != L[k];
          if k + 1 < |L| { assert L[i] != L[k + 1]; }
          assert old(LinkedAt(L, i));
        } else {
          assert List[i] == L[i + 1] && L[i + 1] != L[k];
          if k > 0 { assert L[i + 1] != L[k - 1]; }
          assert old(LinkedAt(L, i + 1));
          if i > k { assert List[i - 1] == L[i]; }
        }
      }
      forall i, j | 0 <= i < j < |List| ensures List[i] != List[j] {
        var i' := if i < k then i else i + 1;
        var j' := if j < k then j else j + 1;
        assert List[i] == L[i'] && List[j] == L[j'];
      }
    }

    /** request_stop: only the first call does anything. It sets
        stop_requested together with the lock, records the notifying thread,
        then takes the head node off the list, releases the lock, runs the
        callback and takes the lock again, until the list is empty; the last
        store leaves stop_requested set and the lock free. The result is
        whether stop had already been requested. */
    method RequestStop(thread: ThreadId) returns (alreadyRequested: bool)
      requires Valid()
      modifies this, List
      ensures Valid()
      ensures (Abstract(), alreadyRequested) == StopSpec.RequestStop(old(Abstract()))
      ensures state == StopRequestedFlag
      ensures alreadyRequested ==> unchanged(this) && unchanged(List)
      ensures !alreadyRequested ==> notifyingThread == Some(thread) && callbacks == null
      ensures !alreadyRequested ==> forall i | 0 <= i < |old(List)| :: Drained(old(List)[i], this)
    {
      var locked := TryLockUnlessStopRequested(true);
      if !locked {
        return true;
      }
      notifyingThread := Some(thread);
      ghost var L0 := List;
      ghost var log0 := Log;
      ghost var k := 0;
      while callbacks != null
        invariant 0 <= k <= |L0| && List == L0[k..]
        invariant Log == log0 + L0[..k]
        invariant state == LockedFlag | StopRequestedFlag
        invariant Linked()
        invariant notifyingThread == Some(thread)
        invariant forall i | 0 <= i < k :: L0[i] !in List && Drained(L0[i], this)
        decreases |List|
      {
        var callbk := RunHead(thread);
        k := k + 1;
        assert L0[..k] == L0[..k - 1] + [callbk];
      }
      assert L0[..k] == L0;
      state := StopRequestedFlag;
      return false;
    }

    /** One round of the drain loop of request_stop: the head node is taken
        off the list under the lock, the lock is released with
        stop_requested left set, the callback runs with its
        removed_during_callback pointing at a local flag, and unless the
        body destroyed the callback, the pointer is cleared and
        callback_completed set; then the lock is taken again. */
    method RunHead(thread: ThreadId) returns (callbk: CallbackBase)
      requires Linked() && callbacks != null
      requires state == LockedFlag | StopRequestedFlag && notifyingThread == Some(thread)
      modifies this, List
      ensures Linked() && state == LockedFlag | StopRequestedFlag
      ensures notifyingThread == Some(thread)
      ensures callbk == old(List[0]) && List == old(List[1..])
      ensures Log == old(Log) + [callbk] && Drained(callbk, this)
    {
      callbk := PopFront();
      state := StopRequestedFlag;
      var removedDuringCallback := new RemovedFlag();
      callbk.removedDuringCallback := removedDuringCallback;
      Execute(callbk, thread);
      if !removedDuringCallback.value {
        callbk.removedDuringCallback := null;
        callbk.callbackCompleted := true;
      }
      var _ := Lock();
    }

    /** The list surgery of one round of the drain loop, done under the lock:
        the head node is taken off the list and its prevPtr cleared, the mark
        by which __remove_callback_ knows it was taken. */
    method PopFront() returns (callbk: CallbackBase)
      requires Linked() && callbacks != null
      modifies this`callbacks, this`List, List
      ensures Linked() && callbk == old(List[0]) && List == old(List[1..])
      ensures callbk.prevPtr == Null && callbk.source == this
      ensures !callbk.callbackCompleted && callbk.removedDuringCallback == null
    {
      ghost var L := List;
      assert LinkedAt(L, 0);
      callbk := callbacks;
      callbk.prevPtr := Null;
      callbacks := callbk.next;
      if callbacks != null {
        assert LinkedAt(L, 1);
        callbacks.prevPtr := HeadOf(this);
      }
      List := L[1..];
      forall i | 0 <= i < |List| ensures LinkedAt(List, i) {
        assert List[i] == L[i + 1] && L[i + 1] != L[0];
        assert old(LinkedAt(L, i + 1));
        if i > 0 { assert List[i - 1] == L[i]; }
      }
    }

    /** Runs a callback's body: the run is logged, and a self-destroying body
        then runs the callback's destructor. */
    method Execute(cb: CallbackBase, thread: ThreadId)
      requires Valid()
      requires cb.prevPtr == Null && (cb.source == this || cb.source == null)
      modifies this, List, cb.removedDuringCallback
      ensures Valid()
      ensures Abstract() == old(Abstract()).(log := old(Log) + [cb])
      ensures state == old(state) && callbacks == old(callbacks)
      ensures notifyingThread == old(notifyingThread) && unchanged(cb)
      ensures cb.removedDuringCallback != null ==>
        cb.removedDuringCallback.value ==
          (old(cb.removedDuringCallback.value) || (cb.destroysSelf && cb.source == this && notifyingThread == Some(thread)))
    {
      if cb in List {
        assert LinkedAt(List, IndexOf(List, cb));
      }
      Log := Log + [cb];
      if cb.destroysSelf {
        cb.Destroy(thread);
      }
    }
  }

  /** A node request_stop has taken off the list and run: it still points at
      its source, its prevPtr is null, and unless its body destroyed it, the
      notifier cleared its removed_during_callback pointer and set
      callback_completed. */
  ghost predicate Drained(c: CallbackBase, source: Source)
    reads c
  {
    && c.source == source
    && c.prevPtr == Null
    && (c.callbackCompleted <==> !c.destroysSelf)
    && (!c.destroysSelf ==> c.removedDuringCallback == null)
  }

  /** What the `next` field of the node at position i of a list holds. */
  function NextAt(list: seq<CallbackBase>, i: int): CallbackBase?
    requires 0 <= i < |list|
  {
    if i + 1 < |list| then list[i + 1] else null
  }

  /** What the `prevPtr` field of the node at position i of a source's list
      holds: the address of the source's head pointer, or of the previous
      node's `next`. */
  function PrevAt(source: Source, list: seq<CallbackBase>, i: int): PrevLink
    requires 0 <= i < |list|
  {
    if i == 0 then HeadOf(source) else NextOf(list[i - 1])
  }

  /** The position of x in a list where it occurs. */
  ghost function IndexOf<T>(s: seq<T>, x: T): (k: nat)
    requires x in s
    ensures k < |s| && s[k] == x
  {
    if s[0] == x then 0 else 1 + IndexOf(s[1..], x)
  }

  /** in_place_stop_token: a nullable, non-owning pointer to a source. */
  datatype Token = Token(source: Source?) {
    /** stop_possible: whether the token has a source at all; only the
        token without one (the default) answers false. */
    predicate StopPossible()
      ensures StopPossible() <==> this != Token(null)
    {
      source != null
    }

    /** stop_requested: whether the token's source has had stop requested. */
    predicate StopRequested()
      reads source
      ensures StopRequested() <==> StopPossible() && source.Abstract().stopRequested
    {
      source != null && source.StopRequested()
    }

    /** Move construction and move assignment: the source goes to the new
        token and the moved-from token is left without one. */
    function Moved(): (r: (Token, Token))
      ensures r.0.source == source && !r.1.StopPossible()
    {
      (this, Token(null))
    }

    /** swap: the two tokens exchange sources. */
    function Swap(other: Token): (r: (Token, Token))
      ensures r.0.source == other.source && r.1.source == source
    {
      (other, this)
    }
  }

  /** The default-constructed in_place_stop_token has no source. */
  function DefaultToken(): (t: Token)
    ensures !t.StopPossible() && !t.StopRequested()
  {
    Token(null)
  }

  /** Swapping twice gives back both tokens. */
  lemma SwapTwice(a: Token, b: Token)
    ensures a.Swap(b).0.Swap(a.Swap(b).1) == (a, b)
  {
  }

  /** A token from get_token reports its source's stop state. */
  lemma TokenTracksSource(src: Source)
    ensures src.GetToken().StopPossible()
    ensures src.GetToken().StopRequested() == src.StopRequested()
  {
  }

  /** never_stop_token: stop can never be requested and is never possible;
      all such tokens compare equal. */
  datatype NeverStopToken = NeverStopToken {
    function StopRequested(): (r: bool)
      ensures !r
    {
      false
    }

    function StopPossible(): (r: bool)
      ensures !r
    {
      false
    }
  }

  lemma NeverStopTokensEqual(a: NeverStopToken, b: NeverStopToken)
    ensures a == b
  {
  }

  /** The in_place_stop_callback constructor: a node for the token's source
      (none for a token without one), registered at once; it runs inline
      when stop was already requested. */
  method NewStopCallback(token: Token, destroysSelf: bool, thread: ThreadId) returns (cb: CallbackBase)
    requires token.source != null ==> token.source.Valid()
    modifies token.source, if token.source != null then token.source.List else []
    ensures fresh(cb) && cb.destroysSelf == destroysSelf
    ensures cb.removedDuringCallback == null && !cb.callbackCompleted
    ensures token.source != null ==> token.source.Valid()
    ensures token.source != null ==>
      token.source.Abstract() == StopSpec.RegisterCallback(old(token.source.Abstract()), cb)
    ensures token.source != null ==> token.source.notifyingThread == old(token.source.notifyingThread)
    ensures cb.source == if token.source != null && !old(token.source.StopRequested()) then token.source else null
    ensures cb.source != null ==> token.source.List == [cb] + old(token.source.List)
  {
    cb := new CallbackBase(token.source, destroysSelf);
    cb.RegisterCallback(thread);
  }

  /** Two callbacks registered on a new source run newest first when stop
      is requested, and both are marked completed; a second request_stop
      reports that stop was already requested; a callback registered after
      that runs inline, at once, and forgets its source. */
  method StopScenario(thread: ThreadId) returns (src: Source, a: CallbackBase, b: CallbackBase, late: CallbackBase, first: bool, again: bool)
    ensures !first && again && src.StopRequested() && src.callbacks == null
    ensures src.Log == [b, a, late]
    ensures a.callbackCompleted && b.callbackCompleted && !late.callbackCompleted
    ensures a.source == src && late.source == null
  {
    src := new Source();
    var token := src.GetToken();
    a := NewStopCallback(token, false, thread);
    b := NewStopCallback(token, false, thread);
    ghost var pending := src.List;
    assert pending == [b, a];
    first := src.RequestStop(thread);
    assert Drained(pending[0], src) && Drained(pending[1], src);
    again := src.RequestStop(thread);
    late := NewStopCallback(token, false, thread);
  }

  /** A callback destroyed before stop is requested never runs; the one left
      registered does. */
  method DeregisterScenario(thread: ThreadId) returns (src: Source, a: CallbackBase, b: CallbackBase)
    ensures src.Log == [a] && src.callbacks == null && src.StopRequested()
    ensures a.callbackCompleted && !b.callbackCompleted
  {
    src := new Source();
    var token := src.GetToken();
    a := NewStopCallback(token, false, thread);
    b := NewStopCallback(token, false, thread);
    assert src.List == [b, a] && src.Log == [] && !src.StopRequested();
    assert TypeList.Remove([b, a], b) == [a] by {
      TypeList.RemoveUnique([b, a], 0);
    }
    b.Destroy(thread);
    assert src.List == [a] && src.Log == [];
    var _ := src.RequestStop(thread);
    assert Drained(a, src);
  }

  /** A callback whose body destroys it: request_stop sees the local flag
      set and leaves callback_completed unset. */
  method SelfDestroyScenario(thread: ThreadId) returns (src: Source, cb: CallbackBase)
    ensures src.Log == [cb] && src.callbacks == null && src.StopRequested()
    ensures !cb.callbackCompleted && cb.prevPtr == Null && cb.source == src
  {
    src := new Source();
    var token := src.GetToken();
    cb := NewStopCallback(token, true, thread);
    var _ := src.RequestStop(thread);
  }
}
