/**
 * The type-list combinators of all.hpp (the `__types<...>` metaprogramming
 * utilities), read as functions over sequences. A C++ type list
 * `__types<A, B, C>` is a `seq<T>`; `is_same` is `==`; a metafunction
 * argument `_Fn` is a Dafny function value.
 */
module TypeList {
  import opened Wrappers

  /** No element occurs twice. */
  ghost predicate NoDup<T>(s: seq<T>) {
    forall i, j | 0 <= i < j < |s| :: s[i] != s[j]
  }

  // ---------------------------------------------------------------------
  // __concat: flattens a list of lists into one list

  /** No lists give the empty list, one list is passed through, and every
      list's elements all appear in the result. */
  function Concat<T>(ls: seq<seq<T>>): (r: seq<T>)
    ensures ls == [] ==> r == []
    ensures |ls| == 1 ==> r == ls[0]
    ensures forall i | 0 <= i < |ls| :: |ls[i]| <= |r|
  {
    if ls == [] then []
    else
      var rest := Concat(ls[1..]);
      assert forall i | 1 <= i < |ls| :: ls[i] == ls[1..][i - 1];
      ls[0] + rest
  }

  lemma {:induction false} ConcatAppend<T>(a: seq<seq<T>>, b: seq<seq<T>>)
    ensures Concat(a + b) == Concat(a) + Concat(b)
  {
    if a == [] {
      assert a + b == b;
    } else {
      assert (a + b)[1..] == a[1..] + b;
      ConcatAppend(a[1..], b);
    }
  }

  lemma {:induction false} ConcatMember<T>(ls: seq<seq<T>>, x: T)
    ensures x in Concat(ls) <==> exists i :: 0 <= i < |ls| && x in ls[i]
  {
    if ls != [] {
      ConcatMember(ls[1..], x);
      if x in Concat(ls[1..]) {
        var i :| 0 <= i < |ls[1..]| && x in ls[1..][i];
        assert x in ls[i + 1];
      }
      if exists i :: 0 <= i < |ls| && x in ls[i] {
        var i :| 0 <= i < |ls| && x in ls[i];
        if i > 0 { assert x in ls[1..][i - 1]; }
      }
    }
  }

  // ---------------------------------------------------------------------
  // __right_fold: despite its name, applies `f` to the state and the HEAD
  // first, i.e. Fold(s, f, [a, b]) == f(f(s, a), b)

  function Fold<S, T>(init: S, f: (S, T) -> S, ts: seq<T>): (r: S)
    ensures ts == [] ==> r == init
    ensures |ts| == 1 ==> r == f(init, ts[0])
  {
    if ts == [] then init else Fold(f(init, ts[0]), f, ts[1..])
  }

  lemma {:induction false} FoldSnoc<S, T>(init: S, f: (S, T) -> S, ts: seq<T>, t: T)
    ensures Fold(init, f, ts + [t]) == f(Fold(init, f, ts), t)
  {
    if ts != [] {
      assert (ts + [t])[1..] == ts[1..] + [t];
      FoldSnoc(f(init, ts[0]), f, ts[1..], t);
    }
  }

  // ---------------------------------------------------------------------
  // __contains<T>: a fold of `||` over `is_same<T, Args>`

  function Contains<T(==)>(ts: seq<T>, x: T): (r: bool)
    ensures r <==> x in ts
  {
    if ts == [] then false else ts[0] == x || Contains(ts[1..], x)
  }

  // ---------------------------------------------------------------------
  // __mcount and __mcount_if<Fn>: a fold of `+` over `bool(Fn<T>::value)`

  /** sizeof...: the number of elements, counted with repetition. */
  function MCount<T>(ts: seq<T>): (n: nat)
    ensures n == |multiset(ts)|
    ensures n == 0 <==> ts == []
  {
    |ts|
  }

  /** The count of the elements that satisfy p. For the empty list this is
      0; the unary fold __mcount_if is written with has no value there (see
      MCountIfAsWritten). */
  function MCountIf<T>(p: T -> bool, ts: seq<T>): (n: nat)
    ensures n <= MCount(ts)
    ensures n == MCount(ts) <==> forall i | 0 <= i < |ts| :: p(ts[i])
    ensures n == 0 <==> forall i | 0 <= i < |ts| :: !p(ts[i])
  {
    if ts == [] then 0
    else
      var rest := MCountIf(p, ts[1..]);
      assert forall i | 1 <= i < |ts| :: ts[i] == ts[1..][i - 1];
      (if p(ts[0]) then 1 else 0) + rest
  }

  /** __mcount_if as written: the unary fold `(b0 + ... + bn)` over the
      elements' truth values, which is ill-formed (None here) for an empty
      pack. */
  function MCountIfAsWritten<T>(p: T -> bool, ts: seq<T>): (r: Option<nat>)
    ensures r.None? <==> ts == []
    ensures r.Some? ==> r.value == MCountIf(p, ts)
  {
    if ts == [] then None
    else if |ts| == 1 then Some(if p(ts[0]) then 1 else 0)
    else Some((if p(ts[0]) then 1 else 0) + MCountIfAsWritten(p, ts[1..]).value)
  }

  /** The discrepancy: counting over an empty pack gives no type as written,
      where the count 0 is meant. */
  lemma MCountIfEmptyPack<T>(p: T -> bool)
    ensures MCountIfAsWritten(p, []) == None
    ensures MCountIf(p, []) == 0
  {
  }

  lemma {:induction false} MCountIfAppend<T>(p: T -> bool, a: seq<T>, b: seq<T>)
    ensures MCountIf(p, a + b) == MCountIf(p, a) + MCountIf(p, b)
  {
    if a == [] {
      assert a + b == b;
    } else {
      assert (a + b)[0] == a[0] && (a + b)[1..] == a[1..] + b;
      MCountIfAppend(p, a[1..], b);
    }
  }

  /** Counting the elements equal to `x` gives x's multiplicity; it is
      positive exactly when __contains<x> holds. */
  lemma {:induction false} MCountIfSame<T>(ts: seq<T>, x: T)
    ensures MCountIf(y => y == x, ts) == multiset(ts)[x]
    ensures MCountIf(y => y == x, ts) > 0 <==> Contains(ts, x)
  {
    if ts != [] {
      MCountIfSame(ts[1..], x);
      assert ts == [ts[0]] + ts[1..];
      assert multiset(ts) == multiset([ts[0]]) + multiset(ts[1..]);
    }
  }

  // ---------------------------------------------------------------------
  // __push_back and __push_back_unique

  function PushBack<T>(list: seq<T>, item: T): (r: seq<T>)
    ensures |r| == |list| + 1 && r[..|list|] == list && r[|list|] == item
  {
    list + [item]
  }

  function PushBackUnique<T(==)>(list: seq<T>, item: T): (r: seq<T>)
    ensures item in list ==> r == list
    ensures item !in list ==> r == list + [item]
  {
    if Contains(list, item) then list else PushBack(list, item)
  }

  lemma PushBackUniqueKeepsNoDup<T>(list: seq<T>, item: T)
    requires NoDup(list)
    ensures NoDup(PushBackUnique(list, item))
    ensures item in PushBackUnique(list, item)
    ensures forall x :: x in PushBackUnique(list, item) <==> x in list || x == item
  {
  }

  // ---------------------------------------------------------------------
  // __munique: the fold of __push_back_unique from the empty list

  /** The first occurrence of each element, in input order: no duplicates
      and the same elements as the input. */
  function MUnique<T(==)>(ts: seq<T>): (r: seq<T>)
    ensures r == FirstOccurrences(ts)
    ensures NoDup(r)
    ensures forall x | x in r :: x in ts
    ensures forall x | x in ts :: x in r
  {
    UniqueFoldIsFirstOccurrences(ts);
    Fold([], PushBackUnique, ts)
  }

  /** Reference definition: position i is kept exactly when ts[i] does not
      occur before position i. */
  function FirstOccurrencePieces<T(==)>(ts: seq<T>): (r: seq<seq<T>>)
    ensures |r| == |ts|
  {
    seq(|ts|, i requires 0 <= i < |ts| => if ts[i] in ts[..i] then [] else [ts[i]])
  }

  function FirstOccurrences<T(==)>(ts: seq<T>): seq<T> {
    Concat(FirstOccurrencePieces(ts))
  }

  lemma FirstOccurrencesSnoc<T>(ts: seq<T>, t: T)
    ensures FirstOccurrences(ts + [t]) == FirstOccurrences(ts) + (if t in ts then [] else [t])
  {
    var ts' := ts + [t];
    assert ts'[..|ts|] == ts;
    assert FirstOccurrencePieces(ts') == FirstOccurrencePieces(ts) + [if t in ts then [] else [t]] by {
      forall i | 0 <= i < |ts|
        ensures FirstOccurrencePieces(ts')[i] == FirstOccurrencePieces(ts)[i]
      {
        assert ts'[..i] == ts[..i];
      }
    }
    ConcatAppend(FirstOccurrencePieces(ts), [if t in ts then [] else [t]]);
  }

  /** The fold of __push_back_unique from the empty list keeps exactly the
      first occurrence of every element, in input order; hence it has the
      same elements as its input and no duplicates. */
  lemma {:induction false} UniqueFoldIsFirstOccurrences<T>(ts: seq<T>)
    ensures Fold([], PushBackUnique, ts) == FirstOccurrences(ts)
    ensures NoDup(Fold([], PushBackUnique, ts))
    ensures forall x | x in Fold([], PushBackUnique, ts) :: x in ts
    ensures forall x | x in ts :: x in Fold([], PushBackUnique, ts)
    decreases |ts|
  {
    if ts == [] {
    } else {
      var init, t := ts[..|ts| - 1], ts[|ts| - 1];
      assert ts == init + [t];
      UniqueFoldIsFirstOccurrences(init);
      FoldSnoc([], PushBackUnique, init, t);
      FirstOccurrencesSnoc(init, t);
      PushBackUniqueKeepsNoDup(Fold([], PushBackUnique, init), t);
    }
  }

  // ---------------------------------------------------------------------
  // __replace<Old, New>: substitutes New for every Old

  function Replace<T(==)>(ts: seq<T>, old_: T, new_: T): (r: seq<T>)
    ensures |r| == |ts|
  {
    seq(|ts|, i requires 0 <= i < |ts| => if ts[i] == old_ then new_ else ts[i])
  }

  lemma ReplaceMember<T>(ts: seq<T>, old_: T, new_: T, x: T)
    ensures x in Replace(ts, old_, new_) <==> (x in ts && x != old_) || (x == new_ && old_ in ts)
  {
    var r := Replace(ts, old_, new_);
    if x in r {
      var i :| 0 <= i < |r| && r[i] == x;
    }
    if x in ts && x != old_ {
      var i :| 0 <= i < |ts| && ts[i] == x;
      assert r[i] == x;
    }
    if x == new_ && old_ in ts {
      var i :| 0 <= i < |ts| && ts[i] == old_;
      assert r[i] == x;
    }
  }

  /** Replacing Old by a New that did not occur, then New by Old, gives the
      input back. */
  lemma ReplaceRoundTrip<T>(ts: seq<T>, old_: T, new_: T)
    requires new_ !in ts
    ensures Replace(Replace(ts, old_, new_), new_, old_) == ts
  {
    var r := Replace(Replace(ts, old_, new_), new_, old_);
    forall i | 0 <= i < |ts| ensures r[i] == ts[i] {
      assert ts[i] != new_;
    }
  }

  // ---------------------------------------------------------------------
  // __remove<Old>: concatenates `__types<>` for every Old and `__types<A>`
  // for every other A

  function RemovePieces<T(==)>(ts: seq<T>, old_: T): (r: seq<seq<T>>)
    ensures |r| == |ts|
  {
    seq(|ts|, i requires 0 <= i < |ts| => if ts[i] == old_ then [] else [ts[i]])
  }

  /** No Old is left. */
  function Remove<T(==)>(ts: seq<T>, old_: T): (r: seq<T>)
    ensures old_ !in r
  {
    ConcatMember(RemovePieces(ts, old_), old_);
    Concat(RemovePieces(ts, old_))
  }

  lemma RemoveAppend<T>(a: seq<T>, b: seq<T>, old_: T)
    ensures Remove(a + b, old_) == Remove(a, old_) + Remove(b, old_)
  {
    assert RemovePieces(a + b, old_) == RemovePieces(a, old_) + RemovePieces(b, old_);
    ConcatAppend(RemovePieces(a, old_), RemovePieces(b, old_));
  }

  /** Recursive reading of __remove: the head is dropped when it is Old and
      kept otherwise, and the rest is filtered the same way, in order. */
  lemma RemoveCons<T>(t: T, ts: seq<T>, old_: T)
    ensures Remove([t] + ts, old_) == (if t == old_ then [] else [t]) + Remove(ts, old_)
  {
    RemoveAppend([t], ts, old_);
    var piece := if t == old_ then [] else [t];
    assert RemovePieces([t], old_) == [piece];
    assert [piece][1..] == [];
    assert Concat([piece]) == piece + Concat([]);
  }

  lemma {:induction false} RemoveMember<T>(ts: seq<T>, old_: T, x: T)
    ensures x in Remove(ts, old_) <==> x in ts && x != old_
    ensures |Remove(ts, old_)| == |ts| - multiset(ts)[old_]
  {
    if ts != [] {
      assert ts == [ts[0]] + ts[1..];
      RemoveCons(ts[0], ts[1..], old_);
      RemoveMember(ts[1..], old_, x);
      assert multiset(ts) == multiset([ts[0]]) + multiset(ts[1..]);
    }
  }

  lemma RemoveAbsent<T>(ts: seq<T>, old_: T)
    requires old_ !in ts
    ensures Remove(ts, old_) == ts
  {
    assert RemovePieces(ts, old_) == seq(|ts|, i requires 0 <= i < |ts| => [ts[i]]);
    ConcatSingletons(ts);
  }

  lemma {:induction false} ConcatSingletons<T>(ts: seq<T>)
    ensures Concat(seq(|ts|, i requires 0 <= i < |ts| => [ts[i]])) == ts
  {
    if ts != [] {
      var pieces := seq(|ts|, i requires 0 <= i < |ts| => [ts[i]]);
      assert pieces[1..] == seq(|ts[1..]|, i requires 0 <= i < |ts[1..]| => [ts[1..][i]]);
      ConcatSingletons(ts[1..]);
    }
  }

  /** Removing the one occurrence of an element from a duplicate-free list
      unlinks exactly that position; the others keep their order. */
  lemma RemoveUnique<T>(ts: seq<T>, k: nat)
    requires NoDup(ts) && k < |ts|
    ensures Remove(ts, ts[k]) == ts[..k] + ts[k + 1..]
  {
    var x := ts[k];
    assert ts == ts[..k] + [x] + ts[k + 1..];
    RemoveAppend(ts[..k] + [x], ts[k + 1..], x);
    RemoveAppend(ts[..k], [x], x);
    RemoveCons(x, [], x);
    assert [x] + [] == [x];
    assert x !in ts[..k] by {
      forall i | 0 <= i < k ensures ts[..k][i] != x { assert ts[i] != ts[k]; }
    }
    assert x !in ts[k + 1..] by {
      var rest := ts[k + 1..];
      forall i | 0 <= i < |rest| ensures rest[i] != x { assert rest[i] == ts[k + 1 + i]; }
    }
    RemoveAbsent(ts[..k], x);
    RemoveAbsent(ts[k + 1..], x);
  }

  // ---------------------------------------------------------------------
  // __front, __single_t and __single_or<Ty>

  function Front<T>(ts: seq<T>): (r: T)
    requires |ts| != 0
    ensures ts == [r] + ts[1..]
  {
    ts[0]
  }

  /** __single_or<Ty>: the front of the list with Ty appended; only defined
      for lists of at most one element. */
  function SingleOr<T>(ts: seq<T>, default: T): (r: T)
    requires |ts| <= 1
    ensures ts == [] ==> r == default
    ensures ts != [] ==> ts == [r]
  {
    Front(ts + [default])
  }

  // ---------------------------------------------------------------------
  // __mzip_with2<Fn>: pairwise application; the pack expansion fails (no
  // nested `type`) when the two lists differ in length

  function MZipWith2<C, D, U>(f: (C, D) -> U, cs: seq<C>, ds: seq<D>): (r: Option<seq<U>>)
    ensures r.Some? <==> |cs| == |ds|
    ensures r.Some? ==> |r.value| == |cs| && forall i | 0 <= i < |cs| :: r.value[i] == f(cs[i], ds[i])
  {
    if |cs| != |ds| then None
    else Some(seq(|cs|, i requires 0 <= i < |cs| => f(cs[i], ds[i])))
  }

  /** Zipping with the first projection gives back the first list. */
  lemma MZipWith2First<C, D>(cs: seq<C>, ds: seq<D>)
    requires |cs| == |ds|
    ensures MZipWith2((c: C, d: D) => c, cs, ds) == Some(cs)
  {
    var r := MZipWith2((c: C, d: D) => c, cs, ds);
    assert r.value == cs;
  }

  // ---------------------------------------------------------------------
  // __mmake_index_sequence<N> and __mindex_sequence_for<Ts...>

  function MMakeIndexSequence(n: nat): (r: seq<nat>)
    ensures |r| == n
    ensures forall i | 0 <= i < n :: r[i] == i
  {
    seq(n, i requires 0 <= i < n => i)
  }

  function MIndexSequenceFor<T>(ts: seq<T>): (r: seq<nat>)
    ensures |r| == MCount(ts)
    ensures forall i | 0 <= i < |ts| :: r[i] == i
  {
    MMakeIndexSequence(|ts|)
  }
}
