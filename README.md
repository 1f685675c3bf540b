# In-place stop tokens and type-list utilities of `all.hpp`

This project models two parts of the single-header sender/receiver library
`all.hpp` in Dafny and proves properties of them.

**The in-place stop facility.**
- `in_place_stop_source` holds a one-byte atomic state with a
  `stop_requested` flag (1) and a `locked` flag (2). It also holds the head of
  an intrusive, doubly-linked list of registered callbacks and the id of the
  thread that runs them.
- `in_place_stop_token` is a nullable, non-owning pointer to a source.
- `in_place_stop_callback` registers itself when constructed. If stop was
  already requested, it runs at once instead. Its destructor deregisters it.
- `never_stop_token` can never be stopped.

Module `StopToken` (`stop_token.dfy`) is imperative, like the source:
- `Source`, `CallbackBase` and the notifier's local `removed_during_callback`
  flag are classes whose fields the methods update.
- The list surgery reassigns the `next` and `prevPtr` fields of the nodes.
- A ghost `List` holds the nodes reachable from the head, head first. A ghost
  `Log` holds the callbacks run so far, in order.
- `Valid()` states the list's link invariant.
- `Abstract()` maps a source to a value of module `StopSpec`
  (`stop_spec.dfy`). That module is a functional description of the same
  behaviour: a stop flag, the pending callbacks newest first, and the log.

The contracts of `CallbackBase.RegisterCallback`, `CallbackBase.Destroy`,
`NewStopCallback`, `Source.TryAddCallback`, `Source.RemoveCallback` and
`Source.RequestStop` tie the new abstract state to a `StopSpec` function of
the old one. The contracts of the lock operations and the list-surgery
helpers (`PushFront`, `Unlink`, `PopFront`, `RunHead`, `Execute`) give the
new field values directly. The lemmas of `StopSpec` then state what
the source promises about whole sequences of registrations, deregistrations
and stop requests.

A callback's body is modelled as two steps:
- it appends its node to the source's `Log`;
- if the node is built with `destroysSelf`, it then runs the callback's own
  destructor. This exercises the `removed_during_callback` protocol.

Threads are numbered and the current thread's id is passed as a parameter.

**The type-list metaprogramming utilities.** Module `TypeList`
(`type_list.dfy`) models them. A type list `__types<A, B, C>` is a
`seq<T>`, `is_same` is `==`, and a metafunction argument is a Dafny
function value. `__right_fold` is modelled as what its specialisations do:
they fold from the head of the list (`__f_<f(State, Head), Tail...>`), so it
is a left fold despite its name. `__munique` is built on this fold, and it
keeps the first occurrence of each element.

## Model

| member | source | states |
|---|---|---|
| TypeList.Concat | all.hpp:261-296 | no lists give the empty list, a single list is passed through, and the result is at least as long as each list |
| TypeList.ConcatAppend | all.hpp:261-296 | concatenating the lists of `a + b` is concatenating those of `a`, then those of `b` (the specialisations that merge two, three or four lists at a time) |
| TypeList.ConcatMember | all.hpp:261-296 | an element is in the concatenation iff it is in one of the lists |
| TypeList.Fold | all.hpp:244-259 | with no elements the result is the initial state; with one it is `f(init, t)` |
| TypeList.FoldSnoc | all.hpp:244-259 | folding `ts + [t]` applies `f` to the fold of `ts` and `t`: the fold goes from the head to the tail |
| TypeList.Contains | all.hpp:338-342 | `__contains<T>` is true exactly when `T` is in the list |
| TypeList.MCount | all.hpp:326-329 | `sizeof...`: the number of elements with repetition, 0 exactly for the empty list |
| TypeList.MCountIf | all.hpp:331-336 | the count of elements that satisfy the predicate is at most `__mcount`; it equals `__mcount` iff all satisfy it, and is 0 iff none does (extended to the empty list, see Findings) |
| TypeList.MCountIfAsWritten | all.hpp:331-336 | the unary `+` fold as written has no value exactly for the empty pack, and otherwise equals the count |
| TypeList.MCountIfEmptyPack | all.hpp:335 | for the empty pack the fold as written has no value, where the count 0 is meant |
| TypeList.MCountIfAppend | all.hpp:331-336 | the count over `a + b` is the sum of the counts |
| TypeList.MCountIfSame | all.hpp:331-342 | counting `is_same<x, _>` gives the number of occurrences of `x`, and it is positive iff `__contains<x>` holds |
| TypeList.PushBack | all.hpp:344-349 | the item is appended after the unchanged list |
| TypeList.PushBackUnique | all.hpp:351-361 | an item already present leaves the list unchanged; a new item is appended |
| TypeList.PushBackUniqueKeepsNoDup | all.hpp:351-361 | `__push_back_unique` keeps a duplicate-free list duplicate-free; the result holds exactly the old elements and the item |
| TypeList.MUnique | all.hpp:363-370 | `__munique` keeps the first occurrence of each element, in order, and drops the rest: the result is duplicate-free and has the same elements |
| TypeList.UniqueFoldIsFirstOccurrences | all.hpp:244-259 | the head-first fold of `__push_back_unique` from the empty list equals the first-occurrence filter, is duplicate-free and has the input's elements |
| TypeList.Replace | all.hpp:391-396 | `__replace` keeps the length of the list |
| TypeList.ReplaceMember | all.hpp:391-396 | an element is in the result iff it was in the list and is not `Old`, or it is `New` and `Old` occurred |
| TypeList.ReplaceRoundTrip | all.hpp:391-396 | when `New` does not occur, replacing `Old` by `New` and back restores the list |
| TypeList.Remove | all.hpp:398-405 | no `Old` is left in the result |
| TypeList.RemoveMember | all.hpp:398-405 | `__remove` keeps exactly the elements other than `Old`, and the length drops by the number of occurrences of `Old` |
| TypeList.RemoveCons | all.hpp:398-405 | removal works element by element from the head, keeping the order |
| TypeList.RemoveAppend | all.hpp:398-405 | removal from `a + b` is removal from `a`, then from `b` |
| TypeList.RemoveAbsent | all.hpp:398-405 | removing an element that does not occur leaves the list unchanged |
| TypeList.RemoveUnique | all.hpp:398-405 | in a duplicate-free list, removing the element at position k drops that one position and keeps the order of the rest |
| TypeList.Front | all.hpp:427-433 | `__front` is defined only for a non-empty list and is its first element |
| TypeList.SingleOr | all.hpp:427-442 | `__single_or` is defined only for lists of at most one element; it gives the default for the empty list and the element otherwise |
| TypeList.MZipWith2 | all.hpp:488-502 | zipping is defined iff the two lists have equal lengths; element i of the result is `f` applied to both elements i |
| TypeList.MZipWith2First | all.hpp:488-502 | zipping with the first projection gives back the first list |
| TypeList.MMakeIndexSequence | all.hpp:504-509 | `__mmake_index_sequence<N>` is `0, 1, ..., N-1` |
| TypeList.MIndexSequenceFor | all.hpp:510-512 | `__mindex_sequence_for` has one index per element of the list, and is `0, 1, ..., n-1` |
| StopSpec.RequestStop | all.hpp:1048-1079 | afterwards stop is requested; the result is whether it already was; a first call empties the list; the log only grows, and the number of pending plus logged callbacks is kept |
| StopSpec.TryAddCallback | all.hpp:1128-1146 | succeeds iff stop was not requested; success pushes the node at the head and runs nothing; failure changes nothing |
| StopSpec.RegisterCallback | all.hpp:1031-1040 | before stop the node is pushed at the head; after it the node runs inline, at the end of the log; the stop flag is kept, the log only grows, and the number of pending plus logged callbacks grows by one |
| StopSpec.RemoveCallback | all.hpp:1148-1179 | the node is no longer pending; the flag and the log are kept |
| StopSpec.AtMostOnceNoDup | all.hpp:1128-1146 | a list in which no node occurs twice, such as the callback list, has no duplicate positions |
| StopSpec.InitialInv | all.hpp:921-952 | a new source, with no stop requested and no callbacks, satisfies the invariant |
| StopSpec.RequestStopIdempotent | all.hpp:1048-1051 | `request_stop` returns whether stop had already been requested; afterwards stop is requested, and a second call changes nothing and returns true |
| StopSpec.RequestStopRunsEachOnce | all.hpp:1048-1079 | request_stop runs every pending callback exactly once and leaves the list empty |
| StopSpec.RequestRunsNewestFirst | all.hpp:1048-1079 | callbacks registered on a new source run in reverse order of registration when stop is requested |
| StopSpec.RegisterAllPending | all.hpp:1128-1146 | each registration before stop pushes its node at the head of the list |
| StopSpec.LateRegistrationRunsInline | all.hpp:1031-1040 | once stop is requested, a registration is refused and the callback runs inline |
| StopSpec.RemovePendingUnlinksOne | all.hpp:1148-1159 | deregistering a pending callback unlinks exactly that node, keeps the order of the others and runs nothing |
| StopSpec.RemoveTakenIsNoop | all.hpp:1160-1178 | deregistering a callback that is not in the list (already taken by request_stop, or run inline) changes nothing |
| StopSpec.RemoveShrinks | all.hpp:1148-1159 | unlinking never adds nodes |
| StopSpec.StepKeepsInv | all.hpp:1048-1179 | registration, deregistration and request_stop keep the invariant: no callback both pending and run, none run twice, and the list is empty once stop is requested |
| StopSpec.RunKeepsInv | all.hpp:1048-1179 | over any sequence of operations that registers each callback at most once, no callback runs more than once |
| StopSpec.StopRequestedSticky | all.hpp:928-930 | once stop is requested, no sequence of operations clears the flag |
| StopSpec.RequestMakesStopped | all.hpp:1048-1079 | any sequence of operations that contains a stop request ends with stop requested |
| StopSpec.RunAppend | all.hpp:1048-1179 | running two sequences of operations one after the other is running their concatenation |
| StopToken.RemovedFlag.constructor | all.hpp:1064-1065 | the notifier's local `removed_during_callback` starts false |
| StopToken.CallbackBase.constructor | all.hpp:852-872 | a new node points at its source and is unlinked, with no flag pointer and `callback_completed` false |
| StopToken.CallbackBase.RegisterCallback | all.hpp:1031-1040 | the source's abstract state follows the registration rule: push at the head, or run inline when stop was requested; in that case the node's source becomes null |
| StopToken.CallbackBase.Destroy | all.hpp:1017-1020 | the destructor deregisters through the source when there is one; the notifier's flag is set iff the node was taken off and is being destroyed on the notifying thread |
| StopToken.Source.constructor | all.hpp:921-952 | a new source has state 0 and an empty list |
| StopToken.Source.Destroy | all.hpp:1043-1046 | the destructor demands a free lock and an empty list, so no callback is left pending |
| StopToken.Source.GetToken | all.hpp:1000-1002 | the token points at this source, so stop is possible |
| StopToken.Source.StopRequested | all.hpp:928-930 | true iff the stop-requested flag is set |
| StopToken.Source.Lock | all.hpp:1081-1096 | sets the locked flag and returns the previous state |
| StopToken.Source.Unlock | all.hpp:1098-1100 | stores the given state |
| StopToken.Source.TryLockUnlessStopRequested | all.hpp:1102-1126 | fails iff stop was requested, leaving the state as it was; otherwise takes the lock, setting the stop-requested flag when asked to |
| StopToken.Source.TryAddCallback | all.hpp:1128-1146 | pushes the node at the head of the list unless stop was requested, and reports which; the list stays linked |
| StopToken.Source.PushFront | all.hpp:1132-1143 | the node becomes the head and the list stays linked |
| StopToken.Source.RemoveCallback | all.hpp:1148-1179 | the abstract state follows the removal rule; a taken node being destroyed on the notifying thread sets the flag that `removed_during_callback` points at |
| StopToken.Source.Unlink | all.hpp:1152-1158 | the node at position k leaves the list, the others keep their order, and the list stays linked |
| StopToken.Source.RequestStop | all.hpp:1048-1079 | the abstract state follows `StopSpec.RequestStop`; afterwards only stop_requested is set; on the first call the list is empty and every node taken off ends with a null `prevPtr`, and `callback_completed` set unless its body destroyed it |
| StopToken.Source.RunHead | all.hpp:1055-1075 | one round of the loop: the head is taken off and run, the log grows by it, and the lock is held again |
| StopToken.Source.PopFront | all.hpp:1055-1059 | the head leaves the list with a null `prevPtr`; the new head points back at the source |
| StopToken.Source.Execute | all.hpp:853-855 | running a callback appends it to the log and changes nothing else about the source's state |
| StopToken.Token.StopPossible | all.hpp:979-981 | stop is possible for every token except the one without a source |
| StopToken.Token.StopRequested | all.hpp:975-977 | true iff the token has a source and stop was requested on it |
| StopToken.Token.Moved | all.hpp:965-973 | moving a token hands over its source and leaves the moved-from token without one |
| StopToken.Token.Swap | all.hpp:983-985 | two tokens exchange their sources |
| StopToken.DefaultToken | all.hpp:961 | a default token has no source: stop is neither possible nor requested |
| StopToken.SwapTwice | all.hpp:983-985 | swapping twice restores both tokens |
| StopToken.TokenTracksSource | all.hpp:975-981 | a token from `get_token` reports that stop is possible, and reports its source's stop state |
| StopToken.NeverStopToken.StopRequested | all.hpp:906-908 | never_stop_token never has stop requested |
| StopToken.NeverStopToken.StopPossible | all.hpp:909-911 | never_stop_token never has stop possible |
| StopToken.NeverStopTokensEqual | all.hpp:912 | all never_stop_tokens compare equal |
| StopToken.NewStopCallback | all.hpp:1008-1015 | constructing a callback registers it with the token's source: pushed at the head of the list, or run inline and detached when stop was already requested |
| StopToken.StopScenario | all.hpp:1008-1079 | two callbacks run newest first and are marked completed; a second request returns true; a later callback runs inline, is not marked completed and has no source |
| StopToken.DeregisterScenario | all.hpp:1017-1079 | a callback destroyed before the stop request never runs; the one still registered runs and is marked completed |
| StopToken.SelfDestroyScenario | all.hpp:1048-1079 | a callback that destroys itself from its body runs once, and request_stop does not mark it completed |

## Left out

- Atomics and memory orders: the state is a plain `bv8` field. The loads
  and stores are modelled, but their ordering guarantees are not.
- Concurrency: the model is sequential. `__lock_` and
  `__try_lock_unless_stop_requested_` drop their spin-wait and
  compare-exchange loops. Their callers must find the lock free, since a
  sequential caller that found it held would wait forever.
- StopToken.Source.RemoveCallback: when a taken callback is destroyed on a
  thread other than the notifying one, the source spins until that
  callback's `callback_completed` is set. In a sequential model the other
  thread's callback has already finished, so this wait does nothing and is
  not modelled.
- Callback bodies are limited to logging their own run and, optionally,
  destroying their own callback. A body that registers or destroys other
  callbacks, or requests stop again, is not modelled.
- StopToken.Source.Destroy: the destructor's two assertions (the lock is
  free and no callback is registered) are stated as a precondition only.
- TypeList.MCountIf: the source's unary fold has no value for an empty
  pack. The model extends it with 0 there; MCountIfAsWritten keeps the
  source's behaviour (see Findings).
- StopSpec.RemoveCallback: its contract does not state that unlinking only
  removes nodes; lemmas RemoveShrinks and RemovePendingUnlinksOne state it.
- The `__execute_` function pointer and `_Fun` storage of
  `in_place_stop_callback` are not modelled. They are replaced by the
  `destroysSelf` constant and the log.
- `never_stop_token::callback_type` is not modelled. Its constructor
  ignores its arguments.
- Token copy construction, copy assignment and `==` are Dafny value
  semantics on the `Token` datatype.
- `tag_invoke`, concepts, coroutines, and the rest of the header outside
  these two parts are not part of this model.
- The type-list utilities are modelled on element values, not on C++ types.
  Continuation parameters (`_Continuation`) are always `__types`.
  `__if`, `__uncurry` and `__mapply` appear only through the operations
  built from them (`__push_back`, `__push_back_unique`, `__munique`,
  `__remove`).
- `__transform`, `__curry` and `__mcompose` are not modelled: no modelled
  operation uses them.

## Findings

| source | as written | input that shows it | evidently intended | confidence | as-written member | corrected member |
|---|---|---|---|---|---|---|
| all.hpp:331-336 | `__mcount_if` counts with the unary fold `(bool(...) + ...)`, which is ill-formed for an empty pack, so `__mcount_if<Fn>::__f<>` names no type | the empty type list `__types<>` | the count 0, as `__mcount` gives `sizeof...` = 0 | high that the fold is ill-formed; not executed, and no code in all.hpp instantiates `__mcount_if` | TypeList.MCountIfAsWritten, TypeList.MCountIfEmptyPack | TypeList.MCountIf |
