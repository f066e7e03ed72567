# Reactive stream stage — a verified Dafny model

This project models `stream.py`, a small reactive-stream pipeline. A `Stream`
stage has four parts:

- a FIFO list of pending items (`lst`);
- one replaceable action slot (`action`);
- a lifecycle flag (`running`);
- the child stages it owns (`children`).

In Python a worker thread per stage takes the head item and hands it to the
action. `apply(func)` grafts a new child stage and installs an action that sends
items on to that child. If `func` returns a `bool`, the action is a filter that
forwards the original item on `True`. Any other result is forwarded as a mapped
value. `forEach(func)` installs a terminal action. `stop()` clears the flag and
then stops every child, in insertion order.

The model is imperative, like the source:

- `routing.dfy` (module `Routing`) holds the value-level part of `apply`'s
  action. `FuncResult` mirrors `isinstance(result, bool)`. `Route` says what one
  item sends to the child. `Forwarded` says what a run of items sends. Lemmas
  prove that `Forwarded` is an order-preserving filter for a boolean `func` and
  a position-by-position map otherwise.
- `stream.dfy` (module `Streams`) holds `class Stream` with the fields `lst`,
  `action`, `running` and `children`. Its methods carry `modifies` clauses and
  state the whole new state.
  - `Action` is `NoAction | Sink | Forward(f, child)`. `Sink` is a `forEach`
    action; what it receives is recorded in the ghost log `delivered`.
  - The worker thread is driven by the caller. `WorkerStep` is one iteration of
    the worker loop. `Run` is the loop up to the point where the real worker
    would block (empty list) or exit (stopped).
  - A ghost `Pipeline` object lists all stages of one tree in creation order. It
    keeps a copy of each stage's children. Children are always created after
    their parent, so the stage's position in this list is the termination
    measure for the recursive `Stop`. The measure stays valid however deep the
    tree grows after a stage was created.
- Nothing in stream.py (lines 29-45) checks `running` before `apply` or
  `forEach`, so the model allows both on a stopped stage too. The child
  created on a stopped stage starts running, as `Stream()` does.
- `scenario.dfy` (module `Scenario`) drives a two-stage pipeline end to end. A
  root stage doubles every item into a child, and the child ends in a sink.

## Model

| member | source | states |
|---|---|---|
| `Streams.Stream.constructor` | stream.py:4-11 | A new stage has an empty list, no action, is running and has no children; it is the root of a fresh, well-formed pipeline. |
| `Streams.Stream.Child` | stream.py:33 | The stage `apply` creates has an empty list, no action, is running and has no children; it joins its parent's pipeline as the newest stage, and the pipeline stays well-formed. |
| `Streams.Stream.WorkerStep` | stream.py:14-22 | On a running stage with a pending item, the step removes exactly the head item and returns it. A `Sink` appends the item to its log; a `Forward(f, child)` appends `Route(f(x), x)` to the child's list. With no action the item is dropped. A stopped stage, or an empty list, changes nothing and delivers nothing. Nothing else changes. |
| `Streams.Stream.Run` | stream.py:13-22 | Running the worker loop until it would block delivers every pending item in FIFO order. A sink's log grows by exactly the old list; a forwarding action's child list grows by exactly `Forwarded(f, old list)`. A stopped stage keeps its list and delivers nothing (non-draining shutdown). |
| `Streams.Stream.Add` | stream.py:24-27 | The item is appended at the tail and every other field is unchanged; there is no precondition, so it is accepted in every state, including after `Stop`. |
| `Streams.Stream.ForEach` | stream.py:29-30 | The action slot is overwritten by a sink whatever it held before; the list, flag and children are unchanged. |
| `Streams.Stream.ClearAction` | stream.py:21-30 | `forEach(None)` (or any falsy value) empties the action slot, so every later item the worker takes is dropped; the list, flag and children are unchanged. |
| `Streams.Stream.Apply` | stream.py:32-45 | Returns a fresh stage (empty list, no action, running, no children), appends it to `children`, and replaces the action by `Forward(f, child)`; the list and the flag are unchanged and both stages stay well-formed. |
| `Streams.Stream.Stop` | stream.py:47-53 | Afterwards this stage and every stage reachable through `children` are stopped. Only the `running` flags of those stages change. Calling it again on a stopped stage is allowed. |
| `Streams.Stream.ChildSubtree` | stream.py:52-53 | Each child is a well-formed stage of the same pipeline, created after its parent, and everything it reaches is reached from the parent; this is what the recursive `stop` call needs. |
| `Streams.Pipeline.Reach` | stream.py:47-53 | The stages `stop` reaches from a stage: the stage itself and what its children reach, all of them registered stages. |
| `Streams.Pipeline.Forest` | stream.py:52-53 | The stages reached from the first children of a stage, taken in insertion order, are all registered stages. |
| `Streams.Pipeline.ForestCovers` | stream.py:52-53 | Every stage reached from one child is reached from the parent's whole child list, and that child was created after its parent. |
| `Streams.Pipeline.ForestSnoc` | stream.py:52-53 | Stopping one more child, in insertion order, adds exactly the stages that child reaches. |
| `Routing.Route` | stream.py:36-41 | What `new_action` sends to the child for one item: nothing exactly when `func` answers `False`; the original item when it answers `True`; the produced value itself when the answer is not a `bool`. |
| `Routing.Forwarded` | stream.py:35-41 | The action `apply` installs forwards at most one item per input item, and every forwarded item is what some input item routes to. |
| `Routing.ForwardedAppend` | stream.py:13-22 | Processing two runs of items one after the other forwards their outputs one after the other, so forwarding preserves order. |
| `Routing.ForwardedSnoc` | stream.py:20-22 | Processing one more item adds exactly what that item routes to, at the end. |
| `Routing.Filter` | stream.py:37-39 | The reference filter keeps only items that satisfy the predicate, keeps every item that does, and never grows. |
| `Routing.ForwardedFilters` | stream.py:37-39 | When `func` returns a `bool` for every item, the action forwards exactly the filter of the items on `True`, unchanged and in order. Items on `False` are dropped. |
| `Routing.ForwardedMaps` | stream.py:40-41 | When `func` never returns a `bool`, the action forwards one produced value per item, position by position. |
| `Scenario.Build` | stream.py:29-45 | `r.apply(double)` followed by `c.forEach(...)` on the returned child gives a root that forwards into `c`; `c` is a running sink with nothing received, and `c` is reached by the root's stop. |
| `Scenario.FeedRoot` | stream.py:13-27 | After `r.add(3)`, `r.add(5)` and a run of the root's worker, the root's list is empty and the child's list is `[6, 10]`. |
| `Scenario.DoublingPipeline` | stream.py:13-53 | End to end, the child receives `[6, 10]` in that order (`forwarded`), its sink then records exactly those items (`logged == forwarded`), and stopping the root leaves both stages stopped (`stopped`). |

## Left out

- Threads, the condition variable and `join` (stream.py:8-11, 15-17, 25-27, 49-51) are not modelled. The caller decides when a worker step runs (`WorkerStep`) or when the worker runs until it would block (`Run`). Blocking, wake-ups and waiting for a worker to finish have no sequential meaning.
- Streams.Stream.WorkerStep: on a running stage with an empty list the Python worker blocks until an item arrives; the model returns `None` and changes nothing.
- Streams.Stream.Stop: states the final state, not the order in which flags are cleared. Every stage reached is stopped, and nothing else changes. The body follows the source's order: this stage first, then each child in insertion order. The final state does not depend on that order, and the contract does not state it.
- The data races are not modelled: `running` is written outside the lock (stream.py:48), and `action` and `children` are changed without it (stream.py:30, 43-44). Every operation here is atomic.
- User functions are total Dafny functions `T -> FuncResult<T>`. Arbitrary Python callables, their side effects and the exceptions they raise (stream.py:22, 36) are not modelled. One item type `T` is used for every stage of a pipeline, so a map that changes the item's type is not covered.
- Streams.Stream.ForEach: the callable handed to `forEach` is modelled as a sink that records what it receives in the ghost log `delivered`. The log starts empty when the sink is installed. What the callable does with an item is not modelled. A falsy argument such as `None` is modelled separately, by `ClearAction`.
- `stop` waits forever if the worker is stuck inside an action that never returns (stream.py:51). There are no workers here, so this is not modelled.
- The expression evaluator (`New folder (2)/parser.py`) is not part of this model.
