/**
 * A reactive-stream stage: a FIFO list of pending items, one replaceable
 * action, a lifecycle flag and the child stages grafted onto it by `apply`.
 *
 * The stage's worker thread is not modelled as a thread: the caller decides
 * when the worker takes a step (`WorkerStep`) or runs until it would block
 * (`Run`). Locks, condition variables and `join` have no sequential meaning
 * and are left out; the state changes they guard are modelled exactly.
 */
module Streams {
  import opened Routing

  /**
   * The stage's single action slot. `Sink` is an action registered with
   * `forEach`: every item delivered to it is recorded in the stage's ghost
   * `delivered` log. `Forward(f, child)` is the action `apply(f)` installs: it
   * sends `Route(f(x), x)` on to `child`.
   */
  datatype Action<!T> = NoAction | Sink | Forward(f: T -> FuncResult<T>, child: Stream<T>)

  /**
   * Ghost registry of all stages of one tree, in creation order. A stage's
   * children are always created after it, so `|stages| - id` decreases from
   * a stage to each of its children; that is what makes the stop cascade
   * terminate, however deep the tree grows after a stage was created.
   */
  class Pipeline<T> {
    ghost var stages: seq<Stream<T>>
    /** `kids[i]` mirrors the `children` field of `stages[i]`. */
    ghost var kids: seq<seq<Stream<T>>>

    ghost constructor ()
      ensures stages == [] && kids == []
    {
      stages := [];
      kids := [];
    }

    /** The registry's own view of the tree: creation order and ownership. */
    ghost predicate Shape()
      reads this
    {
      |kids| == |stages| &&
      (forall i :: 0 <= i < |stages| ==> stages[i].pipeline == this && stages[i].id == i) &&
      (forall i, c :: 0 <= i < |stages| && c in kids[i] ==>
         c.pipeline == this && i < c.id < |stages| && stages[c.id] == c)
    }

    /** The registry agrees with the stages, and every forwarding action targets a child. */
    ghost predicate Valid()
      reads this, stages`children, stages`action
    {
      Shape() &&
      (forall i :: 0 <= i < |stages| ==> stages[i].children == kids[i]) &&
      (forall i :: 0 <= i < |stages| && stages[i].action.Forward? ==>
         stages[i].action.child in kids[i])
    }

    /** All stages registered so far. */
    ghost function Members(): set<Stream<T>>
      reads this
    {
      set s | s in stages
    }

    ghost predicate Holds(s: Stream<T>)
      reads this
    {
      s.id < |stages| && stages[s.id] == s
    }

    /** The stages `stop` reaches from `s`: `s` and everything below it. */
    ghost function Reach(s: Stream<T>): (r: set<Stream<T>>)
      requires Shape() && Holds(s)
      reads this
      ensures s in r && r <= Members()
      decreases |stages| - s.id, 1, 0
    {
      assert kids[s.id][..|kids[s.id]|] == kids[s.id];
      {s} + Forest(kids[s.id], s.id)
    }

    /** The stages `stop` reaches from `ks`, the first children of the stage with id `p`. */
    ghost function Forest(ks: seq<Stream<T>>, p: nat): (r: set<Stream<T>>)
      requires Shape() && p < |stages| && |ks| <= |kids[p]| && ks == kids[p][..|ks|]
      reads this
      ensures r <= Members()
      decreases |stages| - p, 0, |ks|
    {
      if ks == [] then {}
      else
        var n := |ks| - 1;
        assert ks[n] in kids[p];
        Forest(ks[..n], p) + Reach(ks[n])
    }

    /** Every stage reached from one child is reached from the whole list. */
    lemma {:induction false} ForestCovers(ks: seq<Stream<T>>, p: nat, i: nat)
      requires Shape() && p < |stages| && |ks| <= |kids[p]| && ks == kids[p][..|ks|]
      requires i < |ks|
      ensures Holds(ks[i]) && ks[i].id > p
      ensures Reach(ks[i]) <= Forest(ks, p)
      decreases |ks|
    {
      assert ks[i] in kids[p];
      var n := |ks| - 1;
      if i < n {
        assert ks[..n][i] == ks[i];
        ForestCovers(ks[..n], p, i);
      }
    }

    /** Visiting one more child adds exactly what that child reaches. */
    lemma ForestSnoc(p: nat, i: nat)
      requires Shape() && p < |stages| && i < |kids[p]|
      ensures Holds(kids[p][i])
      ensures Forest(kids[p][..i + 1], p) == Forest(kids[p][..i], p) + Reach(kids[p][i])
    {
      assert kids[p][i] in kids[p];
      assert kids[p][..i + 1][..i] == kids[p][..i];
    }
  }

  class Stream<T> {
    var lst: seq<T>
    var action: Action<T>
    var running: bool
    var children: seq<Stream<T>>
    /** Items delivered to a `Sink` action of this stage, in delivery order. */
    ghost var delivered: seq<T>
    ghost const pipeline: Pipeline<T>
    ghost const id: nat

    /** The stage is registered in a well-formed pipeline. */
    ghost predicate Valid()
      reads pipeline, pipeline.stages`children, pipeline.stages`action
    {
      pipeline.Valid() && pipeline.Holds(this)
    }

    /** This stage and every stage below it: what `Stop` reaches. */
    ghost function Subtree(): set<Stream<T>>
      requires pipeline.Shape() && pipeline.Holds(this)
      reads pipeline
    {
      pipeline.Reach(this)
    }

    /** The stage, if any, whose list the current action appends to. */
    function Receivers(): set<Stream<T>>
      reads this
    {
      if action.Forward? then {action.child} else {}
    }

    /** A new root stage: empty list, no action, running, no children. */
    constructor ()
      ensures lst == [] && action == NoAction && running && children == []
      ensures delivered == []
      ensures fresh(pipeline) && pipeline.stages == [this]
      ensures Valid()
    {
      lst := [];
      action := NoAction;
      running := true;
      children := [];
      delivered := [];
      id := 0;
      var p := new Pipeline<T>();
      pipeline := p;
      new;
      p.stages := [this];
      p.kids := [[]];
    }

    /**
     * A new stage created by `apply` inside the pipeline `p` of its parent.
     * Only `Apply` calls it; it is the `Stream()` call that `apply` makes.
     */
    constructor Child(ghost p: Pipeline<T>)
      requires p.Valid()
      modifies p
      ensures lst == [] && action == NoAction && running && children == []
      ensures delivered == []
      ensures pipeline == p && p.stages == old(p.stages) + [this]
      ensures Valid()
    {
      lst := [];
      action := NoAction;
      running := true;
      children := [];
      delivered := [];
      id := |p.stages|;
      pipeline := p;
      new;
      p.stages := p.stages + [this];
      p.kids := p.kids + [[]];
    }

    /**
     * One iteration of the worker loop. A running stage with a pending item
     * removes the head item and delivers it to the current action; a stopped
     * stage delivers nothing; a running stage with an empty list would block
     * and changes nothing.
     */
    method WorkerStep() returns (taken: Option<T>)
      requires Valid()
      modifies `lst, `delivered, Receivers()`lst
      ensures taken.Some? <==> old(running) && old(lst) != []
      ensures taken.Some? ==> taken.value == old(lst)[0] && lst == old(lst)[1..]
      ensures taken.None? ==> lst == old(lst)
      ensures action.Sink? && taken.Some? ==> delivered == old(delivered) + [taken.value]
      ensures !(action.Sink? && taken.Some?) ==> delivered == old(delivered)
      ensures action.Forward? && taken.Some? ==>
        action.child.lst == old(action.child.lst) + Items(Route(action.f(taken.value), taken.value))
      ensures action.Forward? && taken.None? ==> action.child.lst == old(action.child.lst)
    {
      if !running || lst == [] {
        return None;
      }
      var item := lst[0];
      lst := lst[1..];
      taken := Some(item);
      match action
      case NoAction =>
      case Sink =>
        delivered := delivered + [item];
      case Forward(f, child) =>
        assert child.id > id;
        var out := Route(f(item), item);
        if out.Some? {
          child.Add(out.value);
        }
    }

    /**
     * The worker loop, up to the point where the real worker would block
     * (the list is empty) or exit (the stage is stopped). A running stage
     * delivers every pending item, in the order they were added; a stopped
     * stage delivers none and leaves its list as it is.
     */
    method Run()
      requires Valid()
      modifies `lst, `delivered, Receivers()`lst
      ensures running ==> lst == []
      ensures !running ==> lst == old(lst)
      ensures action.Sink? ==>
        delivered == old(delivered) + (if running then old(lst) else [])
      ensures !action.Sink? ==> delivered == old(delivered)
      ensures action.Forward? ==>
        action.child.lst == old(action.child.lst) + (if running then Forwarded(action.f, old(lst)) else [])
    {
      ghost var done: seq<T> := [];
      ghost var target: Stream<T> := this;
      if action.Forward? {
        target := action.child;
        assert target.id > id;
      }
      ghost var before := target.lst;
      while running && lst != []
        invariant Valid()
        invariant old(lst) == done + lst
        invariant !running ==> done == []
        invariant action.Sink? ==> delivered == old(delivered) + done
        invariant !action.Sink? ==> delivered == old(delivered)
        invariant action.Forward? ==> target == action.child && target.lst == before + Forwarded(action.f, done)
        decreases |lst|
      {
        ghost var prev := lst;
        var taken := WorkerStep();
        assert prev == [taken.value] + lst;
        if action.Forward? {
          ForwardedSnoc(action.f, done, taken.value);
        }
        done := done + [taken.value];
      }
      assert done == (if running then old(lst) else []);
    }

    /** Appends `x` at the tail. Accepted in every state, also after `Stop`. */
    method Add(x: T)
      modifies `lst
      ensures lst == old(lst) + [x]
    {
      lst := lst + [x];
    }

    /** Replaces the action slot by a sink; the list and the children stay. */
    method ForEach()
      requires Valid()
      modifies `action, `delivered
      ensures action == Sink && delivered == []
      ensures Valid()
    {
      action := Sink;
      delivered := [];
    }

    /**
     * `forEach` with `None` or another falsy value: the worker's truthiness
     * test then finds no action, so every later item is taken and dropped.
     */
    method ClearAction()
      requires Valid()
      modifies `action
      ensures action == NoAction
      ensures Valid()
    {
      action := NoAction;
    }

    /**
     * Grafts a fresh child stage onto this stage and replaces the action by
     * one that routes each item through `f` into that child.
     */
    method Apply(f: T -> FuncResult<T>) returns (c: Stream<T>)
      requires Valid()
      modifies `action, `children, pipeline
      ensures fresh(c)
      ensures c.lst == [] && c.action == NoAction && c.running && c.children == []
      ensures c.delivered == []
      ensures c.pipeline == pipeline && pipeline.stages == old(pipeline.stages) + [c]
      ensures action == Forward(f, c) && children == old(children) + [c]
      ensures lst == old(lst) && running == old(running)
      ensures Valid() && c.Valid()
    {
      c := new Stream.Child(pipeline);
      action := Forward(f, c);
      children := children + [c];
      pipeline.kids := pipeline.kids[id := children];
    }

    /** What `Stop` needs to know of the child at position `i`. */
    lemma ChildSubtree(i: nat)
      requires Valid() && i < |children|
      ensures children[i].Valid() && children[i].pipeline == pipeline && children[i].id > id
      ensures children[i].Subtree() <= Subtree()
    {
      assert children[..|children|] == children;
      pipeline.ForestCovers(children, id, i);
    }

    /**
     * Clears `running` on this stage and then, recursively, on every child in
     * insertion order. Afterwards every stage below and including this one is
     * stopped; only the `running` flags of those stages change. Stopping a
     * stopped stage again is allowed: it still visits every child, so a child
     * grafted on after the first stop is stopped too.
     */
    method Stop()
      requires Valid()
      modifies Subtree()`running
      ensures forall s :: s in Subtree() ==> !s.running
      ensures Valid()
      decreases |pipeline.stages| - id
    {
      running := false;
      ghost var p := pipeline;
      ghost var ks := p.kids[id];
      assert ks[..|ks|] == ks;
      var i := 0;
      while i < |children|
        invariant 0 <= i <= |children|
        invariant Valid()
        invariant ks == children && ks == p.kids[id]
        invariant !running
        invariant forall s :: s in p.Forest(ks[..i], id) ==> !s.running
      {
        ChildSubtree(i);
        children[i].Stop();
        p.ForestSnoc(id, i);
        i := i + 1;
      }
    }
  }
}
