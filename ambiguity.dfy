/**
  `ambiguity_check`: a breadth-first walk over the forest with a FIFO queue
  and a `seen` set, proved to return `Ok(())` exactly when no reachable node
  is locally ambiguous, and to dequeue each reachable node at most once.
 */
module Ambiguity {
  import opened Wrappers
  import opened Forest

  /** The engine's "more than one" signal. */
  datatype MoreThanOne = MoreThanOne

  predicate NoDuplicates(s: seq<Node>) {
    forall i, j :: 0 <= i < j < |s| ==> s[i] != s[j]
  }

  /** The engine's `one_choice` and `one_split`: a single candidate (an
      alternative, or a (left, right) pairing) is the unique one, several are
      reported as `MoreThanOne`. */
  function One<T>(candidates: seq<T>): (r: Result<T, MoreThanOne>)
    requires |candidates| > 0
    ensures r.Ok? <==> |candidates| == 1
    ensures r.Ok? ==> r.value in candidates
  {
    if |candidates| == 1 then Ok(candidates[0]) else Err(MoreThanOne)
  }

  /** The nodes of a sequence, as a set. */
  function Elements(s: seq<Node>): set<Node> {
    set n | n in s
  }

  /** The children of `children` that `add_children` pushes onto the queue,
      in order: each one not yet seen, and only its first occurrence. */
  function Unseen(children: seq<Node>, seen: set<Node>): (r: seq<Node>)
    ensures forall c :: c in r <==> c in children && c !in seen
    ensures NoDuplicates(r)
  {
    if children == [] then []
    else if children[0] in seen then Unseen(children[1..], seen)
    else [children[0]] + Unseen(children[1..], seen + {children[0]})
  }

  /** The closure `add_children`: insert each child into `seen` and push it
      onto the queue when the insertion was new. */
  method AddChildren(queue: seq<Node>, seen: set<Node>, children: seq<Node>)
    returns (queue': seq<Node>, seen': set<Node>)
    ensures seen' == seen + Elements(children)
    ensures queue' == queue + Unseen(children, seen)
  {
    queue', seen' := queue, seen;
    for i := 0 to |children|
      invariant queue + Unseen(children, seen) == queue' + Unseen(children[i..], seen')
      invariant seen + Elements(children) == seen' + Elements(children[i..])
    {
      assert children[i..] == [children[i]] + children[i + 1..];
      var child := children[i];
      if child !in seen' {
        seen' := seen' + {child};
        queue' := queue' + [child];
      }
    }
  }

  /** One turn of the loop after `source` is dequeued: the `match` on its
      shape, handing its children to `add_children`, or `MoreThanOne` from
      `one_choice` / `one_split`, which ends the whole check. */
  method Visit(f: Forest, source: Node, queue: seq<Node>, seen: set<Node>)
    returns (r: Result<(seq<Node>, set<Node>), MoreThanOne>)
    requires WellFormed(f) && source in f
    ensures r.Err? <==> LocallyAmbiguous(f[source])
    ensures r.Ok? ==> r.value.0 == queue + Unseen(Children(f[source]), seen)
    ensures r.Ok? ==> r.value.1 == seen + Elements(Children(f[source]))
  {
    var queue', seen' := queue, seen;
    match f[source] {
      case Opaque =>
      case Alias(child) =>
        queue', seen' := AddChildren(queue, seen, [child]);
      case Opt(o) =>
        if o.Some? {
          queue', seen' := AddChildren(queue, seen, [o.value]);
        }
      case Choice(alternatives) =>
        var one := One(alternatives);
        if one.Err? {
          return Err(MoreThanOne);
        }
        queue', seen' := AddChildren(queue, seen, [one.value]);
      case Split(splits) =>
        var one := One(splits);
        if one.Err? {
          return Err(MoreThanOne);
        }
        queue', seen' := AddChildren(queue, seen, [one.value.0, one.value.1]);
    }
    return Ok((queue', seen'));
  }

  /** Node `n` has been dequeued: it is not locally ambiguous and all its
      children have been inserted into `seen`. */
  predicate Processed(f: Forest, n: Node, seen: set<Node>) {
    n in f && !LocallyAmbiguous(f[n]) && forall c :: c in Children(f[n]) ==> c in seen
  }

  /**
    The loop invariant of the walk.  `order` lists every node ever enqueued,
    in order, and the first `done` of them have been dequeued: no node is
    enqueued twice, `seen` holds exactly the enqueued nodes, the root among
    them, every one of them is reachable, and every dequeued one is processed.
   */
  ghost predicate Walk(f: Forest, root: Node, order: seq<Node>, done: nat, seen: set<Node>) {
    && done <= |order|
    && |order| > 0 && order[0] == root
    && NoDuplicates(order)
    && (forall n :: n in seen <==> n in order)
    && seen <= f.Keys
    && (forall n {:trigger Reachable(f, root, n)} :: n in seen ==> Reachable(f, root, n))
    && (forall i {:trigger Processed(f, order[i], seen)} :: 0 <= i < done ==> Processed(f, order[i], seen))
  }

  /** What the check has established when it stops at an ambiguous node:
      `visited` lists the nodes dequeued so far, without repetition, all of
      them reachable; the last is locally ambiguous and none before it is. */
  ghost predicate StoppedAt(f: Forest, root: Node, visited: seq<Node>) {
    && |visited| > 0 && visited[0] == root && NoDuplicates(visited)
    && (forall i :: 0 <= i < |visited| ==> Reachable(f, root, visited[i]) && visited[i] in f)
    && LocallyAmbiguous(f[visited[|visited| - 1]])
    && (forall i :: 0 <= i < |visited| - 1 ==> !LocallyAmbiguous(f[visited[i]]))
  }

  /** One turn of the `while let` loop: pop the front of the queue and visit it.
      The ghost `order` grows by exactly the nodes pushed. */
  method Step(f: Forest, queue: seq<Node>, seen: set<Node>, ghost root: Node, ghost order: seq<Node>, ghost done: nat)
    returns (r: Result<(seq<Node>, set<Node>), MoreThanOne>, ghost order': seq<Node>)
    requires WellFormed(f) && Walk(f, root, order, done, seen)
    requires queue == order[done..] && queue != []
    ensures r.Err? ==> order' == order && StoppedAt(f, root, order[..done + 1]) && !Unambiguous(f, root)
    ensures r.Ok? ==> Walk(f, root, order', done + 1, r.value.1) && r.value.0 == order'[done + 1..]
    ensures r.Ok? ==> |f.Keys - r.value.1| < |f.Keys - seen| || (r.value.1 == seen && |r.value.0| < |queue|)
  {
    var source := queue[0];
    var rest := queue[1..];
    assert rest == order[done + 1..];
    order' := order;
    r := Visit(f, source, rest, seen);
    if r.Err? {
      AmbiguityFound(f, root, order, done, seen);
      return;
    }
    order' := order + Unseen(Children(f[source]), seen);
    Enqueue(f, root, order, done, seen, order', r.value.0, r.value.1);
    EnqueueShrinks(f, source, queue, seen, r.value.0, r.value.1);
  }

  /**
    The checker proper. Besides its result it yields, as a ghost, the nodes
    it dequeued, in order.  Every one of them is reachable and none is
    dequeued twice, so the number of iterations is bounded by the number of
    distinct reachable nodes, however many derivations share them.  On
    `Err` the walk stopped at the first ambiguous node it dequeued.
   */
  method AmbiguityCheck(f: Forest, root: Node) returns (r: Result<(), MoreThanOne>, ghost visited: seq<Node>)
    requires WellFormed(f) && root in f
    ensures r.Ok? <==> Unambiguous(f, root)
    ensures |visited| > 0 && visited[0] == root && NoDuplicates(visited)
    ensures forall i :: 0 <= i < |visited| ==> Reachable(f, root, visited[i]) && visited[i] in f
    ensures r.Err? ==> LocallyAmbiguous(f[visited[|visited| - 1]])
    ensures r.Err? ==> forall i :: 0 <= i < |visited| - 1 ==> !LocallyAmbiguous(f[visited[i]])
    ensures r.Ok? ==> forall n :: Reachable(f, root, n) <==> n in visited
    ensures |visited| <= |ReachableSet(f, root)|
  {
    var queue := [root];
    var seen := {root};
    ghost var order := [root];
    ghost var done := 0;
    WalkStart(f, root);

    while queue != []
      invariant Walk(f, root, order, done, seen) && queue == order[done..]
      invariant queue == [] ==> done > 0
      decreases |f.Keys - seen|, |queue|
    {
      var step;
      step, order := Step(f, queue, seen, root, order, done);
      if step.Err? {
        visited := order[..done + 1];
        VisitedBound(f, root, visited);
        return Err(MoreThanOne), visited;
      }
      queue, seen := step.value.0, step.value.1;
      done := done + 1;
    }
    visited := order;
    WalkFinished(f, root, order, seen);
    r := Ok(());
  }

  /** The facts the early `return Err(MoreThanOne)` relies on: the node just
      dequeued is reachable and ambiguous, and those before it were not. */
  lemma AmbiguityFound(f: Forest, root: Node, order: seq<Node>, done: nat, seen: set<Node>)
    requires done < |order| && Walk(f, root, order, done, seen)
    requires LocallyAmbiguous(f[order[done]])
    ensures !Unambiguous(f, root) && StoppedAt(f, root, order[..done + 1])
  {
    var visited := order[..done + 1];
    assert order[done] in seen;
    forall i | 0 <= i <= done ensures Reachable(f, root, visited[i]) && visited[i] in f {
      assert visited[i] == order[i] && order[i] in seen;
    }
    forall i | 0 <= i < done ensures !LocallyAmbiguous(f[visited[i]]) {
      assert visited[i] == order[i] && Processed(f, order[i], seen);
    }
  }

  /** Dequeuing the next node, which is not locally ambiguous, and pushing its
      unseen children keeps the invariant of the walk. */
  lemma Enqueue(f: Forest, root: Node, order: seq<Node>, done: nat, seen: set<Node>,
                order': seq<Node>, queue': seq<Node>, seen': set<Node>)
    requires WellFormed(f)
    requires done < |order| && Walk(f, root, order, done, seen)
    requires !LocallyAmbiguous(f[order[done]])
    requires order' == order + Unseen(Children(f[order[done]]), seen)
    requires queue' == order[done + 1..] + Unseen(Children(f[order[done]]), seen)
    requires seen' == seen + Elements(Children(f[order[done]]))
    ensures Walk(f, root, order', done + 1, seen') && queue' == order'[done + 1..]
  {
    var source := order[done];
    var children := Children(f[source]);
    var pushed := Unseen(children, seen);
    assert source in seen;
    DistinctAppend(order, pushed, order');
    ChildrenReachable(f, root, source, seen, children, seen');
    SeenMatchesOrder(order, seen, children, order', seen');
    assert Processed(f, source, seen');
    ProcessedGrows(f, order, order', done, seen, seen');
    SliceAppend(order, pushed, done + 1);
  }

  /** Each turn makes progress: either the unseen part of the forest shrinks,
      or nothing new was seen and the queue lost its front. */
  lemma EnqueueShrinks(f: Forest, source: Node, queue: seq<Node>, seen: set<Node>, queue': seq<Node>, seen': set<Node>)
    requires WellFormed(f) && source in f && seen <= f.Keys && queue != []
    requires queue' == queue[1..] + Unseen(Children(f[source]), seen)
    requires seen' == seen + Elements(Children(f[source]))
    ensures |f.Keys - seen'| < |f.Keys - seen| || (seen' == seen && |queue'| < |queue|)
  {
    var pushed := Unseen(Children(f[source]), seen);
    assert seen' <= f.Keys;
    MeasureDecreases(f.Keys, seen, seen', pushed);
  }

  lemma SliceAppend(a: seq<Node>, b: seq<Node>, k: nat)
    requires k <= |a|
    ensures (a + b)[k..] == a[k..] + b
  {
  }

  /** `seen` and the enqueued nodes grow together. */
  lemma SeenMatchesOrder(order: seq<Node>, seen: set<Node>, children: seq<Node>, order': seq<Node>, seen': set<Node>)
    requires forall n :: n in seen <==> n in order
    requires order' == order + Unseen(children, seen) && seen' == seen + Elements(children)
    ensures forall n :: n in seen' <==> n in order'
  {
  }

  /** Processed nodes stay processed as `seen` grows and the order is extended. */
  lemma ProcessedGrows(f: Forest, order: seq<Node>, order': seq<Node>, done: nat, seen: set<Node>, seen': set<Node>)
    requires done < |order| <= |order'| && order'[..|order|] == order
    requires seen <= seen'
    requires forall i :: 0 <= i < done ==> Processed(f, order[i], seen)
    requires Processed(f, order[done], seen')
    ensures forall i :: 0 <= i < done + 1 ==> Processed(f, order'[i], seen')
  {
  }

  /** Appending fresh, distinct nodes keeps a sequence free of repetitions. */
  lemma DistinctAppend(order: seq<Node>, pushed: seq<Node>, order': seq<Node>)
    requires NoDuplicates(order) && NoDuplicates(pushed)
    requires forall n :: n in pushed ==> n !in order
    requires order' == order + pushed
    ensures NoDuplicates(order')
  {
    forall i, j | 0 <= i < j < |order'| ensures order'[i] != order'[j] {
      if j >= |order| && i < |order| {
        assert order'[j] in pushed && order'[i] in order;
      } else if i >= |order| {
        assert order'[i] == pushed[i - |order|] && order'[j] == pushed[j - |order|];
      }
    }
  }

  /** The children of a reachable node are reachable nodes of the forest. */
  lemma ChildrenReachable(f: Forest, root: Node, source: Node, seen: set<Node>, children: seq<Node>, seen': set<Node>)
    requires WellFormed(f) && source in f && children == Children(f[source])
    requires Reachable(f, root, source)
    requires seen <= f.Keys && forall n :: n in seen ==> Reachable(f, root, n)
    requires seen' == seen + Elements(children)
    ensures seen' <= f.Keys
    ensures forall n :: n in seen' ==> Reachable(f, root, n)
  {
    forall n | n in seen' ensures n in f && Reachable(f, root, n) {
      if n !in seen {
        assert Edge(f, source, n);
        ReachableStep(f, root, source, n);
      }
    }
  }

  /** An exhausted queue leaves `seen` closed under children, so it holds the
      whole reachable part of the forest, none of it ambiguous. */
  lemma WalkFinished(f: Forest, root: Node, order: seq<Node>, seen: set<Node>)
    requires Walk(f, root, order, |order|, seen)
    ensures Unambiguous(f, root)
    ensures |order| > 0 && order[0] == root && NoDuplicates(order)
    ensures forall i :: 0 <= i < |order| ==> Reachable(f, root, order[i]) && order[i] in f
    ensures forall n :: Reachable(f, root, n) <==> n in order
    ensures |order| <= |ReachableSet(f, root)|
  {
    forall n | n in seen ensures Processed(f, n, seen) {
      var i :| 0 <= i < |order| && order[i] == n;
    }
    ClosedContainsReachable(f, root, seen);
    forall n | Reachable(f, root, n) ensures n in f && !LocallyAmbiguous(f[n]) {
      var i :| 0 <= i < |order| && order[i] == n;
      assert Processed(f, order[i], seen);
    }
    VisitedBound(f, root, order);
  }

  /** The walk starts with the root enqueued and seen, nothing dequeued. */
  lemma WalkStart(f: Forest, root: Node)
    requires root in f
    ensures Walk(f, root, [root], 0, {root})
  {
    ReachableRoot(f, root);
  }

  /** Either no new node was seen, or the unseen part of the forest shrank. */
  lemma MeasureDecreases(keys: set<Node>, seen: set<Node>, seen': set<Node>, pushed: seq<Node>)
    requires seen <= seen' <= keys
    requires forall n :: n in seen' <==> n in seen || n in pushed
    requires forall n :: n in pushed ==> n !in seen
    ensures pushed == [] ==> seen' == seen
    ensures pushed != [] ==> |keys - seen'| < |keys - seen|
  {
    if pushed != [] {
      var c := pushed[0];
      assert keys - seen' <= (keys - seen) - {c};
      SubsetCardinality(keys - seen', (keys - seen) - {c});
    }
  }

  /** The walk dequeues no more nodes than there are distinct reachable ones. */
  lemma VisitedBound(f: Forest, root: Node, visited: seq<Node>)
    requires NoDuplicates(visited)
    requires forall i :: 0 <= i < |visited| ==> Reachable(f, root, visited[i]) && visited[i] in f
    ensures |visited| <= |ReachableSet(f, root)|
  {
    DistinctBound(visited, ReachableSet(f, root));
  }

  /** A sequence without repetitions drawn from a set is no longer than the set. */
  lemma {:induction false} DistinctBound(s: seq<Node>, elements: set<Node>)
    requires NoDuplicates(s)
    requires forall i :: 0 <= i < |s| ==> s[i] in elements
    ensures |s| <= |elements|
    decreases |s|
  {
    if s != [] {
      var last := s[|s| - 1];
      DistinctBound(s[..|s| - 1], elements - {last});
    }
  }

  lemma {:induction false} SubsetCardinality(a: set<Node>, b: set<Node>)
    requires a <= b
    ensures |a| <= |b|
    decreases |b|
  {
    if a != {} {
      var x :| x in a;
      SubsetCardinality(a - {x}, b - {x});
    }
  }
}
