/**
  The shared packed parse forest (SPPF) as the ambiguity checker sees it,
  and the specification of "unambiguous": no node reachable from the root
  through the children the checker follows is locally ambiguous.
 */
module Forest {
  import opened Wrappers

  /** An opaque forest node identifier; the engine deduplicates nodes,
      so one node may be the child of many parents (a DAG, not a tree). */
  type Node = nat

  /** A node's shape, together with what the engine answers when asked about
      its children: the alternatives of a `Choice` and the (left, right)
      pairings of a `Split`. */
  datatype Shape =
    | Opaque
    | Alias(child: Node)
    | Opt(opt: Option<Node>)
    | Choice(alternatives: seq<Node>)
    | Split(splits: seq<(Node, Node)>)

  /** The forest storage: the shape of every node the engine built. */
  type Forest = map<Node, Shape>

  /** More than one alternative or more than one split: more than one derivation here. */
  predicate LocallyAmbiguous(s: Shape) {
    (s.Choice? && |s.alternatives| > 1) || (s.Split? && |s.splits| > 1)
  }

  /** The children the checker goes on to: the alias child, the present optional
      child, the unique alternative, both halves of the unique split.
      A locally ambiguous node has none, since the check stops there. */
  function Children(s: Shape): (r: seq<Node>)
    ensures |r| <= 2
    ensures s.Opaque? || LocallyAmbiguous(s) ==> r == []
    ensures s.Choice? && |s.alternatives| == 1 ==> r == s.alternatives
    ensures s.Split? && |s.splits| == 1 ==> r == [s.splits[0].0, s.splits[0].1]
  {
    match s
    case Opaque => []
    case Alias(c) => [c]
    case Opt(o) => if o.Some? then [o.value] else []
    case Choice(alts) => if |alts| == 1 then [alts[0]] else []
    case Split(splits) => if |splits| == 1 then [splits[0].0, splits[0].1] else []
  }

  /** What the engine guarantees of a forest: a `Choice` has at least one
      alternative, a `Split` at least one pairing, and every child the checker
      may follow is itself a node of the forest. */
  predicate WellFormed(f: Forest) {
    forall n :: n in f ==>
      && (f[n].Choice? ==> |f[n].alternatives| > 0)
      && (f[n].Split? ==> |f[n].splits| > 0)
      && (forall c :: c in Children(f[n]) ==> c in f)
  }

  /** The checker may step from `a` to `b`. */
  predicate Edge(f: Forest, a: Node, b: Node) {
    a in f && b in Children(f[a])
  }

  /** `p` is a walk from `root` to `n` along edges. */
  ghost predicate PathTo(f: Forest, root: Node, n: Node, p: seq<Node>) {
    && |p| > 0
    && p[0] == root
    && p[|p| - 1] == n
    && forall i :: 0 <= i < |p| - 1 ==> Edge(f, p[i], p[i + 1])
  }

  ghost predicate Reachable(f: Forest, root: Node, n: Node) {
    exists p :: PathTo(f, root, n, p)
  }

  /** The distinct nodes reachable from the root. */
  ghost function ReachableSet(f: Forest, root: Node): set<Node> {
    set n | n in f && Reachable(f, root, n)
  }

  /** The specification of `ambiguity_check` returning `Ok(())`. */
  ghost predicate Unambiguous(f: Forest, root: Node) {
    forall n :: Reachable(f, root, n) ==> n in f && !LocallyAmbiguous(f[n])
  }

  /** `s` contains every child of every node in it: nothing more is reachable. */
  ghost predicate ClosedUnderChildren(f: Forest, s: set<Node>) {
    forall n :: n in s ==> n in f && forall c :: c in Children(f[n]) ==> c in s
  }

  lemma ReachableRoot(f: Forest, root: Node)
    ensures Reachable(f, root, root)
  {
    assert PathTo(f, root, root, [root]);
  }

  /** Extending a walk by one edge. */
  lemma ReachableStep(f: Forest, root: Node, a: Node, b: Node)
    requires Reachable(f, root, a) && Edge(f, a, b)
    ensures Reachable(f, root, b)
  {
    var p :| PathTo(f, root, a, p);
    var q := p + [b];
    assert forall i :: 0 <= i < |p| - 1 ==> Edge(f, q[i], q[i + 1]) by {
      forall i | 0 <= i < |p| - 1 ensures Edge(f, q[i], q[i + 1]) {
        assert q[i] == p[i] && q[i + 1] == p[i + 1];
      }
    }
    assert PathTo(f, root, b, q);
  }

  /** A set that holds the root and is closed under children holds every
      reachable node: the checker's final `seen` set covers the reachable part. */
  lemma {:induction false} ClosedContainsPath(f: Forest, root: Node, s: set<Node>, n: Node, p: seq<Node>)
    requires root in s && ClosedUnderChildren(f, s)
    requires PathTo(f, root, n, p)
    ensures n in s
    decreases |p|
  {
    if |p| > 1 {
      var q := p[..|p| - 1];
      var m := q[|q| - 1];
      assert PathTo(f, root, m, q);
      ClosedContainsPath(f, root, s, m, q);
      assert Edge(f, m, n);
    }
  }

  lemma ClosedContainsReachable(f: Forest, root: Node, s: set<Node>)
    requires root in s && ClosedUnderChildren(f, s)
    ensures forall n :: Reachable(f, root, n) ==> n in s
  {
    forall n | Reachable(f, root, n) ensures n in s {
      var p :| PathTo(f, root, n, p);
      ClosedContainsPath(f, root, s, n, p);
    }
  }

  /** Unambiguity is decided node by node: the forest is unambiguous exactly
      when the root is not locally ambiguous and every child the root leads
      to is the root of an unambiguous forest. */
  lemma {:induction false} UnambiguousUnfolds(f: Forest, root: Node)
    requires WellFormed(f) && root in f
    ensures Unambiguous(f, root) <==>
      && !LocallyAmbiguous(f[root])
      && forall c :: c in Children(f[root]) ==> Unambiguous(f, c)
  {
    if Unambiguous(f, root) {
      ReachableRoot(f, root);
      forall c, n | c in Children(f[root]) && Reachable(f, c, n)
        ensures n in f && !LocallyAmbiguous(f[n])
      {
        ReachableFromChild(f, root, c, n);
      }
    }
    if !LocallyAmbiguous(f[root]) && forall c :: c in Children(f[root]) ==> Unambiguous(f, c) {
      forall n | Reachable(f, root, n) ensures n in f && !LocallyAmbiguous(f[n]) {
        var p :| PathTo(f, root, n, p);
        if |p| > 1 {
          var c := p[1];
          var q := p[1..];
          assert Edge(f, root, c);
          assert PathTo(f, c, n, q) by {
            forall i | 0 <= i < |q| - 1 ensures Edge(f, q[i], q[i + 1]) {
              assert q[i] == p[i + 1] && q[i + 1] == p[i + 2];
            }
          }
          assert Reachable(f, c, n);
        }
      }
    }
  }

  /** A node reachable from a child of the root is reachable from the root. */
  lemma ReachableFromChild(f: Forest, root: Node, c: Node, n: Node)
    requires Edge(f, root, c) && Reachable(f, c, n)
    ensures Reachable(f, root, n)
  {
    var p :| PathTo(f, c, n, p);
    var q := [root] + p;
    assert forall i :: 1 <= i < |q| - 1 ==> q[i] == p[i - 1] && q[i + 1] == p[i];
    assert PathTo(f, root, n, q);
  }
}
