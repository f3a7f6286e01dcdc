/** The scene graph the search walks: a rooted, ordered tree of named nodes.
    A `Transform` of the engine is modelled by its name and its ordered
    children; the search only reads it. */
module SceneTree {

  datatype Node = Node(name: string, children: seq<Node>)

  /** Number of nodes in the tree rooted at `n`. */
  function Size(n: Node): nat
    decreases n, 1
  {
    1 + SumSize(n.children)
  }

  /** Number of nodes in a forest (a queue of trees). */
  function SumSize(ts: seq<Node>): nat
    decreases ts, 0
  {
    if ts == [] then 0 else Size(ts[0]) + SumSize(ts[1..])
  }

  /** The next generation of a forest: the children of every tree, in order,
      exactly what enqueuing each node's children one after the other yields. */
  function Children(ts: seq<Node>): seq<Node>
  {
    if ts == [] then [] else ts[0].children + Children(ts[1..])
  }

  /** `n` is `t` itself or one of its descendants. */
  ghost predicate Contains(t: Node, n: Node)
    decreases t
  {
    t == n || exists i :: 0 <= i < |t.children| && Contains(t.children[i], n)
  }

  /** `n` lies in one of the trees of the forest `ts`. */
  ghost predicate InForest(ts: seq<Node>, n: Node)
  {
    exists i :: 0 <= i < |ts| && Contains(ts[i], n)
  }

  /** Generation `k` of a forest: the nodes at depth `k` below its roots,
      left to right. */
  function Generation(ts: seq<Node>, k: nat): seq<Node>
    decreases k
  {
    if k == 0 then ts else Generation(Children(ts), k - 1)
  }

  /** Level order of a forest: every generation in turn, shallowest first. */
  function LevelOrder(ts: seq<Node>): seq<Node>
    decreases SumSize(ts)
  {
    if ts == [] then []
    else
      ChildrenSize(ts);
      ts + LevelOrder(Children(ts))
  }

  /** Pre-order enumeration of a tree: every node exactly once. */
  function Preorder(n: Node): seq<Node>
    decreases n, 1
  {
    [n] + PreorderAll(n.children)
  }

  function PreorderAll(ts: seq<Node>): seq<Node>
    decreases ts, 0
  {
    if ts == [] then [] else Preorder(ts[0]) + PreorderAll(ts[1..])
  }

  lemma {:induction false} SumSizeConcat(a: seq<Node>, b: seq<Node>)
    ensures SumSize(a + b) == SumSize(a) + SumSize(b)
    decreases |a|
  {
    if a == [] {
      assert a + b == b;
    } else {
      assert (a + b)[1..] == a[1..] + b;
      SumSizeConcat(a[1..], b);
    }
  }

  /** Dequeuing the head of a queue and enqueuing its children removes
      exactly one node from the queue's forest. */
  lemma DequeueStep(queue: seq<Node>)
    requires queue != []
    ensures SumSize(queue[1..] + queue[0].children) == SumSize(queue) - 1
  {
    SumSizeConcat(queue[1..], queue[0].children);
  }

  lemma {:induction false} ChildrenConcat(a: seq<Node>, b: seq<Node>)
    ensures Children(a + b) == Children(a) + Children(b)
    decreases |a|
  {
    if a == [] {
      assert a + b == b;
    } else {
      assert (a + b)[1..] == a[1..] + b;
      ChildrenConcat(a[1..], b);
    }
  }

  /** Each tree of a forest loses exactly its root when replaced by its
      children, so the next generation is strictly smaller. */
  lemma {:induction false} ChildrenSize(ts: seq<Node>)
    ensures SumSize(Children(ts)) == SumSize(ts) - |ts|
    decreases |ts|
  {
    if ts != [] {
      ChildrenSize(ts[1..]);
      SumSizeConcat(ts[0].children, Children(ts[1..]));
    }
  }

  lemma {:induction false} PreorderAllConcat(a: seq<Node>, b: seq<Node>)
    ensures PreorderAll(a + b) == PreorderAll(a) + PreorderAll(b)
    decreases |a|
  {
    if a == [] {
      assert a + b == b;
    } else {
      assert (a + b)[1..] == a[1..] + b;
      PreorderAllConcat(a[1..], b);
    }
  }

  /** The pre-order enumeration lists as many nodes as the forest has. */
  lemma {:induction false} PreorderAllLength(ts: seq<Node>)
    ensures |PreorderAll(ts)| == SumSize(ts)
    decreases ts, 0
  {
    if ts != [] {
      PreorderLength(ts[0]);
      PreorderAllLength(ts[1..]);
    }
  }

  lemma {:induction false} PreorderLength(n: Node)
    ensures |Preorder(n)| == Size(n)
    decreases n, 1
  {
    PreorderAllLength(n.children);
  }
}
