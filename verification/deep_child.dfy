/** `Helpers.FindDeepChild`: breadth-first search for the first node with a
    given name in the tree below (and including) a start node. The loop over
    an explicit queue is modelled by `Search`, one recursive call per
    iteration, with the queue as a sequence whose head is dequeued next. */
module DeepChild {
  import opened Wrappers
  import opened SceneTree

  /** One run of the search loop on `queue`: dequeue the head, return it if
      its name matches, otherwise enqueue its children behind the rest.
      An empty queue ends the loop with `null`. */
  function Search(queue: seq<Node>, aName: string): (r: Option<Node>)
    ensures r.Some? ==> r.value.name == aName && InForest(queue, r.value)
    ensures r.None? <==> forall n :: InForest(queue, n) ==> n.name != aName
    decreases SumSize(queue)
  {
    if queue == [] then None
    else
      var c := queue[0];
      if c.name == aName then
        assert Contains(c, c);
        Some(c)
      else
        var next := queue[1..] + c.children;
        DequeueStep(queue);
        var r := Search(next, aName);
        ForestStep(queue);
        r
  }

  /** The search started from a queue holding only `aParent`. */
  function FindDeepChild(aParent: Node, aName: string): (r: Option<Node>)
    ensures aParent.name == aName ==> r == Some(aParent)
    ensures r.Some? ==> r.value.name == aName && Contains(aParent, r.value)
    ensures r.None? <==> forall n :: Contains(aParent, n) ==> n.name != aName
  {
    var r := Search([aParent], aName);
    SingletonForest(aParent);
    r
  }

  /** The order in which the loop dequeues nodes if no name ever matches. */
  function Visits(queue: seq<Node>): (r: seq<Node>)
    ensures |r| == SumSize(queue)
    ensures queue != [] ==> r != [] && r[0] == queue[0]
    decreases SumSize(queue)
  {
    if queue == [] then []
    else
      DequeueStep(queue);
      [queue[0]] + Visits(queue[1..] + queue[0].children)
  }

  /** The nodes the loop actually dequeues when searching for `aName`. */
  function Dequeued(queue: seq<Node>, aName: string): (r: seq<Node>)
    ensures |r| <= SumSize(queue)
    ensures queue != [] ==> r != [] && r[0] == queue[0]
    ensures forall j :: 0 <= j < |r| - 1 ==> r[j].name != aName
    decreases SumSize(queue)
  {
    if queue == [] then []
    else if queue[0].name == aName then [queue[0]]
    else
      DequeueStep(queue);
      [queue[0]] + Dequeued(queue[1..] + queue[0].children, aName)
  }

  /** No element of `s` carries the name `aName`. */
  ghost predicate NoMatch(s: seq<Node>, aName: string)
  {
    forall j :: 0 <= j < |s| ==> s[j].name != aName
  }

  /** `s[i]` is the first element of `s` named `aName`. */
  ghost predicate FirstMatchAt(s: seq<Node>, aName: string, i: int)
  {
    && 0 <= i < |s|
    && s[i].name == aName
    && forall j :: 0 <= j < i ==> s[j].name != aName
  }

  /** The first element of a sequence that carries the name `aName`. */
  function FirstMatch(s: seq<Node>, aName: string): (r: Option<Node>)
    ensures r.None? <==> NoMatch(s, aName)
    ensures r.Some? ==> exists i :: FirstMatchAt(s, aName, i) && s[i] == r.value
  {
    if s == [] then None
    else if s[0].name == aName then
      assert FirstMatchAt(s, aName, 0);
      Some(s[0])
    else
      var r := FirstMatch(s[1..], aName);
      assert r.Some? ==> exists i :: FirstMatchAt(s, aName, i) && s[i] == r.value by {
        if r.Some? {
          var i :| FirstMatchAt(s[1..], aName, i) && s[1..][i] == r.value;
          assert FirstMatchAt(s, aName, i + 1);
        }
      }
      r
  }

  // ---------------------------------------------------------------------------
  // Helper facts about forests

  lemma ForestStep(queue: seq<Node>)
    requires queue != []
    ensures forall n ::
      InForest(queue, n) <==> n == queue[0] || InForest(queue[1..] + queue[0].children, n)
  {
    var c := queue[0];
    var next := queue[1..] + c.children;
    forall n
      ensures InForest(queue, n) <==> n == c || InForest(next, n)
    {
      if InForest(queue, n) && n != c {
        var i :| 0 <= i < |queue| && Contains(queue[i], n);
        if i == 0 {
          var k :| 0 <= k < |c.children| && Contains(c.children[k], n);
          assert next[|queue| - 1 + k] == c.children[k];
        } else {
          assert next[i - 1] == queue[i];
        }
      }
      if InForest(next, n) {
        var i :| 0 <= i < |next| && Contains(next[i], n);
        if i < |queue| - 1 {
          assert queue[i + 1] == next[i];
        } else {
          assert c.children[i - (|queue| - 1)] == next[i];
          assert Contains(queue[0], n);
        }
      }
      if n == c {
        assert Contains(queue[0], n);
      }
    }
  }

  lemma SingletonForest(t: Node)
    ensures forall n :: InForest([t], n) <==> Contains(t, n)
  {
    forall n | Contains(t, n)
      ensures InForest([t], n)
    {
      assert [t][0] == t;
    }
  }

  // ---------------------------------------------------------------------------
  // Properties

  /** The loop returns the first node of its dequeue order that matches. */
  lemma {:induction false} SearchIsFirstVisit(queue: seq<Node>, aName: string)
    ensures Search(queue, aName) == FirstMatch(Visits(queue), aName)
    decreases SumSize(queue)
  {
    if queue != [] {
      var next := queue[1..] + queue[0].children;
      DequeueStep(queue);
      SearchIsFirstVisit(next, aName);
      assert Visits(queue)[1..] == Visits(next);
    }
  }

  lemma VisitsUnfold(queue: seq<Node>)
    requires queue != []
    ensures Visits(queue) == [queue[0]] + Visits(queue[1..] + queue[0].children)
  {
  }

  lemma LevelOrderUnfold(ts: seq<Node>)
    requires ts != []
    ensures LevelOrder(ts) == ts + LevelOrder(Children(ts))
  {
  }

  /** Draining the queue from "rest of this generation + children of the part
      already dequeued" yields the rest of this generation followed by all
      deeper generations in level order. */
  lemma {:induction false} VisitsByGeneration(xs: seq<Node>, ys: seq<Node>)
    ensures Visits(xs + Children(ys)) == xs + LevelOrder(Children(ys + xs))
    decreases SumSize(xs + Children(ys)), if xs == [] then 1 else 0
  {
    if xs == [] {
      assert xs + Children(ys) == Children(ys);
      assert ys + xs == ys;
      var cs := Children(ys);
      if cs != [] {
        assert Children([]) == [];
        assert cs + Children([]) == cs;
        VisitsByGeneration(cs, []);
        assert [] + cs == cs;
        LevelOrderUnfold(cs);
      }
    } else {
      var x := xs[0];
      var q := xs + Children(ys);
      var next := xs[1..] + Children(ys + [x]);
      assert q[1..] + x.children == next by {
        assert q[1..] == xs[1..] + Children(ys);
        ChildrenConcat(ys, [x]);
        assert Children([x]) == x.children + Children([]);
      }
      DequeueStep(q);
      VisitsUnfold(q);
      VisitsByGeneration(xs[1..], ys + [x]);
      assert ys + [x] + xs[1..] == ys + xs;
      assert [x] + xs[1..] == xs;
    }
  }

  /** The dequeue order of the loop is exactly level order. */
  lemma VisitsAreLevelOrder(queue: seq<Node>)
    ensures Visits(queue) == LevelOrder(queue)
  {
    VisitsByGeneration(queue, []);
    assert queue + Children([]) == queue;
    assert [] + queue == queue;
  }

  /** Each node of the forest is dequeued exactly once when nothing matches:
      the dequeue order is a permutation of the pre-order enumeration. */
  lemma {:induction false} VisitsEachNodeOnce(queue: seq<Node>)
    ensures multiset(Visits(queue)) == multiset(PreorderAll(queue))
    ensures |Visits(queue)| == SumSize(queue)
    decreases SumSize(queue)
  {
    if queue != [] {
      var c := queue[0];
      var next := queue[1..] + c.children;
      DequeueStep(queue);
      VisitsEachNodeOnce(next);
      PreorderAllConcat(queue[1..], c.children);
      assert PreorderAll(queue) == [c] + PreorderAll(c.children) + PreorderAll(queue[1..]);
    }
    PreorderAllLength(queue);
  }

  /** The dequeue order holds exactly the nodes of the forest. */
  lemma {:induction false} VisitsCoverForest(queue: seq<Node>, n: Node)
    ensures n in Visits(queue) <==> InForest(queue, n)
    decreases SumSize(queue)
  {
    if queue != [] {
      var next := queue[1..] + queue[0].children;
      DequeueStep(queue);
      VisitsCoverForest(next, n);
      ForestStep(queue);
    }
  }

  /** The loop dequeues a prefix of the level order, stops at the first match,
      and dequeues every node of the forest when nothing matches. */
  lemma {:induction false} DequeuedIsPrefix(queue: seq<Node>, aName: string)
    ensures Dequeued(queue, aName) <= Visits(queue)
    ensures Search(queue, aName).None? ==> Dequeued(queue, aName) == Visits(queue)
    ensures Search(queue, aName).Some? ==>
      Dequeued(queue, aName) != [] && Dequeued(queue, aName)[|Dequeued(queue, aName)| - 1] == Search(queue, aName).value
    ensures forall j :: 0 <= j < |Dequeued(queue, aName)| - 1 ==> Dequeued(queue, aName)[j].name != aName
    decreases SumSize(queue)
  {
    if queue != [] && queue[0].name != aName {
      var next := queue[1..] + queue[0].children;
      DequeueStep(queue);
      DequeuedIsPrefix(next, aName);
      assert Dequeued(queue, aName)[1..] == Dequeued(next, aName);
    }
  }

  /** The search from a single node dequeues at most as many nodes as the
      tree has, and exactly that many when the name is absent. */
  lemma DequeueCount(aParent: Node, aName: string)
    ensures |Dequeued([aParent], aName)| <= Size(aParent)
    ensures FindDeepChild(aParent, aName).None? ==> |Dequeued([aParent], aName)| == Size(aParent)
  {
    DequeuedIsPrefix([aParent], aName);
    VisitsEachNodeOnce([aParent]);
    assert SumSize([aParent]) == Size(aParent) + SumSize([]);
  }

  /** `FindDeepChild` returns the first matching node in level order. */
  lemma FindDeepChildIsFirstInLevelOrder(aParent: Node, aName: string)
    ensures FindDeepChild(aParent, aName) == FirstMatch(LevelOrder([aParent]), aName)
  {
    SearchIsFirstVisit([aParent], aName);
    VisitsAreLevelOrder([aParent]);
  }

  /** Generation `d` of `ts` holds a match, first at position `i`, and no
      shallower generation holds one. */
  ghost predicate ShallowestMatch(ts: seq<Node>, aName: string, d: nat, i: int)
  {
    && FirstMatchAt(Generation(ts, d), aName, i)
    && forall k: nat :: k < d ==> NoMatch(Generation(ts, k), aName)
  }

  /** A match in level order sits at some depth `d` and position `i` such that
      no shallower node and no earlier node of generation `d` matches. */
  lemma {:induction false} FirstInLevelOrderIsShallowest(ts: seq<Node>, aName: string, n: Node)
    requires FirstMatch(LevelOrder(ts), aName) == Some(n)
    ensures exists d: nat, i :: ShallowestMatch(ts, aName, d, i) && Generation(ts, d)[i] == n
    decreases SumSize(ts)
  {
    var cs := Children(ts);
    ChildrenSize(ts);
    LevelOrderUnfold(ts);
    var m := FirstMatch(ts, aName);
    if m.Some? {
      var i :| FirstMatchAt(ts, aName, i) && ts[i] == m.value;
      assert LevelOrder(ts)[i] == ts[i];
      FirstMatchUnique(LevelOrder(ts), aName, i);
      assert ShallowestMatch(ts, aName, 0, i);
    } else {
      FirstMatchSkip(ts, LevelOrder(cs), aName);
      FirstInLevelOrderIsShallowest(cs, aName, n);
      var d: nat, i :| ShallowestMatch(cs, aName, d, i) && Generation(cs, d)[i] == n;
      forall k: nat | k < d + 1
        ensures NoMatch(Generation(ts, k), aName)
      {
        if k > 0 {
          assert Generation(ts, k) == Generation(cs, k - 1);
        }
      }
      assert ShallowestMatch(ts, aName, d + 1, i);
    }
  }

  lemma FirstMatchUnique(s: seq<Node>, aName: string, i: int)
    requires FirstMatchAt(s, aName, i)
    ensures FirstMatch(s, aName) == Some(s[i])
  {
    var r := FirstMatch(s, aName);
    var k :| FirstMatchAt(s, aName, k) && s[k] == r.value;
  }

  lemma FirstMatchSkip(a: seq<Node>, b: seq<Node>, aName: string)
    requires FirstMatch(a, aName).None?
    ensures FirstMatch(a + b, aName) == FirstMatch(b, aName)
  {
    var r := FirstMatch(b, aName);
    if r.Some? {
      var i :| FirstMatchAt(b, aName, i) && b[i] == r.value;
      assert (a + b)[|a| + i] == b[i];
      FirstMatchUnique(a + b, aName, |a| + i);
    }
  }

  /** `FindDeepChild` prefers shallower nodes, and earlier nodes of the same
      depth: its result is the first match of the shallowest generation
      below `aParent` that holds one. */
  lemma FindDeepChildIsShallowest(aParent: Node, aName: string)
    requires FindDeepChild(aParent, aName).Some?
    ensures exists d: nat, i ::
              ShallowestMatch([aParent], aName, d, i) && Generation([aParent], d)[i] == FindDeepChild(aParent, aName).value
  {
    FindDeepChildIsFirstInLevelOrder(aParent, aName);
    FirstInLevelOrderIsShallowest([aParent], aName, FindDeepChild(aParent, aName).value);
  }

  /** An example tree: A -> [B -> [D, E], C -> [F]]. */
  function ExampleTree(): Node
  {
    Node("A", [Node("B", [Node("D", []), Node("E", [])]), Node("C", [Node("F", [])])])
  }

  /** In the example tree a search for F finds it at depth 2. */
  lemma ExampleFindsDepthTwo()
    ensures FindDeepChild(ExampleTree(), "F") == Some(Node("F", []))
    ensures Node("F", []) in Generation([ExampleTree()], 2)
  {
    ExampleDepthOfF();
    var a := ExampleTree();
    var b, c := a.children[0], a.children[1];
    var d, e, f := b.children[0], b.children[1], c.children[0];
    SearchStep([a], "F");
    assert [a][1..] + a.children == [b, c];
    SearchStep([b, c], "F");
    assert [b, c][1..] + b.children == [c, d, e];
    SearchStep([c, d, e], "F");
    assert [c, d, e][1..] + c.children == [d, e, f];
    SearchStep([d, e, f], "F");
    assert [d, e, f][1..] + d.children == [e, f];
    SearchStep([e, f], "F");
    assert [e, f][1..] + e.children == [f];
  }

  /** One iteration of the loop that does not match. */
  lemma SearchStep(queue: seq<Node>, aName: string)
    requires queue != [] && queue[0].name != aName
    ensures Search(queue, aName) == Search(queue[1..] + queue[0].children, aName)
  {
  }

  /** F lies at depth 2 of the example tree. */
  lemma ExampleDepthOfF()
    ensures Node("F", []) in Generation([ExampleTree()], 2)
  {
    var a := ExampleTree();
    var b, c := a.children[0], a.children[1];
    assert Children([a]) == [b, c];
    assert Children([c]) == c.children + Children([]);
    assert Children([b, c]) == b.children + Children([c]);
    assert Generation([a], 2) == Generation(Children([b, c]), 0);
    assert Children([b, c])[2] == Node("F", []);
  }

  /** In the example tree a search for an absent name dequeues all six nodes
      and returns `null`. */
  lemma ExampleAbsentName()
    ensures FindDeepChild(ExampleTree(), "Z") == None
    ensures |Dequeued([ExampleTree()], "Z")| == 6
  {
    var a := ExampleTree();
    DequeueCount(a, "Z");
    forall n | Contains(a, n)
      ensures n.name != "Z"
    {
      ExampleNames(n);
    }
    assert Size(a) == 6 by {
      var b, c := a.children[0], a.children[1];
      assert Size(b.children[0]) == 1 && Size(b.children[1]) == 1;
      assert SumSize(b.children) == 2;
      assert Size(b) == 3;
      assert Size(c.children[0]) == 1;
      assert Size(c) == 2;
      assert SumSize(a.children) == 5;
    }
  }

  lemma ExampleNames(n: Node)
    requires Contains(ExampleTree(), n)
    ensures n.name in ["A", "B", "C", "D", "E", "F"]
  {
    var a := ExampleTree();
    var b, c := a.children[0], a.children[1];
    if n != a {
      var i :| 0 <= i < |a.children| && Contains(a.children[i], n);
      if i == 0 {
        ExampleNamesBelow(b, n);
      } else {
        ExampleNamesBelow(c, n);
      }
    }
  }

  /** Below B and C of the example tree there are only leaves. */
  lemma ExampleNamesBelow(t: Node, n: Node)
    requires t == Node("B", [Node("D", []), Node("E", [])]) || t == Node("C", [Node("F", [])])
    requires Contains(t, n)
    ensures n.name in ["B", "C", "D", "E", "F"]
  {
    if n != t {
      var j :| 0 <= j < |t.children| && Contains(t.children[j], n);
      var l := t.children[j];
      assert l.children == [];
      assert n == l;
    }
  }

  /** Two nodes named X at depth 1 and one at depth 2: the earlier sibling at
      depth 1 is returned. */
  lemma ExampleShallowestFirst()
    ensures var x1 := Node("X", [Node("p", [])]);
            var root := Node("R", [Node("Y", [Node("X", [])]), x1, Node("X", [Node("q", [])])]);
            FindDeepChild(root, "X") == Some(x1)
  {
    var x1 := Node("X", [Node("p", [])]);
    var y := Node("Y", [Node("X", [])]);
    var root := Node("R", [y, x1, Node("X", [Node("q", [])])]);
    assert [root][1..] + root.children == root.children;
    var q := root.children[1..] + y.children;
    assert root.children[1..] + y.children == q;
    assert q[0] == x1;
    assert Search(root.children, "X") == Search(q, "X");
  }
}
