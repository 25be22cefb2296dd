/** A* over a weighted tree entered as, for each node label, a list of
    (child, cost) pairs.  Scores live in dictionaries keyed by label, the
    open list is a heap of (f, label) entries with lazy re-insertion, and
    the path is rebuilt from the `came_from` links.  The three dictionaries
    and the heap are bundled in one value, `SearchState`. */
module TreeAStar {
  import opened Common

  type Label = string
  type WeightedTree = map<Label, seq<(Label, int)>>

  /** `child` is listed among the children of the node `parent`. */
  predicate IsChild(tree: WeightedTree, parent: Label, child: Label)
  {
    parent in tree && exists i :: 0 <= i < |tree[parent]| && tree[parent][i].0 == child
  }

  /** A node label, or a label named as somebody's child. */
  ghost predicate Named(tree: WeightedTree, x: Label)
  {
    x in tree || exists n :: IsChild(tree, n, x)
  }

  /** Collects the labels of the tree: its keys and every child it names. */
  method GetAllNodes(tree: WeightedTree) returns (all: set<Label>)
    ensures forall x :: x in all <==> Named(tree, x)
  {
    all := tree.Keys;
    var rest := tree.Keys;
    while rest != {}
      invariant rest <= tree.Keys && tree.Keys <= all
      invariant forall x :: x in all ==> Named(tree, x)
      invariant forall n, x :: n in tree && n !in rest && IsChild(tree, n, x) ==> x in all
      decreases rest
    {
      var node :| node in rest;
      var children := tree[node];
      ghost var all0 := all;
      for i := 0 to |children|
        invariant all0 <= all
        invariant forall x :: x in all ==> Named(tree, x)
        invariant forall j :: 0 <= j < i ==> children[j].0 in all
      {
        assert IsChild(tree, node, children[i].0);
        all := all + {children[i].0};
      }
      forall x | IsChild(tree, node, x)
        ensures x in all
      {
        var j :| 0 <= j < |children| && children[j].0 == x;
      }
      rest := rest - {node};
    }
  }

  /** The distance between the code points of two one-character labels;
      `None` where `ord` rejects a label that is not one character long. */
  function Heuristic(a: Label, b: Label): (r: Option<nat>)
    ensures r.Some? <==> |a| == 1 && |b| == 1
    ensures r.Some? ==> (r.value == 0 <==> a == b)
  {
    if |a| == 1 && |b| == 1 then Some(Abs(a[0] as int - b[0] as int)) else None
  }

  /** The heap, `g_scores`, `f_scores` and `came_from`. */
  datatype SearchState = SearchState(heap: seq<(int, Label)>, g: map<Label, Ext>, f: map<Label, Ext>,
                                     cameFrom: map<Label, Label>)

  /** The state before the first pop: the start entry with priority 0, every
      label at an infinite score except the start, at 0 and `f = h0`. */
  function InitialState(all: set<Label>, start: Label, h0: nat): (s: SearchState)
    ensures s.heap == [(0, start)] && s.cameFrom == map[]
    ensures s.g.Keys == s.f.Keys == all + {start}
    ensures s.g[start] == Fin(0) && s.f[start] == Fin(h0)
    ensures forall n :: n in all && n != start ==> s.g[n] == PosInf && s.f[n] == PosInf
  {
    SearchState([(0, start)],
                map n | n in all + {start} :: if n == start then Fin(0) else PosInf,
                map n | n in all + {start} :: if n == start then Fin(h0) else PosInf,
                map[])
  }

  /** One child of `current` looked at: if going through `current` is
      strictly cheaper, the child gets `current` as parent, the new `g` and
      `f = g + h`, and a heap entry; `None` if `h` is undefined for it. */
  function RelaxOne(s: SearchState, current: Label, neighbor: Label, cost: int, goal: Label): (r: Option<SearchState>)
    requires current in s.g && s.g[current].Fin? && neighbor in s.g && neighbor in s.f
    ensures r.Some? ==> r.value.g.Keys == s.g.Keys && r.value.f.Keys == s.f.Keys
    ensures r.Some? ==> forall n :: n in s.g ==> r.value.g[n].Le(s.g[n])
    ensures r.Some? && r.value.g[neighbor] != s.g[neighbor] ==>
              r.value.cameFrom == s.cameFrom[neighbor := current] &&
              r.value.g[neighbor] == Fin(s.g[current].n + cost)
    ensures r.None? ==> Fin(s.g[current].n + cost).Lt(s.g[neighbor]) && Heuristic(neighbor, goal).None?
  {
    var tentative := s.g[current].n + cost;
    if Fin(tentative).Lt(s.g[neighbor]) then
      match Heuristic(neighbor, goal)
      case None => None
      case Some(h) =>
        Some(SearchState(s.heap + [(tentative + h, neighbor)], s.g[neighbor := Fin(tentative)],
                         s.f[neighbor := Fin(tentative + h)], s.cameFrom[neighbor := current]))
    else Some(s)
  }

  /** The children loop of one expansion, as a function. */
  function RelaxAll(s: SearchState, current: Label, children: seq<(Label, int)>, goal: Label): Option<SearchState>
    requires current in s.g && s.g[current].Fin? && s.f.Keys == s.g.Keys
    requires forall j :: 0 <= j < |children| ==> children[j].0 in s.g
    decreases |children|
  {
    if |children| == 0 then Some(s)
    else
      match RelaxOne(s, current, children[0].0, children[0].1, goal)
      case None => None
      case Some(s1) => RelaxAll(s1, current, children[1..], goal)
  }

  /** The loop over the children of `current`. */
  method ExpandChildren(s0: SearchState, current: Label, children: seq<(Label, int)>, goal: Label)
    returns (r: Option<SearchState>)
    requires current in s0.g && s0.g[current].Fin? && s0.f.Keys == s0.g.Keys
    requires forall j :: 0 <= j < |children| ==> children[j].0 in s0.g
    ensures r == RelaxAll(s0, current, children, goal)
  {
    var s := s0;
    for k := 0 to |children|
      invariant s.g.Keys == s0.g.Keys && s.f.Keys == s.g.Keys && s.g[current].Fin?
      invariant RelaxAll(s0, current, children, goal) == RelaxAll(s, current, children[k..], goal)
    {
      var (neighbor, cost) := children[k];
      RelaxAllStep(s, current, children, k, goal);
      var next := RelaxChild(s, current, neighbor, cost, goal);
      if next.None? {
        return None;
      }
      s := next.value;
    }
    assert children[|children|..] == [];
    return Some(s);
  }

  /** The body of the children loop for one child. */
  method RelaxChild(s: SearchState, current: Label, neighbor: Label, cost: int, goal: Label)
    returns (r: Option<SearchState>)
    requires current in s.g && s.g[current].Fin? && neighbor in s.g && neighbor in s.f
    ensures r == RelaxOne(s, current, neighbor, cost, goal)
  {
    var tentative := s.g[current].n + cost;
    if Fin(tentative).Lt(s.g[neighbor]) {
      var h := Heuristic(neighbor, goal);
      if h.None? {
        return None;
      }
      return Some(SearchState(s.heap + [(tentative + h.value, neighbor)], s.g[neighbor := Fin(tentative)],
                              s.f[neighbor := Fin(tentative + h.value)], s.cameFrom[neighbor := current]));
    }
    return Some(s);
  }

  /** `RelaxAll` on `children[k..]` is `RelaxOne` on `children[k]`, then
      `RelaxAll` on the rest. */
  lemma RelaxAllStep(s: SearchState, current: Label, children: seq<(Label, int)>, k: nat, goal: Label)
    requires current in s.g && s.g[current].Fin? && s.f.Keys == s.g.Keys
    requires k < |children| && forall j :: 0 <= j < |children| ==> children[j].0 in s.g
    ensures var next := RelaxOne(s, current, children[k].0, children[k].1, goal);
            RelaxAll(s, current, children[k..], goal) ==
              if next.None? then None else RelaxAll(next.value, current, children[k + 1..], goal)
  {
    assert children[k..][0] == children[k];
    assert children[k..][1..] == children[k + 1..];
  }

  /** The children loop fails only at a child whose label the heuristic
      rejects. */
  lemma {:induction false} RelaxAllFails(s: SearchState, current: Label, children: seq<(Label, int)>, goal: Label)
    returns (k: nat)
    requires current in s.g && s.g[current].Fin? && s.f.Keys == s.g.Keys
    requires forall j :: 0 <= j < |children| ==> children[j].0 in s.g
    requires RelaxAll(s, current, children, goal).None?
    ensures k < |children| && Heuristic(children[k].0, goal).None?
    decreases |children|
  {
    var r1 := RelaxOne(s, current, children[0].0, children[0].1, goal);
    if r1.None? {
      k := 0;
    } else {
      var k' := RelaxAllFails(r1.value, current, children[1..], goal);
      k := k' + 1;
      assert children[1..][k'] == children[k];
    }
  }

  /** Every cost is non-negative. */
  ghost predicate NonNegative(tree: WeightedTree)
  {
    forall n, i :: n in tree && 0 <= i < |tree[n]| ==> tree[n][i].1 >= 0
  }

  /** The start keeps `g = 0` and no parent, and every finite score is
      non-negative. */
  ghost predicate StartKept(s: SearchState, start: Label)
  {
    start in s.g && s.g[start] == Fin(0) && start !in s.cameFrom &&
    forall n :: n in s.g && s.g[n].Fin? ==> s.g[n].n >= 0
  }

  /** With non-negative costs the start never gets a parent: no path
      through other nodes is cheaper than 0. */
  lemma {:induction false} RelaxAllKeepsStart(s: SearchState, start: Label, current: Label, children: seq<(Label, int)>, goal: Label)
    requires current in s.g && s.g[current].Fin? && s.f.Keys == s.g.Keys
    requires forall j :: 0 <= j < |children| ==> children[j].0 in s.g && children[j].1 >= 0
    requires StartKept(s, start)
    ensures var r := RelaxAll(s, current, children, goal); r.Some? ==> StartKept(r.value, start)
    decreases |children|
  {
    if |children| > 0 {
      var r1 := RelaxOne(s, current, children[0].0, children[0].1, goal);
      if r1.Some? {
        var s1 := r1.value;
        forall n | n in s1.g && s1.g[n].Fin?
          ensures s1.g[n].n >= 0
        {
          if s1.g[n] != s.g[n] {
            assert n == children[0].0;
          }
        }
        RelaxAllKeepsStart(s1, start, current, children[1..], goal);
      }
    }
  }

  /** The heap holds an entry for `n`. */
  predicate Queued(heap: seq<(int, Label)>, n: Label)
  {
    exists i :: 0 <= i < |heap| && heap[i].1 == n
  }

  /** `n` has a finite `g` and `f = g + h`. */
  predicate Scored(s: SearchState, n: Label, goal: Label)
    requires n in s.g && n in s.f
  {
    s.g[n].Fin? && Heuristic(n, goal).Some? && s.f[n] == Fin(s.g[n].n + Heuristic(n, goal).value)
  }

  /** The bookkeeping kept by the search, `popped` being the labels taken
      off the heap so far: every parent link is a tree edge from a popped
      label, every popped label and heap entry is the start or has a parent,
      and the start and every label with a parent are scored. */
  ghost predicate Books(tree: WeightedTree, start: Label, goal: Label, all: set<Label>, s: SearchState, popped: set<Label>)
  {
    s.g.Keys == all + {start} && s.f.Keys == s.g.Keys && (forall n :: n in s.g ==> !s.g[n].NegInf?) &&
    (forall n {:trigger s.cameFrom[n]} :: n in s.cameFrom ==> n in s.g && IsChild(tree, s.cameFrom[n], n) && s.cameFrom[n] in popped) &&
    (forall c :: c in popped ==> c == start || c in s.cameFrom) &&
    (forall n :: n in s.g && (n == start || n in s.cameFrom) ==> Scored(s, n, goal)) &&
    (forall i :: 0 <= i < |s.heap| ==> s.heap[i].1 == start || s.heap[i].1 in s.cameFrom)
  }

  /** Every label with a finite `g` is popped or on the heap. */
  ghost predicate Seen(s: SearchState, popped: set<Label>)
  {
    forall n :: n in s.g && s.g[n].Fin? ==> n in popped || Queued(s.heap, n)
  }

  /** The children of every popped label but the goal have a finite `g`, and
      the goal has not been popped. */
  ghost predicate Expanded(tree: WeightedTree, goal: Label, s: SearchState, popped: set<Label>)
  {
    (forall c, n :: c in popped && c != goal && IsChild(tree, c, n) ==> n in s.g && s.g[n].Fin?) &&
    goal !in popped
  }

  /** Relaxing the children of a popped label keeps the bookkeeping, keeps
      every label seen, keeps finite scores finite, and leaves every child
      looked at with a finite score. */
  lemma {:induction false} RelaxAllKeeps(tree: WeightedTree, start: Label, goal: Label, all: set<Label>,
                                         s: SearchState, popped: set<Label>, current: Label, children: seq<(Label, int)>)
    requires Books(tree, start, goal, all, s, popped) && Seen(s, popped)
    requires current in popped && current in s.g && s.g[current].Fin?
    requires forall j :: 0 <= j < |children| ==> children[j].0 in s.g && IsChild(tree, current, children[j].0)
    ensures var r := RelaxAll(s, current, children, goal);
            r.Some? ==>
              Books(tree, start, goal, all, r.value, popped) && Seen(r.value, popped) &&
              (forall n :: n in s.g && s.g[n].Fin? ==> r.value.g[n].Fin?) &&
              (forall j :: 0 <= j < |children| ==> r.value.g[children[j].0].Fin?)
    decreases |children|
  {
    if |children| > 0 {
      var neighbor := children[0].0;
      var r1 := RelaxOne(s, current, neighbor, children[0].1, goal);
      if r1.Some? {
        var s1 := r1.value;
        RelaxOneKeeps(tree, start, goal, all, s, popped, current, neighbor, children[0].1, s1);
        RelaxAllKeeps(tree, start, goal, all, s1, popped, current, children[1..]);
        var r := RelaxAll(s1, current, children[1..], goal);
        if r.Some? {
          forall j | 0 <= j < |children|
            ensures r.value.g[children[j].0].Fin?
          {
            if j > 0 {
              assert children[j] == children[1..][j - 1];
            }
          }
        }
      }
    }
  }

  lemma RelaxOneKeeps(tree: WeightedTree, start: Label, goal: Label, all: set<Label>, s: SearchState,
                      popped: set<Label>, current: Label, neighbor: Label, cost: int, s1: SearchState)
    requires Books(tree, start, goal, all, s, popped) && Seen(s, popped)
    requires current in popped && current in s.g && s.g[current].Fin?
    requires neighbor in s.g && IsChild(tree, current, neighbor)
    requires RelaxOne(s, current, neighbor, cost, goal) == Some(s1)
    ensures Books(tree, start, goal, all, s1, popped) && Seen(s1, popped)
    ensures current in s1.g && s1.g[current].Fin? && s1.g[neighbor].Fin?
    ensures forall n :: n in s.g && s.g[n].Fin? ==> s1.g[n].Fin?
  {
    if s1 != s {
      var t := s.g[current].n + cost;
      var h := Heuristic(neighbor, goal).value;
      assert s1 == SearchState(s.heap + [(t + h, neighbor)], s.g[neighbor := Fin(t)],
                               s.f[neighbor := Fin(t + h)], s.cameFrom[neighbor := current]);
      PushKeepsBooks(tree, start, goal, all, s, popped, current, neighbor, t, h);
      PushKeepsSeen(s, popped, neighbor, t, h, s1);
    }
  }

  lemma PushKeepsBooks(tree: WeightedTree, start: Label, goal: Label, all: set<Label>, s: SearchState,
                       popped: set<Label>, current: Label, neighbor: Label, t: int, h: nat)
    requires Books(tree, start, goal, all, s, popped)
    requires current in popped && neighbor in s.g && IsChild(tree, current, neighbor)
    requires Heuristic(neighbor, goal) == Some(h)
    ensures Books(tree, start, goal, all,
                  SearchState(s.heap + [(t + h, neighbor)], s.g[neighbor := Fin(t)],
                              s.f[neighbor := Fin(t + h)], s.cameFrom[neighbor := current]), popped)
  {
    var s1 := SearchState(s.heap + [(t + h, neighbor)], s.g[neighbor := Fin(t)],
                          s.f[neighbor := Fin(t + h)], s.cameFrom[neighbor := current]);
    assert s1.g.Keys == s.g.Keys && s1.f.Keys == s1.g.Keys;
    forall n | n in s1.g
      ensures !s1.g[n].NegInf?
    {
      if n != neighbor {
        assert s1.g[n] == s.g[n];
      }
    }
    forall n | n in s1.cameFrom
      ensures n in s1.g && IsChild(tree, s1.cameFrom[n], n) && s1.cameFrom[n] in popped
    {
      if n != neighbor {
        assert s1.cameFrom[n] == s.cameFrom[n];
      }
    }
    forall c | c in popped
      ensures c == start || c in s1.cameFrom
    {
    }
    forall n | n in s1.g && (n == start || n in s1.cameFrom)
      ensures Scored(s1, n, goal)
    {
      if n != neighbor {
        assert Scored(s, n, goal);
      }
    }
    forall i | 0 <= i < |s1.heap|
      ensures s1.heap[i].1 == start || s1.heap[i].1 in s1.cameFrom
    {
      if i < |s.heap| {
        assert s1.heap[i] == s.heap[i];
      }
    }
  }

  lemma PushKeepsSeen(s: SearchState, popped: set<Label>, neighbor: Label, t: int, h: nat, s1: SearchState)
    requires Seen(s, popped)
    requires s1.heap == s.heap + [(t + h, neighbor)] && s1.g == s.g[neighbor := Fin(t)]
    ensures Seen(s1, popped)
  {
    forall n | n in s1.g && s1.g[n].Fin?
      ensures n in popped || Queued(s1.heap, n)
    {
      if n == neighbor {
        assert s1.heap[|s.heap|].1 == neighbor;
      } else if n !in popped {
        var i :| 0 <= i < |s.heap| && s.heap[i].1 == n;
        assert s1.heap[i] == s.heap[i];
      }
    }
  }

  /** Taking entry `i` off the heap and marking its label popped keeps the
      bookkeeping and every label seen. */
  lemma PopKeeps(tree: WeightedTree, start: Label, goal: Label, all: set<Label>, s: SearchState, popped: set<Label>, i: nat)
    requires Books(tree, start, goal, all, s, popped) && Seen(s, popped) && i < |s.heap|
    ensures var s1 := s.(heap := s.heap[..i] + s.heap[i + 1..]);
            Books(tree, start, goal, all, s1, popped + {s.heap[i].1}) && Seen(s1, popped + {s.heap[i].1})
  {
    var rest := s.heap[..i] + s.heap[i + 1..];
    RemoveEntry(s.heap, i);
    PopKeepsBooks(tree, start, goal, all, s, popped, i, rest);
    PopKeepsSeen(s, popped, i, rest);
  }

  /** The entries left after removing entry `i` are entries of the heap,
      and only entry `i` is gone. */
  lemma RemoveEntry(heap: seq<(int, Label)>, i: nat)
    requires i < |heap|
    ensures forall x :: x in heap[..i] + heap[i + 1..] ==> x in heap
    ensures forall j :: 0 <= j < |heap| && j != i ==> heap[j] in heap[..i] + heap[i + 1..]
  {
    var rest := heap[..i] + heap[i + 1..];
    forall j | 0 <= j < |heap| && j != i
      ensures heap[j] in rest
    {
      if j < i {
        assert rest[j] == heap[j];
      } else {
        assert rest[j - 1] == heap[j];
      }
    }
  }

  lemma PopKeepsBooks(tree: WeightedTree, start: Label, goal: Label, all: set<Label>, s: SearchState, popped: set<Label>,
                      i: nat, rest: seq<(int, Label)>)
    requires Books(tree, start, goal, all, s, popped) && i < |s.heap|
    requires forall x :: x in rest ==> x in s.heap
    ensures Books(tree, start, goal, all, s.(heap := rest), popped + {s.heap[i].1})
  {
    forall j | 0 <= j < |rest|
      ensures rest[j].1 == start || rest[j].1 in s.cameFrom
    {
      assert rest[j] in rest;
      var k :| 0 <= k < |s.heap| && s.heap[k] == rest[j];
    }
  }

  lemma PopKeepsSeen(s: SearchState, popped: set<Label>, i: nat, rest: seq<(int, Label)>)
    requires Seen(s, popped) && i < |s.heap|
    requires forall j :: 0 <= j < |s.heap| && j != i ==> s.heap[j] in rest
    ensures Seen(s.(heap := rest), popped + {s.heap[i].1})
  {
    forall n | n in s.g && s.g[n].Fin? && n != s.heap[i].1 && n !in popped
      ensures Queued(rest, n)
    {
      var j :| 0 <= j < |s.heap| && s.heap[j].1 == n;
      var k :| 0 <= k < |rest| && rest[k] == s.heap[j];
    }
  }

  /** Each label of `path` after the first is a child of the one before. */
  ghost predicate TreeWalk(tree: WeightedTree, path: seq<Label>)
  {
    |path| >= 1 && forall i :: 0 <= i < |path| - 1 ==> IsChild(tree, path[i], path[i + 1])
  }

  /** A walk from `start` to `goal`. */
  ghost predicate IsPath(tree: WeightedTree, start: Label, goal: Label, path: seq<Label>)
  {
    TreeWalk(tree, path) && path[0] == start && path[|path| - 1] == goal
  }

  ghost predicate TreeReachable(tree: WeightedTree, start: Label, goal: Label)
  {
    exists path :: IsPath(tree, start, goal, path)
  }

  /** Each label of `s` but the last has the next one as its parent. */
  ghost predicate Linked(cameFrom: map<Label, Label>, s: seq<Label>)
  {
    forall i :: 0 <= i < |s| - 1 ==> s[i] in cameFrom && cameFrom[s[i]] == s[i + 1]
  }

  /** `n` has a parent, and that parent is the start or has a parent too. */
  predicate HasKnownParent(cameFrom: map<Label, Label>, start: Label, n: Label)
  {
    n in cameFrom && (cameFrom[n] == start || cameFrom[n] in cameFrom)
  }

  /** Rebuilds the path: the parent links followed from `goal` back to
      `start`, reversed. */
  method ReconstructPath(ghost tree: WeightedTree, cameFrom: map<Label, Label>, start: Label, goal: Label)
    returns (path: Option<seq<Label>>)
    requires forall n :: n in cameFrom ==> IsChild(tree, cameFrom[n], n)
    requires forall n {:trigger HasKnownParent(cameFrom, start, n)} :: n in cameFrom ==> HasKnownParent(cameFrom, start, n)
    requires goal == start || goal in cameFrom
    ensures path.Some? ==> TreeWalk(tree, path.value) && path.value[0] == start &&
                           path.value[|path.value| - 1] == goal
    ensures goal !in cameFrom ==> path == Some([start])
  {
    var backwards := FollowLinks(cameFrom, start, goal);
    if backwards.None? {
      return None;
    }
    assert Reverse([start]) == [start];
    path := Some(Reverse(backwards.value));
    LinkedReversedIsWalk(tree, cameFrom, backwards.value);
  }

  /** Follows the parent links from `goal` and appends `start` in place of
      the label that has no parent.  Links that go round in a cycle are
      followed at most `|cameFrom| + 1` times; then `None`. */
  method FollowLinks(cameFrom: map<Label, Label>, start: Label, goal: Label) returns (backwards: Option<seq<Label>>)
    requires forall n {:trigger HasKnownParent(cameFrom, start, n)} :: n in cameFrom ==> HasKnownParent(cameFrom, start, n)
    requires goal == start || goal in cameFrom
    ensures backwards.Some? ==> |backwards.value| >= 1 && Linked(cameFrom, backwards.value) &&
                                backwards.value[0] == goal && backwards.value[|backwards.value| - 1] == start
    ensures goal !in cameFrom ==> backwards == Some([start])
  {
    var collected: seq<Label> := [];
    var current := goal;
    var steps: nat := |cameFrom| + 1;
    while current in cameFrom
      invariant current == start || current in cameFrom
      invariant Linked(cameFrom, collected + [current])
      invariant (collected + [current])[0] == goal
      invariant goal !in cameFrom ==> collected == []
      decreases steps
    {
      if steps == 0 {
        return None;
      }
      steps := steps - 1;
      assert HasKnownParent(cameFrom, start, current);
      var next := cameFrom[current];
      LinkedAppend(cameFrom, collected + [current], next);
      collected := collected + [current];
      current := next;
    }
    assert current == start && collected + [start] == collected + [current];
    if goal !in cameFrom {
      assert collected + [start] == [start];
    }
    backwards := Some(collected + [start]);
  }

  lemma LinkedAppend(cameFrom: map<Label, Label>, s: seq<Label>, next: Label)
    requires |s| >= 1 && Linked(cameFrom, s) && s[|s| - 1] in cameFrom && cameFrom[s[|s| - 1]] == next
    ensures Linked(cameFrom, s + [next]) && (s + [next])[0] == s[0]
  {
    forall i | 0 <= i < |s + [next]| - 1
      ensures (s + [next])[i] in cameFrom && cameFrom[(s + [next])[i]] == (s + [next])[i + 1]
    {
      if i < |s| - 1 {
        assert (s + [next])[i] == s[i] && (s + [next])[i + 1] == s[i + 1];
      }
    }
  }

  lemma LinkedReversedIsWalk(tree: WeightedTree, cameFrom: map<Label, Label>, s: seq<Label>)
    requires |s| >= 1 && Linked(cameFrom, s)
    requires forall n :: n in cameFrom ==> IsChild(tree, cameFrom[n], n)
    ensures TreeWalk(tree, Reverse(s))
  {
    var r := Reverse(s);
    forall i | 0 <= i < |r| - 1
      ensures IsChild(tree, r[i], r[i + 1])
    {
      var k := |s| - 2 - i;
      assert r[i] == s[k + 1] && r[i + 1] == s[k];
      assert s[k] in cameFrom && cameFrom[s[k]] == s[k + 1];
      assert IsChild(tree, cameFrom[s[k]], s[k]);
    }
  }

  datatype Outcome = Path(path: seq<Label>) | NoPath | LabelError | OutOfFuel

  /** The search.  It returns the path to `goal` once `goal` is popped,
      `NoPath` once the heap is empty, and `LabelError` where the heuristic
      meets a label that is not one character long.  `fuel` bounds the
      number of pops; a popped entry of least `f` is taken, whichever label
      it carries. */
  method AStar(tree: WeightedTree, start: Label, goal: Label, fuel: nat) returns (result: Outcome)
    ensures result.Path? ==> IsPath(tree, start, goal, result.path)
    ensures result.NoPath? ==> !TreeReachable(tree, start, goal)
    ensures |start| != 1 || |goal| != 1 ==> result == LabelError
    ensures result.LabelError? ==> |start| != 1 || |goal| != 1 || exists x :: Named(tree, x) && |x| != 1
    ensures start == goal && |start| == 1 && fuel > 0 ==> result == Path([start])
  {
    var all := GetAllNodes(tree);
    var h0 := Heuristic(start, goal);
    if h0.None? {
      return LabelError;
    }
    var s := InitialState(all, start, h0.value);
    ghost var popped: set<Label> := {};
    InitialSearching(tree, start, goal, all, h0.value);
    var rounds := fuel;
    while |s.heap| > 0
      invariant Searching(tree, start, goal, all, s, popped)
      invariant start == goal ==> popped == {}
      invariant popped == {} ==> rounds == fuel && |s.heap| == 1 && s.heap[0].1 == start && start !in s.cameFrom
      decreases rounds
    {
      if rounds == 0 {
        return OutOfFuel;
      }
      rounds := rounds - 1;
      ghost var least := LeastExists(s.heap);
      var i :| 0 <= i < |s.heap| && Least(s.heap, i);
      var current := s.heap[i].1;
      var rest := s.heap[..i] + s.heap[i + 1..];
      if current == goal {
        PopAtGoal(tree, start, goal, all, s, popped, i);
        var path := ReconstructPath(tree, s.cameFrom, start, goal);
        if path.None? {
          return OutOfFuel;
        }
        return Path(path.value);
      }
      ghost var s0, popped0 := s, popped;
      s := s.(heap := rest);
      popped := popped + {current};
      var children := if current in tree then tree[current] else [];
      PopFacts(tree, start, goal, all, s0, popped0, i, children);
      var r := ExpandChildren(s, current, children, goal);
      if r.None? {
        ghost var k := RelaxAllFails(s, current, children, goal);
        assert IsChild(tree, current, children[k].0);
        return LabelError;
      }
      RoundKeeps(tree, start, goal, all, s0, popped0, i, children, r.value);
      s := r.value;
    }
    NoPathUnreachable(tree, start, goal, s, popped);
    return NoPath;
  }

  /** The state before the first pop is a state of the main loop. */
  lemma InitialSearching(tree: WeightedTree, start: Label, goal: Label, all: set<Label>, h0: nat)
    requires Heuristic(start, goal) == Some(h0)
    ensures Searching(tree, start, goal, all, InitialState(all, start, h0), {})
  {
    var s := InitialState(all, start, h0);
    assert Queued(s.heap, start) by {
      assert s.heap[0].1 == start;
    }
    assert Scored(s, start, goal);
  }

  /** The state of the main loop. */
  ghost predicate Searching(tree: WeightedTree, start: Label, goal: Label, all: set<Label>, s: SearchState, popped: set<Label>)
  {
    Books(tree, start, goal, all, s, popped) && Seen(s, popped) && Expanded(tree, goal, s, popped) &&
    start in s.g && s.g[start].Fin?
  }

  /** Popping the goal: the parent links lead back to the start. */
  lemma PopAtGoal(tree: WeightedTree, start: Label, goal: Label, all: set<Label>, s: SearchState, popped: set<Label>, i: nat)
    requires Searching(tree, start, goal, all, s, popped) && i < |s.heap| && s.heap[i].1 == goal
    ensures forall n :: n in s.cameFrom ==> IsChild(tree, s.cameFrom[n], n)
    ensures forall n {:trigger HasKnownParent(s.cameFrom, start, n)} :: n in s.cameFrom ==> HasKnownParent(s.cameFrom, start, n)
    ensures goal == start || goal in s.cameFrom
  {
    forall n | n in s.cameFrom
      ensures HasKnownParent(s.cameFrom, start, n)
    {
      assert s.cameFrom[n] in popped;
    }
  }

  /** Popping a label other than the goal: it and its children are scored
      labels, as relaxing them needs. */
  lemma PopFacts(tree: WeightedTree, start: Label, goal: Label, all: set<Label>, s: SearchState, popped: set<Label>,
                 i: nat, children: seq<(Label, int)>)
    requires Searching(tree, start, goal, all, s, popped) && i < |s.heap|
    requires forall x :: Named(tree, x) ==> x in all
    requires children == (if s.heap[i].1 in tree then tree[s.heap[i].1] else [])
    ensures var current := s.heap[i].1;
            current in s.g && s.g[current].Fin? && s.f.Keys == s.g.Keys &&
            forall j :: 0 <= j < |children| ==> children[j].0 in s.g && IsChild(tree, current, children[j].0)
  {
    var current := s.heap[i].1;
    assert Scored(s, current, goal);
    forall j | 0 <= j < |children|
      ensures children[j].0 in s.g && IsChild(tree, current, children[j].0)
    {
      assert IsChild(tree, current, children[j].0);
      assert Named(tree, children[j].0);
    }
  }

  /** One round that pops `s.heap[i]`, not the goal, and relaxes its
      children keeps the state of the main loop. */
  lemma RoundKeeps(tree: WeightedTree, start: Label, goal: Label, all: set<Label>, s: SearchState, popped: set<Label>,
                   i: nat, children: seq<(Label, int)>, s1: SearchState)
    requires Searching(tree, start, goal, all, s, popped) && i < |s.heap| && s.heap[i].1 != goal
    requires children == (if s.heap[i].1 in tree then tree[s.heap[i].1] else [])
    requires var current := s.heap[i].1;
             current in s.g && s.g[current].Fin? && s.f.Keys == s.g.Keys &&
             forall j :: 0 <= j < |children| ==> children[j].0 in s.g && IsChild(tree, current, children[j].0)
    requires RelaxAll(s.(heap := s.heap[..i] + s.heap[i + 1..]), s.heap[i].1, children, goal) == Some(s1)
    ensures Searching(tree, start, goal, all, s1, popped + {s.heap[i].1})
  {
    var current := s.heap[i].1;
    var sp := s.(heap := s.heap[..i] + s.heap[i + 1..]);
    PopKeeps(tree, start, goal, all, s, popped, i);
    RelaxAllKeeps(tree, start, goal, all, sp, popped + {current}, current, children);
    ExpandedKeeps(tree, goal, s, popped, current, children, s1);
  }

  /** Entry `i` has the least priority. */
  predicate Least(heap: seq<(int, Label)>, i: int)
  {
    0 <= i < |heap| && forall j :: 0 <= j < |heap| ==> heap[i].0 <= heap[j].0
  }

  lemma LeastExists(heap: seq<(int, Label)>) returns (k: nat)
    requires |heap| > 0
    ensures Least(heap, k)
  {
    k := 0;
    for m := 1 to |heap|
      invariant 0 <= k < |heap| && forall j :: 0 <= j < m ==> heap[k].0 <= heap[j].0
    {
      if heap[m].0 < heap[k].0 {
        k := m;
      }
    }
  }


  /** After the children of `current` are relaxed, every popped label but
      the goal has its children scored. */
  lemma ExpandedKeeps(tree: WeightedTree, goal: Label, s: SearchState, popped: set<Label>, current: Label,
                      children: seq<(Label, int)>, s1: SearchState)
    requires Expanded(tree, goal, s, popped) && current != goal
    requires children == (if current in tree then tree[current] else [])
    requires forall n :: n in s.g && s.g[n].Fin? ==> n in s1.g && s1.g[n].Fin?
    requires forall j :: 0 <= j < |children| ==> children[j].0 in s1.g && s1.g[children[j].0].Fin?
    ensures Expanded(tree, goal, s1, popped + {current})
  {
    forall c, n | c in popped + {current} && c != goal && IsChild(tree, c, n)
      ensures n in s1.g && s1.g[n].Fin?
    {
      if c == current {
        var j :| 0 <= j < |tree[c]| && tree[c][j].0 == n;
        assert children[j].0 == n;
      }
    }
  }

  /** Once the heap is empty every label with a finite score is popped, so
      the popped labels hold the start, all their children, and not the
      goal: no walk reaches the goal. */
  lemma NoPathUnreachable(tree: WeightedTree, start: Label, goal: Label, s: SearchState, popped: set<Label>)
    requires Seen(s, popped) && Expanded(tree, goal, s, popped) && s.heap == []
    requires start in s.g && s.g[start].Fin?
    ensures !TreeReachable(tree, start, goal)
  {
    forall path | TreeWalk(tree, path) && path[0] == start
      ensures path[|path| - 1] != goal
    {
      PoppedHoldsWalk(tree, goal, s, popped, path, |path| - 1);
    }
  }

  lemma {:induction false} PoppedHoldsWalk(tree: WeightedTree, goal: Label, s: SearchState, popped: set<Label>,
                                           path: seq<Label>, i: nat)
    requires Seen(s, popped) && Expanded(tree, goal, s, popped) && s.heap == []
    requires TreeWalk(tree, path) && i < |path| && path[0] in s.g && s.g[path[0]].Fin?
    ensures path[i] in popped
  {
    if i == 0 {
      assert !Queued(s.heap, path[0]);
    } else {
      PoppedHoldsWalk(tree, goal, s, popped, path, i - 1);
      assert IsChild(tree, path[i - 1], path[i]);
      assert !Queued(s.heap, path[i]);
    }
  }
}
