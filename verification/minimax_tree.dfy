/** Minimax over a complete binary game tree whose leaves are stored in an
    array: node `i` at one level has children `2i` and `2i + 1` at the next,
    and the levels alternate between the maximising and the minimising player. */
module MinimaxTree {

  function Pow2(k: nat): (p: nat)
    ensures p >= 1
  {
    if k == 0 then 1 else 2 * Pow2(k - 1)
  }

  /** The leaves below node `index` at `depth` are `scores[Lo .. Hi]`. */
  function Lo(depth: nat, index: nat, height: nat): nat
    requires depth <= height
  {
    index * Pow2(height - depth)
  }

  function Hi(depth: nat, index: nat, height: nat): nat
    requires depth <= height
  {
    (index + 1) * Pow2(height - depth)
  }

  /** The subtree rooted at `index` lies inside the score array. */
  predicate InTree(depth: nat, index: nat, scores: seq<int>, height: nat)
  {
    depth <= height && Hi(depth, index, height) <= |scores|
  }

  /** Every subtree has at least one leaf. */
  lemma LoBelowHi(depth: nat, index: nat, height: nat)
    requires depth <= height
    ensures Lo(depth, index, height) < Hi(depth, index, height)
  {
    var p := Pow2(height - depth);
    assert (index + 1) * p == index * p + p;
  }

  lemma ChildRanges(depth: nat, index: nat, height: nat)
    requires depth < height
    ensures Lo(depth + 1, 2 * index, height) == Lo(depth, index, height)
    ensures Hi(depth + 1, 2 * index, height) == Lo(depth + 1, 2 * index + 1, height)
    ensures Hi(depth + 1, 2 * index + 1, height) == Hi(depth, index, height)
  {
    var p := Pow2(height - depth - 1);
    assert Pow2(height - depth) == 2 * p;
    calc {
      Hi(depth + 1, 2 * index + 1, height);
      (2 * index + 2) * p;
      (index + 1) * (2 * p);
    }
    calc {
      Lo(depth + 1, 2 * index, height);
      (2 * index) * p;
      index * (2 * p);
    }
  }

  /** The game value of node `index` at `depth`; a leaf is reached when
      `depth == height`. */
  function Minimax(depth: nat, index: nat, isMax: bool, scores: seq<int>, height: nat): int
    requires InTree(depth, index, scores, height)
    decreases height - depth
  {
    if depth == height then
      scores[index]
    else
      ChildRanges(depth, index, height);
      var left := Minimax(depth + 1, index * 2, !isMax, scores, height);
      var right := Minimax(depth + 1, index * 2 + 1, !isMax, scores, height);
      if isMax then (if left >= right then left else right)
      else (if left <= right then left else right)
  }

  /** The value of a node is the score of one of the leaves below it. */
  lemma {:induction false} MinimaxIsLeaf(depth: nat, index: nat, isMax: bool, scores: seq<int>, height: nat)
    returns (k: nat)
    requires InTree(depth, index, scores, height)
    ensures Lo(depth, index, height) <= k < Hi(depth, index, height)
    ensures Minimax(depth, index, isMax, scores, height) == scores[k]
    decreases height - depth
  {
    if depth == height {
      k := index;
    } else {
      ChildRanges(depth, index, height);
      var kl := MinimaxIsLeaf(depth + 1, index * 2, !isMax, scores, height);
      var kr := MinimaxIsLeaf(depth + 1, index * 2 + 1, !isMax, scores, height);
      var left := Minimax(depth + 1, index * 2, !isMax, scores, height);
      var right := Minimax(depth + 1, index * 2 + 1, !isMax, scores, height);
      if isMax {
        k := if left >= right then kl else kr;
      } else {
        k := if left <= right then kl else kr;
      }
    }
  }

  /** The value of a node lies between the smallest and the largest leaf
      score below it. */
  lemma {:induction false} MinimaxBounded(depth: nat, index: nat, isMax: bool, scores: seq<int>, height: nat)
    requires InTree(depth, index, scores, height)
    ensures exists k :: Lo(depth, index, height) <= k < Hi(depth, index, height) &&
                        (forall j :: Lo(depth, index, height) <= j < Hi(depth, index, height) ==> scores[k] <= scores[j]) &&
                        scores[k] <= Minimax(depth, index, isMax, scores, height)
    ensures exists k :: Lo(depth, index, height) <= k < Hi(depth, index, height) &&
                        (forall j :: Lo(depth, index, height) <= j < Hi(depth, index, height) ==> scores[j] <= scores[k]) &&
                        Minimax(depth, index, isMax, scores, height) <= scores[k]
    decreases height - depth
  {
    var lo, hi := Lo(depth, index, height), Hi(depth, index, height);
    var m := Minimax(depth, index, isMax, scores, height);
    var k := MinimaxIsLeaf(depth, index, isMax, scores, height);
    LoBelowHi(depth, index, height);
    var kmin := MinIndex(scores, lo, hi);
    var kmax := MaxIndex(scores, lo, hi);
    assert lo <= kmin < hi && (forall j :: lo <= j < hi ==> scores[kmin] <= scores[j]) && scores[kmin] <= m;
    assert lo <= kmax < hi && (forall j :: lo <= j < hi ==> scores[j] <= scores[kmax]) && m <= scores[kmax];
  }

  /** Position of a smallest element of `s[lo..hi]`. */
  lemma {:induction false} MinIndex(s: seq<int>, lo: nat, hi: nat) returns (k: nat)
    requires lo < hi <= |s|
    ensures lo <= k < hi && forall j :: lo <= j < hi ==> s[k] <= s[j]
    decreases hi - lo
  {
    if lo + 1 == hi {
      k := lo;
    } else {
      var k' := MinIndex(s, lo + 1, hi);
      k := if s[lo] <= s[k'] then lo else k';
    }
  }

  /** Position of a largest element of `s[lo..hi]`. */
  lemma {:induction false} MaxIndex(s: seq<int>, lo: nat, hi: nat) returns (k: nat)
    requires lo < hi <= |s|
    ensures lo <= k < hi && forall j :: lo <= j < hi ==> s[j] <= s[k]
    decreases hi - lo
  {
    if lo + 1 == hi {
      k := lo;
    } else {
      var k' := MaxIndex(s, lo + 1, hi);
      k := if s[lo] >= s[k'] then lo else k';
    }
  }

  /** The program's own example: eight leaves, three levels, maximiser at the root. */
  lemma WorkedExample()
    ensures Minimax(0, 0, true, [3, 5, 2, 9, 0, -1, 7, 4], 3) == 5
  {
    var s := [3, 5, 2, 9, 0, -1, 7, 4];
    assert Pow2(3) == 8;
    assert Minimax(2, 0, true, s, 3) == 5;
    assert Minimax(2, 1, true, s, 3) == 9;
    assert Minimax(2, 2, true, s, 3) == 0;
    assert Minimax(2, 3, true, s, 3) == 7;
    assert Minimax(1, 0, false, s, 3) == 5;
    assert Minimax(1, 1, false, s, 3) == 0;
  }
}
