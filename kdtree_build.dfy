/**
 * What one construction level establishes: selection, the two recursive
 * builds and the two links leave the range built and holding the points it
 * held, and the links of a built range form a tree.
 */
module KdTreeBuild {
  import opened Wrappers
  import opened Points
  import opened KdTreeShape

  /**
   * The node indices met by following the links from `r` inside [lo, hi), in
   * symmetric order; a link that leaves the range is listed but not followed.
   */
  ghost function InOrder(s: seq<Node>, lo: int, hi: int, r: Option<nat>): seq<int>
    decreases hi - lo
  {
    match r
    case None => []
    case Some(n) =>
      if lo <= n < hi && n < |s| then
        InOrder(s, lo, n, s[n].left) + [n] + InOrder(s, n + 1, hi, s[n].right)
      else
        [n]
  }

  /**
   * Following the links from the root of a built range reaches every index of
   * [lo, hi) exactly once, in increasing order, and nothing else: the links
   * form a tree without cycles or sharing.
   */
  lemma {:induction false} EachNodeReachedOnce(s: seq<Node>, lo: int, hi: int, axis: nat, r: Option<nat>)
    requires 0 <= lo && hi <= |s| && axis < D
    requires Built(s, lo, hi, axis, r)
    ensures |InOrder(s, lo, hi, r)| == (if lo < hi then hi - lo else 0)
    ensures forall k :: 0 <= k < |InOrder(s, lo, hi, r)| ==> InOrder(s, lo, hi, r)[k] == lo + k
    decreases hi - lo
  {
    if lo < hi {
      var n := Mid(lo, hi);
      assert r == Some(n) && lo <= n < hi;
      EachNodeReachedOnce(s, lo, n, NextAxis(axis), s[n].left);
      EachNodeReachedOnce(s, n + 1, hi, NextAxis(axis), s[n].right);
    }
  }

  /** Whether a range is built depends on the nodes inside that range only. */
  lemma {:induction false} BuiltFrame(s: seq<Node>, t: seq<Node>, lo: int, hi: int, axis: nat, r: Option<nat>)
    requires 0 <= lo && hi <= |s| && hi <= |t| && axis < D
    requires forall i :: lo <= i < hi ==> s[i] == t[i]
    requires Built(s, lo, hi, axis, r)
    ensures Built(t, lo, hi, axis, r)
    decreases hi - lo
  {
    if lo < hi {
      var n := Mid(lo, hi);
      BuiltFrame(s, t, lo, n, NextAxis(axis), s[n].left);
      BuiltFrame(s, t, n + 1, hi, NextAxis(axis), s[n].right);
    }
  }

  /** The points of a range are those before n, the one at n and those after it. */
  lemma PtsSplit(s: seq<Node>, lo: int, n: int, hi: int)
    requires 0 <= lo <= n < hi <= |s|
    ensures multiset(Pts(s[lo..hi])) == multiset(Pts(s[lo..n])) + multiset{s[n].pt} + multiset(Pts(s[n + 1..hi]))
  {
    assert Pts(s[lo..hi]) == Pts(s[lo..n]) + [s[n].pt] + Pts(s[n + 1..hi]);
  }

  /**
   * The selection loop's invariant: each of the nodes s[lo..k) is at most every
   * node after it in [lo, hi) on `axis`.
   */
  ghost predicate SelectedBelow(s: seq<Node>, lo: int, k: int, hi: int, axis: nat)
    requires 0 <= lo <= k <= hi <= |s| && axis < D
  {
    forall i, j :: lo <= i < k && i < j < hi ==> s[i].Get(axis) <= s[j].Get(axis)
  }

  /**
   * Moving a least node of [k, hi) to position k (by exchanging it with the
   * node there) extends the selected prefix by one.
   */
  lemma SelectStep(s: seq<Node>, lo: int, k: int, m: int, hi: int, axis: nat)
    requires 0 <= lo <= k <= m < hi <= |s| && axis < D
    requires SelectedBelow(s, lo, k, hi, axis)
    requires forall j :: k <= j < hi ==> s[m].Get(axis) <= s[j].Get(axis)
    ensures SelectedBelow(s[k := s[m]][m := s[k]], lo, k + 1, hi, axis)
  {
    var t := s[k := s[m]][m := s[k]];
    forall i, j | lo <= i < k + 1 && i < j < hi
      ensures t[i].Get(axis) <= t[j].Get(axis)
    {
      if i < k {
        assert t[i] == s[i];
        assert t[j] == s[j] || t[j] == s[m] || t[j] == s[k];
      } else {
        assert t[i] == s[m];
        assert t[j] == s[j] || t[j] == s[k];
      }
    }
  }

  /**
   * Once the prefix through n is selected, no node before n is greater than
   * the node at n and no node after it is smaller: `nth_element`'s promise.
   */
  lemma SelectedSplits(s: seq<Node>, lo: int, n: int, hi: int, axis: nat)
    requires 0 <= lo <= n < hi <= |s| && axis < D
    requires SelectedBelow(s, lo, n + 1, hi, axis)
    ensures forall i :: lo <= i < n ==> !NodeLess(axis, s[n], s[i])
    ensures forall j :: n < j < hi ==> !NodeLess(axis, s[j], s[n])
  {
  }

  /** Exchanging two nodes inside [lo, hi) rearranges that range. */
  lemma SwapPermutes(s: seq<Node>, lo: int, hi: int, i: int, j: int)
    requires 0 <= lo <= i < hi <= |s| && lo <= j < hi
    ensures Permuted(s, s[i := s[j]][j := s[i]], lo, hi)
  {
    var t := s[i := s[j]][j := s[i]];
    var p := Pts(s[lo..hi]);
    assert Pts(t[lo..hi]) == p[i - lo := p[j - lo]][j - lo := p[i - lo]];
    SwapKeepsMultiset(p, i - lo, j - lo);
  }

  /** Exchanging two nodes inside [lo, hi) keeps the nodes of the range, links included. */
  lemma SwapKeepsNodes(s: seq<Node>, lo: int, hi: int, i: int, j: int)
    requires 0 <= lo <= i < hi <= |s| && lo <= j < hi
    ensures multiset(s[i := s[j]][j := s[i]][lo..hi]) == multiset(s[lo..hi])
  {
    var r := s[lo..hi];
    assert s[i := s[j]][j := s[i]][lo..hi] == r[i - lo := r[j - lo]][j - lo := r[i - lo]];
    SwapKeepsMultiset(r, i - lo, j - lo);
  }

  /** Exchanging two entries of a sequence keeps its multiset. */
  lemma SwapKeepsMultiset<T>(p: seq<T>, x: int, y: int)
    requires 0 <= x < |p| && 0 <= y < |p|
    ensures multiset(p[x := p[y]][y := p[x]]) == multiset(p)
  {
  }

  /** A bound on every point of a range survives any permutation of the range. */
  lemma PermutedBelow(s: seq<Node>, t: seq<Node>, lo: int, hi: int, axis: nat, v: int)
    requires 0 <= lo <= hi <= |s| && hi <= |t| && axis < D
    requires SamePoints(s, t, lo, hi)
    requires AllAtMost(s, lo, hi, axis, v)
    ensures AllAtMost(t, lo, hi, axis, v)
  {
    forall i | lo <= i < hi
      ensures t[i].Get(axis) <= v
    {
      assert Pts(t[lo..hi])[i - lo] == t[i].pt;
      assert t[i].pt in multiset(Pts(s[lo..hi]));
      var k :| 0 <= k < hi - lo && Pts(s[lo..hi])[k] == t[i].pt;
      assert s[lo + k].pt == t[i].pt;
    }
  }

  lemma PermutedAbove(s: seq<Node>, t: seq<Node>, lo: int, hi: int, axis: nat, v: int)
    requires 0 <= lo <= hi <= |s| && hi <= |t| && axis < D
    requires SamePoints(s, t, lo, hi)
    requires AllAtLeast(s, lo, hi, axis, v)
    ensures AllAtLeast(t, lo, hi, axis, v)
  {
    forall i | lo <= i < hi
      ensures v <= t[i].Get(axis)
    {
      assert Pts(t[lo..hi])[i - lo] == t[i].pt;
      assert t[i].pt in multiset(Pts(s[lo..hi]));
      var k :| 0 <= k < hi - lo && Pts(s[lo..hi])[k] == t[i].pt;
      assert s[lo + k].pt == t[i].pt;
    }
  }

  /**
   * A range that was permuted and then built (t) and copied unchanged into a
   * later snapshot (u): u keeps the tree shape, the points, and any upper bound
   * the original contents (s) had on an axis.
   */
  lemma SettledBelow(s: seq<Node>, t: seq<Node>, u: seq<Node>, a: int, b: int, axis: nat, v: int, baxis: nat, r: Option<nat>)
    requires 0 <= a <= b <= |s| && |t| == |s| && |u| == |s| && axis < D && baxis < D
    requires AllAtMost(s, a, b, axis, v)
    requires SamePoints(s, t, a, b) && Built(t, a, b, baxis, r)
    requires SameNodes(t, u, a, b)
    ensures AllAtMost(u, a, b, axis, v)
    ensures Built(u, a, b, baxis, r)
    ensures SamePoints(s, u, a, b)
  {
    assert u[a..b] == t[a..b];
    PermutedBelow(s, t, a, b, axis, v);
    BuiltFrame(t, u, a, b, baxis, r);
  }

  /** The same with a lower bound. */
  lemma SettledAbove(s: seq<Node>, t: seq<Node>, u: seq<Node>, a: int, b: int, axis: nat, v: int, baxis: nat, r: Option<nat>)
    requires 0 <= a <= b <= |s| && |t| == |s| && |u| == |s| && axis < D && baxis < D
    requires AllAtLeast(s, a, b, axis, v)
    requires SamePoints(s, t, a, b) && Built(t, a, b, baxis, r)
    requires SameNodes(t, u, a, b)
    ensures AllAtLeast(u, a, b, axis, v)
    ensures Built(u, a, b, baxis, r)
    ensures SamePoints(s, u, a, b)
  {
    assert u[a..b] == t[a..b];
    PermutedAbove(s, t, a, b, axis, v);
    BuiltFrame(t, u, a, b, baxis, r);
  }

  /**
   * One level of construction, snapshot by snapshot: the selection step (s1),
   * the left half built (s2), the right half built (s4) and the middle node
   * linked to both roots (s5), related as LevelLinked states. Then the
   * whole range is built, holds the points it held, and nothing outside it
   * changed.
   */
  lemma AssembleSubtree(s1: seq<Node>, s2: seq<Node>, s4: seq<Node>, s5: seq<Node>,
                        lo: int, hi: int, axis: nat, left: Option<nat>, right: Option<nat>)
    requires 0 <= lo < hi <= |s1| && axis < D
    requires SplitAt(s1, lo, hi, axis)
    requires LevelLinked(s1, s2, s4, s5, lo, Mid(lo, hi), hi, left, right)
    requires BuiltFrom(s1, s2, lo, Mid(lo, hi), NextAxis(axis), left)
    requires Built(s4, Mid(lo, hi) + 1, hi, NextAxis(axis), right)
    ensures BuiltFrom(s1, s5, lo, hi, axis, Some(Mid(lo, hi)))
  {
    LevelPoints(s1, s2, s4, s5, lo, hi, left, right);
    LevelShape(s1, s2, s4, s5, lo, hi, axis, left, right);
  }

  /**
   * One level of construction as the node array goes through it: selection
   * (s0 to s1), the left build (s2), its link (s3), the right build (s4) and
   * its link (s5). The range ends up built around its middle node, holding
   * the points it held, with nothing outside it changed.
   */
  lemma LevelBuilt(s0: seq<Node>, s1: seq<Node>, s2: seq<Node>, s3: seq<Node>, s4: seq<Node>, s5: seq<Node>,
                   lo: int, hi: int, axis: nat, left: Option<nat>, right: Option<nat>)
    requires 0 <= lo < hi <= |s0| && axis < D
    requires Permuted(s0, s1, lo, hi) && SplitAt(s1, lo, hi, axis)
    requires BuiltFrom(s1, s2, lo, Mid(lo, hi), NextAxis(axis), left)
    requires s3 == s2[Mid(lo, hi) := s2[Mid(lo, hi)].(left := left)]
    requires BuiltFrom(s3, s4, Mid(lo, hi) + 1, hi, NextAxis(axis), right)
    requires s5 == s4[Mid(lo, hi) := s4[Mid(lo, hi)].(right := right)]
    ensures BuiltFrom(s0, s5, lo, hi, axis, Some(Mid(lo, hi)))
  {
    LevelFrames(s1, s2, s3, s4, s5, lo, Mid(lo, hi), hi, left, right);
    AssembleSubtree(s1, s2, s4, s5, lo, hi, axis, left, right);
    PermutedTrans(s0, s1, s5, lo, hi);
  }

  /** The points of one construction level: the range holds the points the selection left in it. */
  lemma LevelPoints(s1: seq<Node>, s2: seq<Node>, s4: seq<Node>, s5: seq<Node>,
                    lo: int, hi: int, left: Option<nat>, right: Option<nat>)
    requires 0 <= lo < hi <= |s1|
    requires LevelLinked(s1, s2, s4, s5, lo, Mid(lo, hi), hi, left, right)
    requires SamePoints(s1, s2, lo, Mid(lo, hi))
    ensures SamePoints(s1, s5, lo, hi)
  {
    assert s5[lo..Mid(lo, hi)] == s2[lo..Mid(lo, hi)];
    assert s5[Mid(lo, hi) + 1..hi] == s4[Mid(lo, hi) + 1..hi];
    JoinPoints(s1, s5, lo, Mid(lo, hi), hi);
  }

  /**
   * The shape of one construction level: both halves keep the bound the
   * selection gave them and their tree shape, so the range is built around
   * its middle node.
   */
  lemma LevelShape(s1: seq<Node>, s2: seq<Node>, s4: seq<Node>, s5: seq<Node>,
                   lo: int, hi: int, axis: nat, left: Option<nat>, right: Option<nat>)
    requires 0 <= lo <= Mid(lo, hi) < hi <= |s1| && |s2| == |s1| && |s4| == |s1| && |s5| == |s1| && axis < D
    requires SplitAt(s1, lo, hi, axis)
    requires SamePoints(s1, s2, lo, Mid(lo, hi)) && Built(s2, lo, Mid(lo, hi), NextAxis(axis), left)
    requires SamePoints(s1, s4, Mid(lo, hi) + 1, hi) && Built(s4, Mid(lo, hi) + 1, hi, NextAxis(axis), right)
    requires SameNodes(s2, s5, lo, Mid(lo, hi)) && SameNodes(s4, s5, Mid(lo, hi) + 1, hi)
    requires s5[Mid(lo, hi)] == Node(s1[Mid(lo, hi)].pt, left, right)
    ensures Built(s5, lo, hi, axis, Some(Mid(lo, hi)))
  {
    var v := s1[Mid(lo, hi)].Get(axis);
    SettledBelow(s1, s2, s5, lo, Mid(lo, hi), axis, v, NextAxis(axis), left);
    SettledAbove(s1, s4, s5, Mid(lo, hi) + 1, hi, axis, v, NextAxis(axis), right);
    BuiltNode(s5, lo, hi, axis, v, left, right);
  }

  /** A middle node split on `axis` at v whose links lead to built halves roots a built range. */
  lemma BuiltNode(s: seq<Node>, lo: int, hi: int, axis: nat, v: int, left: Option<nat>, right: Option<nat>)
    requires 0 <= lo < hi <= |s| && axis < D
    requires s[Mid(lo, hi)].Get(axis) == v && s[Mid(lo, hi)].left == left && s[Mid(lo, hi)].right == right
    requires AllAtMost(s, lo, Mid(lo, hi), axis, v)
    requires AllAtLeast(s, Mid(lo, hi) + 1, hi, axis, v)
    requires Built(s, lo, Mid(lo, hi), NextAxis(axis), left)
    requires Built(s, Mid(lo, hi) + 1, hi, NextAxis(axis), right)
    ensures Built(s, lo, hi, axis, Some(Mid(lo, hi)))
  {
  }

  /** What the steps of one construction level leave in place, as LevelLinked states it. */
  lemma LevelFrames(s1: seq<Node>, s2: seq<Node>, s3: seq<Node>, s4: seq<Node>, s5: seq<Node>,
                    lo: int, n: int, hi: int, left: Option<nat>, right: Option<nat>)
    requires 0 <= lo <= n < hi <= |s1|
    requires Permuted(s1, s2, lo, n)
    requires s3 == s2[n := s2[n].(left := left)]
    requires Permuted(s3, s4, n + 1, hi)
    requires s5 == s4[n := s4[n].(right := right)]
    ensures LevelLinked(s1, s2, s4, s5, lo, n, hi, left, right)
  {
    assert s3[n + 1..hi] == s1[n + 1..hi];
  }

  /** Two ranges whose parts around n hold the same points hold the same points. */
  lemma JoinPoints(s: seq<Node>, t: seq<Node>, lo: int, n: int, hi: int)
    requires 0 <= lo <= n < hi <= |s| && |t| == |s|
    requires SamePoints(s, t, lo, n)
    requires t[n].pt == s[n].pt
    requires SamePoints(s, t, n + 1, hi)
    ensures SamePoints(s, t, lo, hi)
  {
    PtsSplit(s, lo, n, hi);
    PtsSplit(t, lo, n, hi);
  }
}
