/**
 * Circular doubly linked chains, stated over the two link tables of a node
 * arena: `next[n]` and `prev[n]` are the successor and predecessor of node `n`.
 *
 * A chain is written as the sequence of its nodes. `Path` says that
 * consecutive nodes are linked both ways, `Closed` that the last node links
 * back to the first, so that the chain is a whole circle. The lemmas below are
 * the facts every relinking step of the list needs: a circle may be read from
 * any of its nodes (`Rotate`), links that were not written keep a path intact
 * (`PathFrame`), two paths joined by a written link form one (`PathJoin`), and
 * rewriting three links at once either swaps two adjacent runs of one circle
 * (`SwapAdjacent`) or moves a run from one circle to another (`SplitMerge`).
 */
module Rings {

  type Node = nat

  ghost predicate Distinct(r: seq<Node>) {
    forall i, j :: 0 <= i < j < |r| ==> r[i] != r[j]
  }

  /** Both link tables cover the same nodes and every link names one of them. */
  ghost predicate Table(next: seq<Node>, prev: seq<Node>) {
    && |prev| == |next|
    && (forall x :: 0 <= x < |next| ==> next[x] < |next|)
    && (forall x :: 0 <= x < |prev| ==> prev[x] < |next|)
  }

  ghost predicate InRange(r: seq<Node>, n: nat) {
    forall i :: 0 <= i < |r| ==> r[i] < n
  }

  /** Consecutive nodes of `p` are linked forward by `next` and backward by `prev`. */
  ghost predicate Path(next: seq<Node>, prev: seq<Node>, p: seq<Node>) {
    && InRange(p, |next|)
    && InRange(p, |prev|)
    && forall i :: 0 <= i < |p| - 1 ==> next[p[i]] == p[i + 1] && prev[p[i + 1]] == p[i]
  }

  /** `r` is a whole circle: a path whose last node links back to its first. */
  ghost predicate Closed(next: seq<Node>, prev: seq<Node>, r: seq<Node>) {
    && |r| > 0
    && Path(next, prev, r)
    && next[r[|r| - 1]] == r[0]
    && prev[r[0]] == r[|r| - 1]
  }

  /**
   * `next2`/`prev2` are `next`/`prev` with exactly the three links
   * u1 -> v1, u2 -> v2, u3 -> v3 written over (forward at the u's,
   * backward at the v's); every other link is as before.
   */
  ghost predicate Relinked(next: seq<Node>, prev: seq<Node>, next2: seq<Node>, prev2: seq<Node>,
                           u1: Node, v1: Node, u2: Node, v2: Node, u3: Node, v3: Node)
  {
    && |next2| == |next| && |prev2| == |prev|
    && u1 < |next| && u2 < |next| && u3 < |next|
    && v1 < |prev| && v2 < |prev| && v3 < |prev|
    && next2[u1] == v1 && next2[u2] == v2 && next2[u3] == v3
    && prev2[v1] == u1 && prev2[v2] == u2 && prev2[v3] == u3
    && (forall x :: 0 <= x < |next| && x != u1 && x != u2 && x != u3 ==> next2[x] == next[x])
    && (forall x :: 0 <= x < |prev| && x != v1 && x != v2 && x != v3 ==> prev2[x] == prev[x])
  }

  lemma {:induction false} DistinctRotate(x: seq<Node>, y: seq<Node>)
    requires Distinct(x + y)
    ensures Distinct(y + x)
  {
    var r, q := x + y, y + x;
    forall i, j | 0 <= i < j < |q| ensures q[i] != q[j] {
      var i' := if i < |y| then |x| + i else i - |y|;
      var j' := if j < |y| then |x| + j else j - |y|;
      assert q[i] == r[i'] && q[j] == r[j'];
    }
  }

  lemma {:induction false} DistinctSwap(a: seq<Node>, b: seq<Node>, c: seq<Node>)
    requires Distinct(a + b + c)
    ensures Distinct(b + a + c)
  {
    var r, q := a + b + c, b + a + c;
    forall i, j | 0 <= i < j < |q| ensures q[i] != q[j] {
      var i' := if i < |b| then |a| + i else if i < |a| + |b| then i - |b| else i;
      var j' := if j < |b| then |a| + j else if j < |a| + |b| then j - |b| else j;
      assert q[i] == r[i'] && q[j] == r[j'];
    }
  }

  /** A circle read from another of its nodes is still a circle. */
  lemma {:induction false} Rotate(next: seq<Node>, prev: seq<Node>, x: seq<Node>, y: seq<Node>)
    requires Closed(next, prev, x + y)
    ensures Closed(next, prev, y + x)
  {
    var r, q := x + y, y + x;
    if x == [] {
      assert q == r;
    } else if y == [] {
      assert q == r;
    } else {
      forall i | 0 <= i < |q| ensures q[i] < |next| && q[i] < |prev| {
        if i < |y| { assert q[i] == r[|x| + i]; } else { assert q[i] == r[i - |y|]; }
      }
      forall i | 0 <= i < |q| - 1 ensures next[q[i]] == q[i + 1] && prev[q[i + 1]] == q[i] {
        if i < |y| - 1 {
          assert q[i] == r[|x| + i] && q[i + 1] == r[|x| + i + 1];
        } else if i == |y| - 1 {
          assert q[i] == r[|r| - 1] && q[i + 1] == r[0];
        } else {
          assert q[i] == r[i - |y|] && q[i + 1] == r[i - |y| + 1];
        }
      }
      assert q[|q| - 1] == r[|x| - 1] && q[0] == r[|x|];
    }
  }

  /** A circle of distinct nodes read from its `i`-th node. */
  lemma RotateAt(next: seq<Node>, prev: seq<Node>, r: seq<Node>, i: nat)
    requires Closed(next, prev, r) && Distinct(r) && i <= |r|
    ensures Closed(next, prev, r[i..] + r[..i]) && Distinct(r[i..] + r[..i])
  {
    assert r == r[..i] + r[i..];
    Rotate(next, prev, r[..i], r[i..]);
    DistinctRotate(r[..i], r[i..]);
  }

  /** On a circle, each node's predecessor is the node before it (the last one for the first). */
  lemma Neighbour(next: seq<Node>, prev: seq<Node>, r: seq<Node>, k: nat)
    requires Closed(next, prev, r) && k < |r|
    ensures prev[r[k]] == (if k > 0 then r[k - 1] else r[|r| - 1])
    ensures next[prev[r[k]]] == r[k]
  {
  }

  /** One step forward along a circle, wrapping from its last node to its first. */
  lemma Step(next: seq<Node>, prev: seq<Node>, r: seq<Node>, k: nat)
    requires Closed(next, prev, r) && k < |r|
    ensures next[r[k]] == r[if k + 1 == |r| then 0 else k + 1]
  {
  }

  /**
   * A fresh node `n`, linked in just before the `k`-th node of a circle of
   * distinct nodes (forward from that node's predecessor, backward from the
   * node itself), joins the circle at position k.
   */
  lemma {:induction false} InsertBefore(next: seq<Node>, prev: seq<Node>, r: seq<Node>, k: nat, n: Node)
    requires Table(next, prev) && Closed(next, prev, r) && Distinct(r) && k < |r| && n == |next|
    ensures var pos := r[k];
            var p := prev[pos];
            var next2, prev2 := (next + [pos])[p := n], (prev + [p])[pos := n];
            && Closed(next2, prev2, r[..k] + [n] + r[k..])
            && Distinct(r[..k] + [n] + r[k..])
  {
    var pos := r[k];
    var p := prev[pos];
    var next2, prev2 := (next + [pos])[p := n], (prev + [p])[pos := n];
    RotateAt(next, prev, r, k);
    Neighbour(next, prev, r, k);
    var q := r[k..] + r[..k];
    assert q[0] == pos && q[|q| - 1] == p;
    assert InRange(r, |next|);
    assert n !in q;
    CloseAfter(next, prev, q, n);
    assert q + [n] == r[k..] + (r[..k] + [n]);
    Rotate(next2, prev2, r[k..], r[..k] + [n]);
    DistinctRotate(r[k..], r[..k] + [n]);
  }

  /** A fresh node linked in after the last node of a circle of distinct nodes closes it again. */
  lemma {:induction false} CloseAfter(next: seq<Node>, prev: seq<Node>, q: seq<Node>, n: Node)
    requires Closed(next, prev, q) && Distinct(q) && n == |next| == |prev| && n !in q
    ensures var next2, prev2 := (next + [q[0]])[q[|q| - 1] := n], (prev + [q[|q| - 1]])[q[0] := n];
            Closed(next2, prev2, q + [n]) && Distinct(q + [n])
  {
    var pos, p := q[0], q[|q| - 1];
    var next2, prev2 := (next + [pos])[p := n], (prev + [p])[pos := n];
    PathFrame(next, prev, next2, prev2, q);
    assert Path(next2, prev2, [n]);
    CloseTwo(next2, prev2, q, [n]);
    forall i, j | 0 <= i < j < |q + [n]| ensures (q + [n])[i] != (q + [n])[j] {
      if j < |q| { assert (q + [n])[i] == q[i] && (q + [n])[j] == q[j]; }
    }
  }

  /**
   * Linking the predecessor and the successor of the `k`-th node of a circle
   * of at least two distinct nodes to each other leaves a circle without it.
   */
  lemma {:induction false} RemoveAt(next: seq<Node>, prev: seq<Node>, r: seq<Node>, k: nat)
    requires Table(next, prev) && Closed(next, prev, r) && Distinct(r) && k < |r| && |r| >= 2
    ensures var x := r[k];
            var p, q := prev[x], next[x];
            && Closed(next[p := q], prev[q := p], r[..k] + r[k + 1..])
            && Distinct(r[..k] + r[k + 1..])
  {
    var x := r[k];
    var p, q := prev[x], next[x];
    Unlink(next, prev, r, k);
    Rotate(next[p := q], prev[q := p], r[k + 1..], r[..k]);
    DistinctRotate(r[k + 1..], r[..k]);
  }

  /** Unlinking the node at `k` closes the circle read from its successor round to its predecessor. */
  lemma Unlink(next: seq<Node>, prev: seq<Node>, r: seq<Node>, k: nat)
    requires Table(next, prev) && Closed(next, prev, r) && Distinct(r) && k < |r| && |r| >= 2
    ensures var x := r[k];
            var p, q := prev[x], next[x];
            && Closed(next[p := q], prev[q := p], r[k + 1..] + r[..k])
            && Distinct(r[k + 1..] + r[..k])
  {
    RotateAt(next, prev, r, k);
    var t := r[k..] + r[..k];
    assert t[0] == r[k] && t[1..] == r[k + 1..] + r[..k];
    UnlinkFirst(next, prev, t);
  }

  /** Unlinking the first node of a circle closes the rest of it. */
  lemma UnlinkFirst(next: seq<Node>, prev: seq<Node>, t: seq<Node>)
    requires Table(next, prev) && Closed(next, prev, t) && Distinct(t) && |t| >= 2
    ensures var p, q := prev[t[0]], next[t[0]];
            && Closed(next[p := q], prev[q := p], t[1..])
            && Distinct(t[1..])
  {
    var p, q := t[|t| - 1], t[1];
    var next2, prev2 := next[p := q], prev[q := p];
    var rest := t[1..];
    assert rest[0] == q && rest[|rest| - 1] == p;
    PathSlice(next, prev, t, 1, |t|);
    DistinctSlice(t, 1, |t|);
    forall i | 0 <= i < |rest| - 1 ensures next2[rest[i]] == next[rest[i]] {
      assert rest[i] == t[i + 1] && p == t[|t| - 1];
    }
    forall i | 0 < i < |rest| ensures prev2[rest[i]] == prev[rest[i]] {
      assert rest[i] == t[i + 1] && q == t[1];
    }
    PathFrame(next, prev, next2, prev2, rest);
  }



  lemma PathSlice(next: seq<Node>, prev: seq<Node>, p: seq<Node>, i: nat, j: nat)
    requires Path(next, prev, p) && i <= j <= |p|
    ensures Path(next, prev, p[i..j])
  {
    var s := p[i..j];
    forall k | 0 <= k < |s| - 1 ensures next[s[k]] == s[k + 1] && prev[s[k + 1]] == s[k] {
      assert s[k] == p[i + k] && s[k + 1] == p[i + k + 1];
    }
  }

  /** Links that were not written over leave a path intact. */
  lemma PathFrame(next: seq<Node>, prev: seq<Node>, next2: seq<Node>, prev2: seq<Node>, p: seq<Node>)
    requires Path(next, prev, p)
    requires InRange(p, |next2|) && InRange(p, |prev2|)
    requires forall i :: 0 <= i < |p| - 1 ==> next2[p[i]] == next[p[i]]
    requires forall i :: 0 < i < |p| ==> prev2[p[i]] == prev[p[i]]
    ensures Path(next2, prev2, p)
  {
    forall i | 0 <= i < |p| - 1 ensures next2[p[i]] == p[i + 1] && prev2[p[i + 1]] == p[i] {
      assert prev2[p[i + 1]] == prev[p[i + 1]];
    }
  }

  /** Two paths joined by a link both ways form one path. */
  lemma {:induction false} PathJoin(next: seq<Node>, prev: seq<Node>, p: seq<Node>, q: seq<Node>)
    requires Path(next, prev, p) && Path(next, prev, q) && |p| > 0 && |q| > 0
    requires next[p[|p| - 1]] == q[0] && prev[q[0]] == p[|p| - 1]
    ensures Path(next, prev, p + q)
  {
    var r := p + q;
    forall i | 0 <= i < |r| ensures r[i] < |next| && r[i] < |prev| {
      if i >= |p| { assert r[i] == q[i - |p|]; }
    }
    forall i | 0 <= i < |r| - 1 ensures next[r[i]] == r[i + 1] && prev[r[i + 1]] == r[i] {
      if i < |p| - 1 {
        assert r[i] == p[i] && r[i + 1] == p[i + 1];
      } else if i == |p| - 1 {
        assert r[i] == p[|p| - 1] && r[i + 1] == q[0];
      } else {
        assert r[i] == q[i - |p|] && r[i + 1] == q[i - |p| + 1];
      }
    }
  }

  /** Two paths, each linked to the start of the other, close into a circle. */
  lemma CloseTwo(next: seq<Node>, prev: seq<Node>, p: seq<Node>, q: seq<Node>)
    requires Path(next, prev, p) && Path(next, prev, q) && |p| > 0 && |q| > 0
    requires next[p[|p| - 1]] == q[0] && prev[q[0]] == p[|p| - 1]
    requires next[q[|q| - 1]] == p[0] && prev[p[0]] == q[|q| - 1]
    ensures Closed(next, prev, p + q)
  {
    PathJoin(next, prev, p, q);
    assert (p + q)[|p + q| - 1] == q[|q| - 1];
  }

  ghost predicate Owned(owner: seq<Node>, r: seq<Node>, s: Node) {
    forall x :: x in r ==> x < |owner| && owner[x] == s
  }

  lemma DistinctSlice(r: seq<Node>, i: nat, j: nat)
    requires Distinct(r) && i <= j <= |r|
    ensures Distinct(r[i..j])
  {
    var q := r[i..j];
    forall a, b | 0 <= a < b < |q| ensures q[a] != q[b] {
      assert q[a] == r[i + a] && q[b] == r[i + b];
    }
  }

  /** Two chains without repeats whose nodes have different owners concatenate without repeats. */
  lemma {:induction false} DistinctOwned(owner: seq<Node>, x: seq<Node>, y: seq<Node>, s: Node, t: Node)
    requires Distinct(x) && Distinct(y) && Owned(owner, x, s) && Owned(owner, y, t) && s != t
    ensures Distinct(x + y)
  {
    var r := x + y;
    forall i, j | 0 <= i < j < |r| ensures r[i] != r[j] {
      if j < |x| {
        assert r[i] == x[i] && r[j] == x[j];
      } else if i >= |x| {
        assert r[i] == y[i - |x|] && r[j] == y[j - |x|];
      } else {
        assert r[i] == x[i] && r[j] == y[j - |x|];
        assert r[i] in x && r[j] in y;
      }
    }
  }

  /**
   * A circle read from its sentinel `s` becomes a circle read from `s2` when
   * the chain's two end links are redirected to `s2` and `s2` closes it.
   */
  lemma {:induction false} Reanchor(next: seq<Node>, prev: seq<Node>, next2: seq<Node>, prev2: seq<Node>,
                                    c: seq<Node>, s: Node, s2: Node)
    requires Closed(next, prev, c + [s]) && |c| > 0
    requires InRange(c, |next|) && InRange(c, |prev|)
    requires s2 < |next2| && s2 < |prev2| && InRange(c, |next2|) && InRange(c, |prev2|)
    requires forall i :: 0 <= i < |c| - 1 ==> next2[c[i]] == next[c[i]]
    requires forall i :: 0 < i < |c| ==> prev2[c[i]] == prev[c[i]]
    requires next2[c[|c| - 1]] == s2 && prev2[s2] == c[|c| - 1]
    requires next2[s2] == c[0] && prev2[c[0]] == s2
    ensures Closed(next2, prev2, c + [s2])
  {
    ThreeRuns(next, prev, c, [s], []);
    PathFrame(next, prev, next2, prev2, c);
    CloseTwo(next2, prev2, c, [s2]);
  }

  /** A circle split into three consecutive runs yields three paths. */
  lemma ThreeRuns(next: seq<Node>, prev: seq<Node>, a: seq<Node>, b: seq<Node>, c: seq<Node>)
    requires Path(next, prev, a + b + c)
    ensures Path(next, prev, a) && Path(next, prev, b) && Path(next, prev, c)
  {
    var r := a + b + c;
    PathSlice(next, prev, r, 0, |a|);
    PathSlice(next, prev, r, |a|, |a| + |b|);
    PathSlice(next, prev, r, |a| + |b|, |r|);
    assert r[..|a|] == a && r[|a|..|a| + |b|] == b && r[|a| + |b|..] == c;
  }

  // Sequences that a splice produces, stated for any element type.

  /** `dst` with the run `src[kf..kl]` placed before position `kp`. */
  function InsertRun<X>(dst: seq<X>, kp: nat, src: seq<X>, kf: nat, kl: nat): (r: seq<X>)
    requires kp <= |dst| && kf <= kl <= |src|
    ensures |r| == |dst| + (kl - kf)
  {
    dst[..kp] + src[kf..kl] + dst[kp..]
  }

  /** `src` without the run `src[kf..kl]`. */
  function RemoveRun<X>(src: seq<X>, kf: nat, kl: nat): (r: seq<X>)
    requires kf <= kl <= |src|
    ensures |r| == |src| - (kl - kf)
  {
    src[..kf] + src[kl..]
  }

  /** Within one sequence, the run `c[kf..kl]` moved to just before position `kp`, which lies outside it. */
  function MoveRun<X>(c: seq<X>, kp: nat, kf: nat, kl: nat): (r: seq<X>)
    requires kf <= kl <= |c| && kp <= |c| && (kp <= kf || kl <= kp)
    ensures |r| == |c|
  {
    if kp <= kf then c[..kp] + c[kf..kl] + c[kp..kf] + c[kl..]
    else c[..kf] + c[kl..kp] + c[kf..kl] + c[kp..]
  }

  // Identities between slices, proved apart from any circle so that the
  // proofs about circles need not rediscover them.

  lemma RotatedPieces<X>(r: seq<X>, i: nat, j: nat, k: nat)
    requires i <= j <= k <= |r|
    ensures r[i..] + r[..i] == r[i..j] + r[j..k] + (r[k..] + r[..i])
  {
  }

  lemma RunFirst<X>(r: seq<X>, i: nat, j: nat)
    requires i <= j <= |r|
    ensures r[i..] + r[..i] == r[i..j] + (r[j..] + r[..i])
  {
  }

  lemma MoveRunPieces<X>(c: seq<X>, s: X, kp: nat, kf: nat, kl: nat)
    requires kf <= kl <= |c| && kp <= |c| && (kp <= kf || kl <= kp)
    ensures var r := c + [s];
            if kp <= kf then
              && MoveRun(c, kp, kf, kl) + [s] == r[..kp] + (r[kf..kl] + r[kp..kf] + r[kl..])
              && r[kf..kl] + r[kp..kf] + (r[kl..] + r[..kp]) == (r[kf..kl] + r[kp..kf] + r[kl..]) + r[..kp]
            else
              && MoveRun(c, kp, kf, kl) + [s] == r[..kf] + (r[kl..kp] + r[kf..kl] + r[kp..])
              && r[kl..kp] + r[kf..kl] + (r[kp..] + r[..kf]) == (r[kl..kp] + r[kf..kl] + r[kp..]) + r[..kf]
  {
    var r := c + [s];
    assert r[..kp] == c[..kp] && r[kl..] == c[kl..] + [s] && r[kp..] == c[kp..] + [s];
    assert r[..kf] == c[..kf] && r[kf..kl] == c[kf..kl];
    if kp <= kf {
      assert r[kp..kf] == c[kp..kf];
    } else {
      assert r[kl..kp] == c[kl..kp];
    }
  }

  lemma InsertRunPieces<X>(cd: seq<X>, d: X, cs: seq<X>, s: X, kp: nat, kf: nat, kl: nat)
    requires kp <= |cd| && kf <= kl <= |cs|
    ensures var dst, src := cd + [d], cs + [s];
            && InsertRun(cd, kp, cs, kf, kl) + [d] == dst[..kp] + (src[kf..kl] + dst[kp..])
            && src[kf..kl] + (dst[kp..] + dst[..kp]) == (src[kf..kl] + dst[kp..]) + dst[..kp]
            && RemoveRun(cs, kf, kl) + [s] == src[..kf] + src[kl..]
            && src[kf..] + src[..kf] == src[kf..kl] + (src[kl..] + src[..kf])
  {
    var dst, src := cd + [d], cs + [s];
    assert dst[..kp] == cd[..kp] && dst[kp..] == cd[kp..] + [d];
    assert src[..kf] == cs[..kf] && src[kf..kl] == cs[kf..kl] && src[kl..] == cs[kl..] + [s];
  }

  /** Moving a run within one sequence keeps every element: the result is a permutation. */
  lemma MoveRunPermutes<X>(c: seq<X>, kp: nat, kf: nat, kl: nat)
    requires kf <= kl <= |c| && kp <= |c| && (kp <= kf || kl <= kp)
    ensures multiset(MoveRun(c, kp, kf, kl)) == multiset(c)
  {
    if kp <= kf {
      var a, b, x, d := c[..kp], c[kp..kf], c[kf..kl], c[kl..];
      assert c == a + b + x + d;
      assert MoveRun(c, kp, kf, kl) == a + x + b + d;
      Reorder(a, b, x, d);
    } else {
      var a, x, b, d := c[..kf], c[kf..kl], c[kl..kp], c[kp..];
      assert c == a + x + b + d;
      assert MoveRun(c, kp, kf, kl) == a + b + x + d;
      Reorder(a, x, b, d);
    }
  }

  /** Exchanging two adjacent middle pieces keeps the multiset of elements. */
  lemma Reorder<X>(a: seq<X>, b: seq<X>, x: seq<X>, d: seq<X>)
    ensures multiset(a + x + b + d) == multiset(a + b + x + d)
  {
  }

  /** Moving a run between two sequences neither loses nor duplicates an element. */
  lemma MoveRunBetween<X>(dst: seq<X>, kp: nat, src: seq<X>, kf: nat, kl: nat)
    requires kp <= |dst| && kf <= kl <= |src|
    ensures multiset(InsertRun(dst, kp, src, kf, kl)) + multiset(RemoveRun(src, kf, kl))
            == multiset(dst) + multiset(src)
  {
    assert dst == dst[..kp] + dst[kp..];
    assert src == src[..kf] + src[kf..kl] + src[kl..];
  }

  /**
   * Relinking the ends of three consecutive runs A, B, C of one circle so
   * that A's end leads to C, B's end to A and C's end to B exchanges the
   * first two runs: the circle now reads B, A, C.
   */
  lemma {:induction false} SwapAdjacent(next: seq<Node>, prev: seq<Node>, next2: seq<Node>, prev2: seq<Node>,
                                        a: seq<Node>, b: seq<Node>, c: seq<Node>)
    requires |a| > 0 && |b| > 0 && |c| > 0
    requires Closed(next, prev, a + b + c) && Distinct(a + b + c)
    requires Relinked(next, prev, next2, prev2,
                      a[|a| - 1], c[0], b[|b| - 1], a[0], c[|c| - 1], b[0])
    ensures Closed(next2, prev2, b + a + c)
  {
    var r := a + b + c;
    var la, lb, lc := |a|, |a| + |b|, |r|;
    ThreeRuns(next, prev, a, b, c);
    assert a[la - 1] == r[la - 1] && b[|b| - 1] == r[lb - 1] && c[|c| - 1] == r[lc - 1];
    assert a[0] == r[0] && b[0] == r[la] && c[0] == r[lb];
    forall i | 0 <= i < |a| - 1 ensures next2[a[i]] == next[a[i]] {
      assert a[i] == r[i];
    }
    forall i | 0 < i < |a| ensures prev2[a[i]] == prev[a[i]] {
      assert a[i] == r[i];
    }
    forall i | 0 <= i < |b| - 1 ensures next2[b[i]] == next[b[i]] {
      assert b[i] == r[la + i];
    }
    forall i | 0 < i < |b| ensures prev2[b[i]] == prev[b[i]] {
      assert b[i] == r[la + i];
    }
    forall i | 0 <= i < |c| - 1 ensures next2[c[i]] == next[c[i]] {
      assert c[i] == r[lb + i];
    }
    forall i | 0 < i < |c| ensures prev2[c[i]] == prev[c[i]] {
      assert c[i] == r[lb + i];
    }
    PathFrame(next, prev, next2, prev2, a);
    PathFrame(next, prev, next2, prev2, b);
    PathFrame(next, prev, next2, prev2, c);
    PathJoin(next2, prev2, b, a);
    assert (b + a)[|b + a| - 1] == a[|a| - 1];
    CloseTwo(next2, prev2, b + a, c);
  }

  /**
   * Cutting the run M out of the circle M, N and closing N on itself, while
   * linking M into the circle Q, leaves two circles: M followed by Q, and N.
   */
  lemma {:induction false} SplitMerge(next: seq<Node>, prev: seq<Node>, next2: seq<Node>, prev2: seq<Node>,
                                      m: seq<Node>, n: seq<Node>, q: seq<Node>)
    requires |m| > 0 && |n| > 0 && |q| > 0
    requires Closed(next, prev, m + n) && Closed(next, prev, q) && Distinct(m + n + q)
    requires Relinked(next, prev, next2, prev2,
                      q[|q| - 1], m[0], n[|n| - 1], n[0], m[|m| - 1], q[0])
    ensures Closed(next2, prev2, m + q)
    ensures Closed(next2, prev2, n)
  {
    var r := m + n + q;
    var lm, ln := |m|, |m| + |n|;
    assert Path(next, prev, m + n + []);
    ThreeRuns(next, prev, m, n, []);
    assert m[lm - 1] == r[lm - 1] && n[|n| - 1] == r[ln - 1] && q[|q| - 1] == r[|r| - 1];
    assert m[0] == r[0] && n[0] == r[lm] && q[0] == r[ln];
    forall i | 0 <= i < |m| - 1 ensures next2[m[i]] == next[m[i]] {
      assert m[i] == r[i];
    }
    forall i | 0 < i < |m| ensures prev2[m[i]] == prev[m[i]] {
      assert m[i] == r[i];
    }
    forall i | 0 <= i < |n| - 1 ensures next2[n[i]] == next[n[i]] {
      assert n[i] == r[lm + i];
    }
    forall i | 0 < i < |n| ensures prev2[n[i]] == prev[n[i]] {
      assert n[i] == r[lm + i];
    }
    forall i | 0 <= i < |q| - 1 ensures next2[q[i]] == next[q[i]] {
      assert q[i] == r[ln + i];
    }
    forall i | 0 < i < |q| ensures prev2[q[i]] == prev[q[i]] {
      assert q[i] == r[ln + i];
    }
    PathFrame(next, prev, next2, prev2, m);
    PathFrame(next, prev, next2, prev2, n);
    PathFrame(next, prev, next2, prev2, q);
    CloseTwo(next2, prev2, m, q);
  }
}
