/**
 * The two relinking steps of list.h exactly as the C++ writes them, statement
 * by statement, on the link tables. A C++ statement that assigns through a
 * reference reads the tables as they are at that point, so two references that
 * name the same field (which the source does not rule out) behave here as they
 * do there.
 *
 * `swap` is proved correct when the two lists are distinct and both hold a
 * value. `splice` is proved correct when the three links its rotations
 * rewrite are distinct: a non-empty run, and `pos` neither inside the run nor
 * equal to `last`. For each step a concrete input outside those conditions
 * shows it going wrong; these are the cases in which the list model guards
 * them (see `Arena.Swap` and `Arena.Splice` in list.dfy).
 */
module AsWritten {
  import opened Rings

  /**
   * `swap(a, b)`: exchange the two sentinels' `next` and `prev` fields, then
   * point each new neighbour of a sentinel back at that sentinel.
   */
  function SwapAsWritten(next: seq<Node>, prev: seq<Node>, a: Node, b: Node): (r: (seq<Node>, seq<Node>))
    requires Table(next, prev) && a < |next| && b < |next|
    ensures Table(r.0, r.1) && |r.0| == |next|
  {
    // Exchange the two sentinels' link fields.
    var n1 := next[a := next[b]][b := next[a]];
    var p1 := prev[a := prev[b]][b := prev[a]];
    // Point the new neighbours of `a` back at `a`.
    var p2 := p1[n1[a] := a];
    var n2 := n1[p2[a] := a];
    // Point the new neighbours of `b` back at `b`.
    var p3 := p2[n2[b] := b];
    var n3 := n2[p3[b] := b];
    (n3, p3)
  }

  /**
   * `splice(pos, other, first, last)`: rotate the `next` fields of the
   * predecessors of `pos`, `first` and `last`, then the `prev` fields of `pos`,
   * `last` and `first`, each rotation through a temporary as `triswap` does.
   */
  function SpliceAsWritten(next: seq<Node>, prev: seq<Node>, pos: Node, first: Node, last: Node): (r: (seq<Node>, seq<Node>))
    requires Table(next, prev) && pos < |next| && first < |next| && last < |next|
    ensures Table(r.0, r.1) && |r.0| == |next|
  {
    // Rotate the `next` fields of the three predecessors.
    var x, y, z := prev[pos], prev[first], prev[last];
    var t1 := next[x];
    var n1 := next[x := next[y]];
    var n2 := n1[y := n1[z]];
    var n3 := n2[z := t1];
    // Rotate the `prev` fields of `pos`, `last` and `first`.
    var t2 := prev[pos];
    var p1 := prev[pos := prev[last]];
    var p2 := p1[last := p1[first]];
    var p3 := p2[first := t2];
    (n3, p3)
  }

  /**
   * When the three positions and their three predecessors are pairwise
   * distinct, splice rewrites exactly three links: pos's predecessor now
   * leads to `first`, first's predecessor to `last`, last's predecessor to
   * `pos`.
   */
  lemma SpliceAsWrittenRelinks(next: seq<Node>, prev: seq<Node>, pos: Node, first: Node, last: Node)
    requires Table(next, prev) && pos < |next| && first < |next| && last < |next|
    requires next[prev[pos]] == pos && next[prev[first]] == first && next[prev[last]] == last
    requires pos != first && first != last && pos != last
    requires prev[pos] != prev[first] && prev[first] != prev[last] && prev[pos] != prev[last]
    ensures var r := SpliceAsWritten(next, prev, pos, first, last);
            Relinked(next, prev, r.0, r.1, prev[pos], first, prev[first], last, prev[last], pos)
  {
  }

  /**
   * Splice within one list, whose circle is `c` followed by its sentinel `s`:
   * when the range [kf, kl) is not empty and `pos`, at kp, lies outside
   * [kf, kl], the run is moved to just before `pos` and the circle closes.
   */
  lemma SpliceAsWrittenWithin(next: seq<Node>, prev: seq<Node>, c: seq<Node>, s: Node,
                              kp: nat, kf: nat, kl: nat)
    requires Table(next, prev)
    requires Closed(next, prev, c + [s]) && Distinct(c + [s])
    requires kf < kl <= |c| && kp <= |c| && (kp < kf || kl < kp)
    ensures var ring := c + [s];
            var r := SpliceAsWritten(next, prev, ring[kp], ring[kf], ring[kl]);
            && Relinked(next, prev, r.0, r.1, prev[ring[kp]], ring[kf], prev[ring[kf]], ring[kl], prev[ring[kl]], ring[kp])
            && Closed(r.0, r.1, MoveRun(c, kp, kf, kl) + [s])
            && Distinct(MoveRun(c, kp, kf, kl) + [s])
  {
    var ring := c + [s];
    var pos, first, last := ring[kp], ring[kf], ring[kl];
    Neighbour(next, prev, ring, kp);
    Neighbour(next, prev, ring, kf);
    Neighbour(next, prev, ring, kl);
    var r := SpliceAsWritten(next, prev, pos, first, last);
    SpliceAsWrittenRelinks(next, prev, pos, first, last);
    if kp < kf {
      MoveBackward(next, prev, r.0, r.1, c, s, kp, kf, kl);
    } else {
      MoveForward(next, prev, r.0, r.1, c, s, kp, kf, kl);
    }
  }

  /** The relinking of a splice within one list, when `pos` comes before the run. */
  lemma {:induction false} MoveBackward(next: seq<Node>, prev: seq<Node>, next2: seq<Node>, prev2: seq<Node>,
                                        c: seq<Node>, s: Node, kp: nat, kf: nat, kl: nat)
    requires Closed(next, prev, c + [s]) && Distinct(c + [s])
    requires kp < kf < kl <= |c|
    requires var ring := c + [s];
             Relinked(next, prev, next2, prev2,
                      if kp > 0 then ring[kp - 1] else s, ring[kf], ring[kf - 1], ring[kl], ring[kl - 1], ring[kp])
    ensures Closed(next2, prev2, MoveRun(c, kp, kf, kl) + [s])
    ensures Distinct(MoveRun(c, kp, kf, kl) + [s])
  {
    var ring := c + [s];
    var a, b, d := ring[kp..kf], ring[kf..kl], ring[kl..] + ring[..kp];
    RotatedPieces(ring, kp, kf, kl);
    MoveRunPieces(c, s, kp, kf, kl);
    RotateAt(next, prev, ring, kp);
    assert d[|d| - 1] == (if kp > 0 then ring[kp - 1] else s);
    assert a[|a| - 1] == ring[kf - 1] && b[|b| - 1] == ring[kl - 1];
    assert a[0] == ring[kp] && b[0] == ring[kf] && d[0] == ring[kl];
    SwapAdjacent(next, prev, next2, prev2, a, b, d);
    DistinctSwap(a, b, d);
    Rotate(next2, prev2, b + a + ring[kl..], ring[..kp]);
    DistinctRotate(b + a + ring[kl..], ring[..kp]);
  }

  /** The relinking of a splice within one list, when `pos` comes after the run. */
  lemma {:induction false} MoveForward(next: seq<Node>, prev: seq<Node>, next2: seq<Node>, prev2: seq<Node>,
                                       c: seq<Node>, s: Node, kp: nat, kf: nat, kl: nat)
    requires Closed(next, prev, c + [s]) && Distinct(c + [s])
    requires kf < kl < kp <= |c|
    requires var ring := c + [s];
             Relinked(next, prev, next2, prev2,
                      ring[kp - 1], ring[kf], if kf > 0 then ring[kf - 1] else s, ring[kl], ring[kl - 1], ring[kp])
    ensures Closed(next2, prev2, MoveRun(c, kp, kf, kl) + [s])
    ensures Distinct(MoveRun(c, kp, kf, kl) + [s])
  {
    var ring := c + [s];
    var a, b, d := ring[kf..kl], ring[kl..kp], ring[kp..] + ring[..kf];
    RotatedPieces(ring, kf, kl, kp);
    MoveRunPieces(c, s, kp, kf, kl);
    RotateAt(next, prev, ring, kf);
    assert b[|b| - 1] == ring[kp - 1] && a[|a| - 1] == ring[kl - 1];
    assert d[|d| - 1] == (if kf > 0 then ring[kf - 1] else s);
    assert a[0] == ring[kf] && b[0] == ring[kl] && d[0] == ring[kp];
    SwapAdjacent(next, prev, next2, prev2, a, b, d);
    DistinctSwap(a, b, d);
    Rotate(next2, prev2, b + a + ring[kp..], ring[..kf]);
    DistinctRotate(b + a + ring[kp..], ring[..kf]);
  }

  /**
   * Splice from another list: the destination circle is `cd` followed by its
   * sentinel `d`, the source circle `cs` followed by `s`. A non-empty run
   * [kf, kl) of the source is moved before position kp of the destination, and
   * each circle closes again.
   */
  lemma SpliceAsWrittenAcross(next: seq<Node>, prev: seq<Node>, owner: seq<Node>,
                              cd: seq<Node>, d: Node, cs: seq<Node>, s: Node,
                              kp: nat, kf: nat, kl: nat)
    requires Table(next, prev)
    requires Closed(next, prev, cd + [d]) && Distinct(cd + [d]) && Owned(owner, cd + [d], d)
    requires Closed(next, prev, cs + [s]) && Distinct(cs + [s]) && Owned(owner, cs + [s], s)
    requires d != s && kp <= |cd| && kf < kl <= |cs|
    ensures var dst, src := cd + [d], cs + [s];
            var r := SpliceAsWritten(next, prev, dst[kp], src[kf], src[kl]);
            && Relinked(next, prev, r.0, r.1, prev[dst[kp]], src[kf], prev[src[kf]], src[kl], prev[src[kl]], dst[kp])
            && Closed(r.0, r.1, InsertRun(cd, kp, cs, kf, kl) + [d])
            && Distinct(InsertRun(cd, kp, cs, kf, kl) + [d])
            && Closed(r.0, r.1, RemoveRun(cs, kf, kl) + [s])
            && Distinct(RemoveRun(cs, kf, kl) + [s])
  {
    var dst, src := cd + [d], cs + [s];
    var pos, first, last := dst[kp], src[kf], src[kl];
    Neighbour(next, prev, dst, kp);
    Neighbour(next, prev, src, kf);
    Neighbour(next, prev, src, kl);
    assert pos in dst && prev[pos] in dst && first in src && prev[first] in src;
    var r := SpliceAsWritten(next, prev, pos, first, last);
    SpliceAsWrittenRelinks(next, prev, pos, first, last);
    MoveAcross(next, prev, r.0, r.1, owner, cd, d, cs, s, kp, kf, kl);
  }

  /** The relinking of a splice between two lists. */
  lemma {:induction false} MoveAcross(next: seq<Node>, prev: seq<Node>, next2: seq<Node>, prev2: seq<Node>,
                                      owner: seq<Node>, cd: seq<Node>, d: Node, cs: seq<Node>, s: Node,
                                      kp: nat, kf: nat, kl: nat)
    requires Closed(next, prev, cd + [d]) && Distinct(cd + [d]) && Owned(owner, cd + [d], d)
    requires Closed(next, prev, cs + [s]) && Distinct(cs + [s]) && Owned(owner, cs + [s], s)
    requires d != s && kp <= |cd| && kf < kl <= |cs|
    requires var dst, src := cd + [d], cs + [s];
             Relinked(next, prev, next2, prev2,
                      if kp > 0 then dst[kp - 1] else d, src[kf],
                      if kf > 0 then src[kf - 1] else s, src[kl],
                      src[kl - 1], dst[kp])
    ensures Closed(next2, prev2, InsertRun(cd, kp, cs, kf, kl) + [d])
    ensures Distinct(InsertRun(cd, kp, cs, kf, kl) + [d])
    ensures Closed(next2, prev2, RemoveRun(cs, kf, kl) + [s])
    ensures Distinct(RemoveRun(cs, kf, kl) + [s])
  {
    var dst, src := cd + [d], cs + [s];
    var m, n, q := src[kf..kl], src[kl..] + src[..kf], dst[kp..] + dst[..kp];
    InsertRunPieces(cd, d, cs, s, kp, kf, kl);
    AcrossRelink(next, prev, next2, prev2, owner, dst, d, src, s, kp, kf, kl);
    AcrossCloseDestination(next2, prev2, m, n, dst, kp);
    AcrossCloseSource(next2, prev2, m, src, kf, kl, q);
  }

  /**
   * The three links rewritten by a splice between two lists cut the run out
   * of the source and close it into the destination read from `pos`.
   */
  lemma AcrossRelink(next: seq<Node>, prev: seq<Node>, next2: seq<Node>, prev2: seq<Node>,
                     owner: seq<Node>, dst: seq<Node>, d: Node, src: seq<Node>, s: Node,
                     kp: nat, kf: nat, kl: nat)
    requires Closed(next, prev, dst) && Distinct(dst) && Owned(owner, dst, d)
    requires Closed(next, prev, src) && Distinct(src) && Owned(owner, src, s)
    requires d != s && kp < |dst| && kf < kl < |src| && dst[|dst| - 1] == d && src[|src| - 1] == s
    requires Relinked(next, prev, next2, prev2,
                      if kp > 0 then dst[kp - 1] else d, src[kf],
                      if kf > 0 then src[kf - 1] else s, src[kl],
                      src[kl - 1], dst[kp])
    ensures Closed(next2, prev2, src[kf..kl] + (dst[kp..] + dst[..kp]))
    ensures Closed(next2, prev2, src[kl..] + src[..kf])
    ensures Distinct(src[kf..kl] + (src[kl..] + src[..kf]) + (dst[kp..] + dst[..kp]))
  {
    var m, n, q := src[kf..kl], src[kl..] + src[..kf], dst[kp..] + dst[..kp];
    AcrossOpen(next, prev, owner, dst, d, src, s, kp, kf, kl);
    assert q[|q| - 1] == (if kp > 0 then dst[kp - 1] else d);
    assert n[|n| - 1] == (if kf > 0 then src[kf - 1] else s);
    assert m[|m| - 1] == src[kl - 1];
    assert q[0] == dst[kp] && m[0] == src[kf] && n[0] == src[kl];
    SplitMerge(next, prev, next2, prev2, m, n, q);
  }

  /** Both circles read from the ends of the moved run: the run and the rest of the source, and the destination from `pos`. */
  lemma AcrossOpen(next: seq<Node>, prev: seq<Node>, owner: seq<Node>,
                   dst: seq<Node>, d: Node, src: seq<Node>, s: Node, kp: nat, kf: nat, kl: nat)
    requires Closed(next, prev, dst) && Distinct(dst) && Owned(owner, dst, d)
    requires Closed(next, prev, src) && Distinct(src) && Owned(owner, src, s)
    requires d != s && kp < |dst| && kf < kl < |src|
    ensures Closed(next, prev, src[kf..kl] + (src[kl..] + src[..kf]))
    ensures Closed(next, prev, dst[kp..] + dst[..kp])
    ensures Distinct(src[kf..kl] + (src[kl..] + src[..kf]) + (dst[kp..] + dst[..kp]))
  {
    RunFirst(src, kf, kl);
    RotateAt(next, prev, dst, kp);
    RotateAt(next, prev, src, kf);
    AcrossDistinct(owner, dst, d, src, s, kp, kf, kl);
  }

  lemma AcrossDistinct(owner: seq<Node>, dst: seq<Node>, d: Node, src: seq<Node>, s: Node, kp: nat, kf: nat, kl: nat)
    requires d != s && kp < |dst| && kf < kl < |src|
    requires Distinct(dst[kp..] + dst[..kp]) && Owned(owner, dst, d)
    requires Distinct(src[kf..] + src[..kf]) && Owned(owner, src, s)
    ensures Distinct(src[kf..kl] + (src[kl..] + src[..kf]) + (dst[kp..] + dst[..kp]))
  {
    var m, n, q := src[kf..kl], src[kl..] + src[..kf], dst[kp..] + dst[..kp];
    RunFirst(src, kf, kl);
    assert Owned(owner, m + n, s) && Owned(owner, q, d) by {
      forall x | x in m + n ensures x in src { assert x in src[kf..] + src[..kf]; }
      forall x | x in q ensures x in dst { assert x in dst[kp..] + dst[..kp]; }
    }
    DistinctOwned(owner, m + n, q, s, d);
  }

  /** After the relinking, the destination read from its sentinel holds the run before `pos`. */
  lemma AcrossCloseDestination(next2: seq<Node>, prev2: seq<Node>, m: seq<Node>, n: seq<Node>,
                               dst: seq<Node>, kp: nat)
    requires kp < |dst|
    requires Closed(next2, prev2, m + (dst[kp..] + dst[..kp]))
    requires Distinct(m + n + (dst[kp..] + dst[..kp]))
    ensures Closed(next2, prev2, dst[..kp] + (m + dst[kp..]))
    ensures Distinct(dst[..kp] + (m + dst[kp..]))
  {
    var q := dst[kp..] + dst[..kp];
    assert m + q == (m + dst[kp..]) + dst[..kp];
    Rotate(next2, prev2, m + dst[kp..], dst[..kp]);
    var all := m + n + q;
    forall i, j | 0 <= i < j < |m + q| ensures (m + q)[i] != (m + q)[j] {
      var i' := if i < |m| then i else i + |n|;
      var j' := if j < |m| then j else j + |n|;
      assert (m + q)[i] == all[i'] && (m + q)[j] == all[j'];
    }
    DistinctRotate(m + dst[kp..], dst[..kp]);
  }

  /** After the relinking, the source read from its sentinel has lost the run. */
  lemma AcrossCloseSource(next2: seq<Node>, prev2: seq<Node>, m: seq<Node>,
                          src: seq<Node>, kf: nat, kl: nat, q: seq<Node>)
    requires kf < kl < |src|
    requires Closed(next2, prev2, src[kl..] + src[..kf])
    requires Distinct(m + (src[kl..] + src[..kf]) + q)
    ensures Closed(next2, prev2, src[..kf] + src[kl..])
    ensures Distinct(src[..kf] + src[kl..])
  {
    var n := src[kl..] + src[..kf];
    Rotate(next2, prev2, src[kl..], src[..kf]);
    DistinctSlice(m + n + q, |m|, |m + n|);
    assert (m + n + q)[|m|..|m + n|] == n;
    DistinctRotate(src[kl..], src[..kf]);
  }

  /**
   * When both lists have elements, swap is right: each sentinel closes the
   * other's former chain.
   */
  lemma {:induction false} SwapAsWrittenNonEmpty(next: seq<Node>, prev: seq<Node>, a: Node, b: Node,
                                                 ca: seq<Node>, cb: seq<Node>)
    requires Table(next, prev) && a < |next| && b < |next|
    requires |ca| > 0 && |cb| > 0
    requires Closed(next, prev, ca + [a]) && Closed(next, prev, cb + [b])
    requires Distinct(ca + [a] + cb + [b])
    ensures var r := SwapAsWritten(next, prev, a, b);
            Closed(r.0, r.1, cb + [a]) && Closed(r.0, r.1, ca + [b])
  {
    var r := SwapAsWritten(next, prev, a, b);
    SwapAsWrittenEnds(next, prev, a, b, ca, cb);
    SwapAsWrittenInterior(next, prev, a, b, ca, cb);
    PathFrame(next, prev, r.0, r.1, ca);
    PathFrame(next, prev, r.0, r.1, cb);
    CloseTwo(r.0, r.1, cb, [a]);
    CloseTwo(r.0, r.1, ca, [b]);
  }

  /** The links swap rewrites when both lists have elements: the sentinels and the ends of the two chains. */
  lemma SwapAsWrittenEnds(next: seq<Node>, prev: seq<Node>, a: Node, b: Node, ca: seq<Node>, cb: seq<Node>)
    requires Table(next, prev) && a < |next| && b < |next|
    requires |ca| > 0 && |cb| > 0
    requires Closed(next, prev, ca + [a]) && Closed(next, prev, cb + [b])
    requires Distinct(ca + [a] + cb + [b])
    ensures Path(next, prev, ca) && Path(next, prev, cb)
    ensures var r := SwapAsWritten(next, prev, a, b);
            && r.0[a] == cb[0] && r.1[a] == cb[|cb| - 1] && r.0[cb[|cb| - 1]] == a && r.1[cb[0]] == a
            && r.0[b] == ca[0] && r.1[b] == ca[|ca| - 1] && r.0[ca[|ca| - 1]] == b && r.1[ca[0]] == b
  {
    var all := ca + [a] + cb + [b];
    var la, lb := |ca|, |ca| + 1 + |cb|;
    assert all[la] == a && all[lb] == b;
    assert ca[0] == all[0] && ca[la - 1] == all[la - 1];
    assert cb[0] == all[la + 1] && cb[|cb| - 1] == all[lb - 1];
    assert (ca + [a])[la - 1] == ca[la - 1] && (cb + [b])[|cb| - 1] == cb[|cb| - 1];
    assert next[a] == ca[0] && prev[a] == ca[la - 1];
    assert next[b] == cb[0] && prev[b] == cb[|cb| - 1];
    ThreeRuns(next, prev, ca, [a], []);
    ThreeRuns(next, prev, cb, [b], []);
  }

  /** Swap leaves the links inside each chain as they were. */
  lemma SwapAsWrittenInterior(next: seq<Node>, prev: seq<Node>, a: Node, b: Node, ca: seq<Node>, cb: seq<Node>)
    requires Table(next, prev) && a < |next| && b < |next|
    requires |ca| > 0 && |cb| > 0
    requires Closed(next, prev, ca + [a]) && Closed(next, prev, cb + [b])
    requires Distinct(ca + [a] + cb + [b]) && Path(next, prev, ca) && Path(next, prev, cb)
    ensures var r := SwapAsWritten(next, prev, a, b);
            && (forall i :: 0 <= i < |ca| - 1 ==> r.0[ca[i]] == next[ca[i]])
            && (forall i :: 0 < i < |ca| ==> r.1[ca[i]] == prev[ca[i]])
            && (forall i :: 0 <= i < |cb| - 1 ==> r.0[cb[i]] == next[cb[i]])
            && (forall i :: 0 < i < |cb| ==> r.1[cb[i]] == prev[cb[i]])
  {
    var r := SwapAsWritten(next, prev, a, b);
    var all := ca + [a] + cb + [b];
    var la, lb := |ca|, |ca| + 1 + |cb|;
    assert all[la] == a && all[lb] == b;
    assert ca[0] == all[0] && ca[la - 1] == all[la - 1];
    assert cb[0] == all[la + 1] && cb[|cb| - 1] == all[lb - 1];
    assert (ca + [a])[la - 1] == ca[la - 1] && (cb + [b])[|cb| - 1] == cb[|cb| - 1];
    assert next[a] == ca[0] && prev[a] == ca[la - 1];
    assert next[b] == cb[0] && prev[b] == cb[|cb| - 1];
    forall i | 0 <= i < |ca| - 1 ensures r.0[ca[i]] == next[ca[i]] {
      assert ca[i] == all[i];
    }
    forall i | 0 < i < |ca| ensures r.1[ca[i]] == prev[ca[i]] {
      assert ca[i] == all[i];
    }
    forall i | 0 <= i < |cb| - 1 ensures r.0[cb[i]] == next[cb[i]] {
      assert cb[i] == all[la + 1 + i];
    }
    forall i | 0 < i < |cb| ensures r.1[cb[i]] == prev[cb[i]] {
      assert cb[i] == all[la + 1 + i];
    }
  }

  /**
   * Swapping a one-element list (sentinel 0, element 1) with an empty one
   * (sentinel 2): the empty list's self-link is copied into the first
   * sentinel and the fix-up then links the two sentinels to each other. The
   * first list does not read as empty afterwards and the element is lost.
   */
  lemma SwapAsWrittenEmptyCounterexample()
    ensures Closed([1, 0, 2], [1, 0, 2], [1] + [0]) && Closed([1, 0, 2], [1, 0, 2], [] + [2])
    ensures SwapAsWritten([1, 0, 2], [1, 0, 2], 0, 2) == ([2, 0, 0], [2, 0, 0])
    ensures !Closed([2, 0, 0], [2, 0, 0], [] + [0]) && !Closed([2, 0, 0], [2, 0, 0], [1] + [2])
  {
    var r := SwapAsWritten([1, 0, 2], [1, 0, 2], 0, 2);
    assert |r.0| == 3 && r.0[0] == 2 && r.0[1] == 0 && r.0[2] == 0;
    assert |r.1| == 3 && r.1[0] == 2 && r.1[1] == 0 && r.1[2] == 0;
    assert r.0 == [2, 0, 0] && r.1 == [2, 0, 0];
  }

  /**
   * Splicing the whole of an empty list (sentinel 2) before the end of a
   * one-element list (sentinel 0, element 1): the range is empty, yet the
   * links change and both sentinels end up on one circle.
   */
  lemma SpliceAsWrittenEmptyRangeCounterexample()
    ensures Closed([1, 0, 2], [1, 0, 2], [1] + [0]) && Closed([1, 0, 2], [1, 0, 2], [] + [2])
    ensures SpliceAsWritten([1, 0, 2], [1, 0, 2], 0, 2, 2) == ([1, 2, 0], [2, 0, 1])
    ensures Closed([1, 2, 0], [2, 0, 1], [1, 2, 0])
    ensures !Closed([1, 2, 0], [2, 0, 1], [] + [2])
  {
    var r := SpliceAsWritten([1, 0, 2], [1, 0, 2], 0, 2, 2);
    assert |r.0| == 3 && r.0[0] == 1 && r.0[1] == 2 && r.0[2] == 0;
    assert |r.1| == 3 && r.1[0] == 2 && r.1[1] == 0 && r.1[2] == 1;
    assert r.0 == [1, 2, 0] && r.1 == [2, 0, 1];
  }

  /**
   * Splicing the whole range [begin, end) of a one-element list to just
   * before its end: the links should stay as they are, but the sentinel's
   * `prev` is left pointing at itself and the element's at itself.
   */
  lemma SpliceAsWrittenPosIsLastCounterexample()
    ensures Closed([1, 0], [1, 0], [1] + [0])
    ensures SpliceAsWritten([1, 0], [1, 0], 0, 1, 0) == ([1, 0], [0, 1])
    ensures !Closed([1, 0], [0, 1], [1] + [0])
  {
    var r := SpliceAsWritten([1, 0], [1, 0], 0, 1, 0);
    assert |r.0| == 2 && r.0[0] == 1 && r.0[1] == 0;
    assert |r.1| == 2 && r.1[0] == 0 && r.1[1] == 1;
    assert r.0 == [1, 0] && r.1 == [0, 1];
  }
}
