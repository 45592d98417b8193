/**
 * The node arena behind every list, stated over plain sequences so that the
 * list class only has to show that its fields took the values given here.
 *
 * Node `n` of the arena has the links `next[n]` and `prev[n]`, a slot that is
 * a list's sentinel (the `fake` node of a `list` object), a value node, or a
 * freed node, and a ghost owner: the sentinel of the list it belongs to. A
 * list is named by its sentinel `s`; `lists[s]` holds its value nodes from
 * front to back, and its circle reads those nodes followed by `s` itself.
 */
module ListState {
  import opened Rings
  import opened AsWritten

  datatype Slot<T> = Free | Sentinel | Value(v: T)

  /** Every node of `c` is a value node. */
  ghost predicate Filled<T>(slot: seq<Slot<T>>, c: seq<Node>) {
    forall i :: 0 <= i < |c| ==> c[i] < |slot| && slot[c[i]].Value?
  }

  /** The values stored in the nodes `c`, in order. */
  ghost function Values<T>(slot: seq<Slot<T>>, c: seq<Node>): (r: seq<T>)
    requires Filled(slot, c)
    ensures |r| == |c|
  {
    seq(|c|, i requires 0 <= i < |c| => slot[c[i]].v)
  }

  lemma ValuesConcat<T>(slot: seq<Slot<T>>, a: seq<Node>, b: seq<Node>)
    requires Filled(slot, a) && Filled(slot, b)
    ensures Filled(slot, a + b) && Values(slot, a + b) == Values(slot, a) + Values(slot, b)
  {
    assert forall i :: 0 <= i < |a + b| ==> (a + b)[i] == if i < |a| then a[i] else b[i - |a|];
  }

  lemma ValuesSlice<T>(slot: seq<Slot<T>>, c: seq<Node>, i: nat, j: nat)
    requires Filled(slot, c) && i <= j <= |c|
    ensures Filled(slot, c[i..j]) && Values(slot, c[i..j]) == Values(slot, c)[i..j]
  {
    assert forall k :: 0 <= k < j - i ==> c[i..j][k] == c[i + k];
  }

  /** Values read through slots that agree on `c` are the same. */
  lemma ValuesAgree<T>(slot: seq<Slot<T>>, slot2: seq<Slot<T>>, c: seq<Node>)
    requires Filled(slot, c)
    requires forall i :: 0 <= i < |c| ==> c[i] < |slot2| && slot2[c[i]] == slot[c[i]]
    ensures Filled(slot2, c) && Values(slot2, c) == Values(slot, c)
  {
  }

  /**
   * The list whose sentinel is `s` and whose value nodes are `c`: the
   * sentinel is marked as one, the other nodes hold values, every node of
   * the circle names `s` as its owner, no node repeats, and the links close
   * the circle `c + [s]` both ways.
   */
  ghost predicate ListOk<T>(next: seq<Node>, prev: seq<Node>, slot: seq<Slot<T>>, owner: seq<Node>,
                            s: Node, c: seq<Node>)
  {
    && s < |slot| && slot[s].Sentinel?
    && Filled(slot, c)
    && Owned(owner, c + [s], s)
    && Distinct(c + [s])
    && Closed(next, prev, c + [s])
  }

  /**
   * The whole arena: well-formed tables and every list in `lists` intact.
   * That a list is intact is drawn out only where `ListOk` of that list is
   * named, which keeps the proofs about one list from unfolding all others.
   */
  ghost predicate ArenaOk<T>(next: seq<Node>, prev: seq<Node>, slot: seq<Slot<T>>, owner: seq<Node>,
                             lists: map<Node, seq<Node>>)
  {
    && Table(next, prev) && |slot| == |next| && |owner| == |next|
    && (forall s :: s in lists ==> s < |slot| && Filled(slot, lists[s]))
    && forall s {:trigger ListOk(next, prev, slot, owner, s, lists[s])} ::
         s in lists ==> ListOk(next, prev, slot, owner, s, lists[s])
  }

  /** What each list holds, by its sentinel. */
  ghost function ContentsOf<T>(slot: seq<Slot<T>>, lists: map<Node, seq<Node>>): (m: map<Node, seq<T>>)
    requires forall s :: s in lists ==> Filled(slot, lists[s])
    ensures m.Keys == lists.Keys
  {
    map s | s in lists :: Values(slot, lists[s])
  }

  /** Every node owned by `s` keeps its links, its slot and its owner. */
  ghost predicate Kept<T>(next: seq<Node>, prev: seq<Node>, slot: seq<Slot<T>>, owner: seq<Node>,
                          next2: seq<Node>, prev2: seq<Node>, slot2: seq<Slot<T>>, owner2: seq<Node>, s: Node)
  {
    forall x :: 0 <= x < |owner| && owner[x] == s ==>
      && x < |next| && x < |prev| && x < |slot|
      && x < |next2| && x < |prev2| && x < |slot2| && x < |owner2|
      && next2[x] == next[x] && prev2[x] == prev[x] && slot2[x] == slot[x] && owner2[x] == s
  }

  /** Every node whose owner is not in `changed` keeps its links, its slot and its owner. */
  ghost predicate Untouched<T>(next: seq<Node>, prev: seq<Node>, slot: seq<Slot<T>>, owner: seq<Node>,
                               next2: seq<Node>, prev2: seq<Node>, slot2: seq<Slot<T>>, owner2: seq<Node>,
                               changed: set<Node>)
  {
    forall x :: 0 <= x < |owner| && owner[x] !in changed ==>
      && x < |next| && x < |prev| && x < |slot|
      && x < |next2| && x < |prev2| && x < |slot2| && x < |owner2|
      && next2[x] == next[x] && prev2[x] == prev[x] && slot2[x] == slot[x] && owner2[x] == owner[x]
  }

  /** A list none of whose nodes was touched is still intact and holds the same values. */
  lemma ListOkFrame<T>(next: seq<Node>, prev: seq<Node>, slot: seq<Slot<T>>, owner: seq<Node>,
                       next2: seq<Node>, prev2: seq<Node>, slot2: seq<Slot<T>>, owner2: seq<Node>,
                       s: Node, c: seq<Node>)
    requires ListOk(next, prev, slot, owner, s, c)
    requires Kept(next, prev, slot, owner, next2, prev2, slot2, owner2, s)
    ensures ListOk(next2, prev2, slot2, owner2, s, c)
    ensures Values(slot2, c) == Values(slot, c)
  {
    var r := c + [s];
    assert forall i :: 0 <= i < |r| ==> r[i] in r;
    PathFrame(next, prev, next2, prev2, r);
    assert r[|r| - 1] in r && r[0] in r;
    assert forall i :: 0 <= i < |c| ==> c[i] == r[i];
    ValuesAgree(slot, slot2, c);
  }

  /** Whether the list `c` with sentinel `s` is empty can be read off the sentinel's forward link. */
  lemma EmptyLink<T>(next: seq<Node>, prev: seq<Node>, slot: seq<Slot<T>>, owner: seq<Node>, s: Node, c: seq<Node>)
    requires ListOk(next, prev, slot, owner, s, c)
    ensures next[s] == s <==> c == []
  {
    var r := c + [s];
    assert r[|r| - 1] == s;
    if c != [] {
      assert r[0] == c[0] && r[0] != r[|r| - 1];
    }
  }

  /**
   * The arena after an operation that rewrote only the lists in `changed`:
   * every other list kept its nodes untouched, so the arena is intact once the
   * rewritten lists are, and the other lists hold what they held.
   */
  lemma Assemble<T>(next: seq<Node>, prev: seq<Node>, slot: seq<Slot<T>>, owner: seq<Node>,
                    lists: map<Node, seq<Node>>,
                    next2: seq<Node>, prev2: seq<Node>, slot2: seq<Slot<T>>, owner2: seq<Node>,
                    lists2: map<Node, seq<Node>>, changed: set<Node>)
    requires ArenaOk(next, prev, slot, owner, lists)
    requires Table(next2, prev2) && |slot2| == |next2| && |owner2| == |next2|
    requires lists2.Keys == lists.Keys && changed <= lists.Keys
    requires forall t :: t in lists && t !in changed ==> lists2[t] == lists[t]
    requires Untouched(next, prev, slot, owner, next2, prev2, slot2, owner2, changed)
    requires forall t :: t in changed ==> ListOk(next2, prev2, slot2, owner2, t, lists2[t])
    ensures ArenaOk(next2, prev2, slot2, owner2, lists2)
    ensures forall t :: t in lists && t !in changed ==>
              Filled(slot2, lists2[t]) && Filled(slot, lists[t]) && Values(slot2, lists2[t]) == Values(slot, lists[t])
  {
    forall t | t in lists && t !in changed
      ensures ListOk(next2, prev2, slot2, owner2, t, lists2[t])
      ensures Values(slot2, lists2[t]) == Values(slot, lists[t])
    {
      assert Kept(next, prev, slot, owner, next2, prev2, slot2, owner2, t);
      ListOkFrame(next, prev, slot, owner, next2, prev2, slot2, owner2, t, lists[t]);
    }
  }

  /** The contents of the arena, list by list, from what each list holds. */
  lemma ContentsIs<T>(slot: seq<Slot<T>>, lists: map<Node, seq<Node>>, m: map<Node, seq<T>>)
    requires forall t :: t in lists ==> Filled(slot, lists[t])
    requires m.Keys == lists.Keys
    requires forall t :: t in lists ==> Values(slot, lists[t]) == m[t]
    ensures ContentsOf(slot, lists) == m
  {
  }

  /** `Assemble` and `ContentsIs` for an operation that rewrote the one list `l` into `c2`, holding `vals`. */
  lemma FinishOne<T>(next: seq<Node>, prev: seq<Node>, slot: seq<Slot<T>>, owner: seq<Node>,
                     lists: map<Node, seq<Node>>,
                     next2: seq<Node>, prev2: seq<Node>, slot2: seq<Slot<T>>, owner2: seq<Node>,
                     l: Node, c2: seq<Node>, vals: seq<T>)
    requires ArenaOk(next, prev, slot, owner, lists) && l in lists
    requires Table(next2, prev2) && |slot2| == |next2| && |owner2| == |next2|
    requires Untouched(next, prev, slot, owner, next2, prev2, slot2, owner2, {l})
    requires ListOk(next2, prev2, slot2, owner2, l, c2) && Values(slot2, c2) == vals
    ensures ArenaOk(next2, prev2, slot2, owner2, lists[l := c2])
    ensures ContentsOf(slot2, lists[l := c2]) == ContentsOf(slot, lists)[l := vals]
  {
    var lists2, m := lists[l := c2], ContentsOf(slot, lists)[l := vals];
    Assemble(next, prev, slot, owner, lists, next2, prev2, slot2, owner2, lists2, {l});
    forall t | t in lists2 ensures Values(slot2, lists2[t]) == m[t] {
      if t != l {
        assert m[t] == Values(slot, lists[t]);
      }
    }
    ContentsIs(slot2, lists2, m);
  }

  /** `Assemble` and `ContentsIs` for an operation that rewrote the two lists `a` and `b`. */
  lemma FinishTwo<T>(next: seq<Node>, prev: seq<Node>, slot: seq<Slot<T>>, owner: seq<Node>,
                     lists: map<Node, seq<Node>>,
                     next2: seq<Node>, prev2: seq<Node>, slot2: seq<Slot<T>>, owner2: seq<Node>,
                     a: Node, ca: seq<Node>, va: seq<T>, b: Node, cb: seq<Node>, vb: seq<T>)
    requires ArenaOk(next, prev, slot, owner, lists) && a in lists && b in lists && a != b
    requires Table(next2, prev2) && |slot2| == |next2| && |owner2| == |next2|
    requires Untouched(next, prev, slot, owner, next2, prev2, slot2, owner2, {a, b})
    requires ListOk(next2, prev2, slot2, owner2, a, ca) && Values(slot2, ca) == va
    requires ListOk(next2, prev2, slot2, owner2, b, cb) && Values(slot2, cb) == vb
    ensures ArenaOk(next2, prev2, slot2, owner2, lists[a := ca][b := cb])
    ensures ContentsOf(slot2, lists[a := ca][b := cb]) == ContentsOf(slot, lists)[a := va][b := vb]
  {
    ArenaTwo(next, prev, slot, owner, lists, next2, prev2, slot2, owner2, a, ca, b, cb);
    KeptValues(next, prev, slot, owner, lists, next2, prev2, slot2, owner2, {a, b});
    ContentsTwo(slot, lists, slot2, a, ca, va, b, cb, vb);
  }

  /** Two lists replaced by intact ones, and the rest untouched: the arena is intact. */
  lemma ArenaTwo<T>(next: seq<Node>, prev: seq<Node>, slot: seq<Slot<T>>, owner: seq<Node>,
                    lists: map<Node, seq<Node>>,
                    next2: seq<Node>, prev2: seq<Node>, slot2: seq<Slot<T>>, owner2: seq<Node>,
                    a: Node, ca: seq<Node>, b: Node, cb: seq<Node>)
    requires ArenaOk(next, prev, slot, owner, lists) && a in lists && b in lists && a != b
    requires Table(next2, prev2) && |slot2| == |next2| && |owner2| == |next2|
    requires Untouched(next, prev, slot, owner, next2, prev2, slot2, owner2, {a, b})
    requires ListOk(next2, prev2, slot2, owner2, a, ca) && ListOk(next2, prev2, slot2, owner2, b, cb)
    ensures ArenaOk(next2, prev2, slot2, owner2, lists[a := ca][b := cb])
  {
    var lists2 := lists[a := ca][b := cb];
    assert lists2[a] == ca && lists2[b] == cb;
    Assemble(next, prev, slot, owner, lists, next2, prev2, slot2, owner2, lists2, {a, b});
  }

  /** The lists that were not changed hold the same values. */
  lemma KeptValues<T>(next: seq<Node>, prev: seq<Node>, slot: seq<Slot<T>>, owner: seq<Node>,
                      lists: map<Node, seq<Node>>,
                      next2: seq<Node>, prev2: seq<Node>, slot2: seq<Slot<T>>, owner2: seq<Node>, changed: set<Node>)
    requires ArenaOk(next, prev, slot, owner, lists)
    requires Table(next2, prev2) && |slot2| == |next2| && |owner2| == |next2|
    requires Untouched(next, prev, slot, owner, next2, prev2, slot2, owner2, changed)
    ensures forall t :: t in lists && t !in changed ==>
              Filled(slot2, lists[t]) && Filled(slot, lists[t]) && Values(slot2, lists[t]) == Values(slot, lists[t])
  {
    forall t | t in lists && t !in changed
      ensures Filled(slot2, lists[t]) && Values(slot2, lists[t]) == Values(slot, lists[t])
    {
      assert Kept(next, prev, slot, owner, next2, prev2, slot2, owner2, t);
      ListOkFrame(next, prev, slot, owner, next2, prev2, slot2, owner2, t, lists[t]);
    }
  }

  lemma ContentsTwo<T>(slot: seq<Slot<T>>, lists: map<Node, seq<Node>>, slot2: seq<Slot<T>>,
                       a: Node, ca: seq<Node>, va: seq<T>, b: Node, cb: seq<Node>, vb: seq<T>)
    requires forall t :: t in lists ==> Filled(slot, lists[t])
    requires forall t :: t in lists && t != a && t != b ==>
               Filled(slot2, lists[t]) && Values(slot2, lists[t]) == Values(slot, lists[t])
    requires a != b && Filled(slot2, ca) && Values(slot2, ca) == va && Filled(slot2, cb) && Values(slot2, cb) == vb
    ensures ContentsOf(slot2, lists[a := ca][b := cb]) == ContentsOf(slot, lists)[a := va][b := vb]
  {
    var lists2, m := lists[a := ca][b := cb], ContentsOf(slot, lists)[a := va][b := vb];
    forall t | t in lists2 ensures Filled(slot2, lists2[t]) && Values(slot2, lists2[t]) == m[t] {
      if t != a && t != b {
        assert m[t] == Values(slot, lists[t]);
      }
    }
    ContentsIs(slot2, lists2, m);
  }

  // One lemma per operation: the arena after the operation is intact again,
  // and what every list holds afterwards.

  /** A new, empty list: a fresh sentinel linked to itself. */
  lemma NewListOk<T>(next: seq<Node>, prev: seq<Node>, slot: seq<Slot<T>>, owner: seq<Node>,
                     lists: map<Node, seq<Node>>)
    requires ArenaOk(next, prev, slot, owner, lists)
    ensures var s := |next|;
            && s !in lists
            && ArenaOk(next + [s], prev + [s], slot + [Sentinel], owner + [s], lists[s := []])
            && ContentsOf(slot + [Sentinel], lists[s := []]) == ContentsOf(slot, lists)[s := []]
  {
    var s := |next|;
    var next2, prev2, slot2, owner2 := next + [s], prev + [s], slot + [Sentinel], owner + [s];
    assert forall t :: t in lists ==> t < |slot|;
    forall t | t in lists ensures ListOk(next2, prev2, slot2, owner2, t, lists[t]) {
      ListOkFrame(next, prev, slot, owner, next2, prev2, slot2, owner2, t, lists[t]);
    }
    assert Closed(next2, prev2, [] + [s]);
    assert ListOk(next2, prev2, slot2, owner2, s, []);
    forall t | t in lists ensures Values(slot2, lists[t]) == Values(slot, lists[t]) {
      ValuesAgree(slot, slot2, lists[t]);
    }
  }

  /**
   * Inserting the value `v` before the node at position `k` of list `l`
   * (position |c| is the sentinel): a fresh node is linked in between that
   * node and its predecessor.
   */
  lemma InsertOk<T>(next: seq<Node>, prev: seq<Node>, slot: seq<Slot<T>>, owner: seq<Node>,
                    lists: map<Node, seq<Node>>, l: Node, k: nat, v: T)
    requires ArenaOk(next, prev, slot, owner, lists) && l in lists && k <= |lists[l]|
    ensures var c, n := lists[l], |next|;
            var pos := (c + [l])[k];
            var p := prev[pos];
            var lists2 := lists[l := c[..k] + [n] + c[k..]];
            var slot2 := slot + [Value(v)];
            && ArenaOk((next + [pos])[p := n], (prev + [p])[pos := n], slot2, owner + [l], lists2)
            && ContentsOf(slot2, lists2)
               == ContentsOf(slot, lists)[l := Values(slot, c)[..k] + [v] + Values(slot, c)[k..]]
  {
    var c, n := lists[l], |next|;
    var ring := c + [l];
    var pos := ring[k];
    var p := prev[pos];
    var next2, prev2 := (next + [pos])[p := n], (prev + [p])[pos := n];
    var slot2, owner2 := slot + [Value(v)], owner + [l];
    var c2 := c[..k] + [n] + c[k..];
    var vals := Values(slot, c)[..k] + [v] + Values(slot, c)[k..];
    assert ListOk(next2, prev2, slot2, owner2, l, c2) && Values(slot2, c2) == vals by {
      InsertRing(next, prev, slot, owner, l, c, k, v);
    }
    assert Untouched(next, prev, slot, owner, next2, prev2, slot2, owner2, {l}) by {
      assert ListOk(next, prev, slot, owner, l, c);
      Neighbour(next, prev, ring, k);
      assert pos in ring && p in ring;
      forall x | 0 <= x < |owner| && owner[x] != l
        ensures next2[x] == next[x] && prev2[x] == prev[x] && slot2[x] == slot[x] && owner2[x] == owner[x]
      {
        assert x != p && x != pos;
      }
    }
    FinishOne(next, prev, slot, owner, lists, next2, prev2, slot2, owner2, l, c2, vals);
  }

  lemma InsertRing<T>(next: seq<Node>, prev: seq<Node>, slot: seq<Slot<T>>, owner: seq<Node>,
                      l: Node, c: seq<Node>, k: nat, v: T)
    requires Table(next, prev) && |slot| == |next| && |owner| == |next|
    requires ListOk(next, prev, slot, owner, l, c) && k <= |c|
    ensures var n := |next|;
            var pos := (c + [l])[k];
            var p := prev[pos];
            var slot2 := slot + [Value(v)];
            var c2 := c[..k] + [n] + c[k..];
            && ListOk((next + [pos])[p := n], (prev + [p])[pos := n], slot2, owner + [l], l, c2)
            && Values(slot2, c2) == Values(slot, c)[..k] + [v] + Values(slot, c)[k..]
  {
    var n := |next|;
    var ring := c + [l];
    var owner2 := owner + [l];
    var c2 := c[..k] + [n] + c[k..];
    InsertCircle(next, prev, c + [l], k, l);
    assert Owned(owner2, c2 + [l], l) by {
      forall x | x in c2 + [l] ensures x < |owner2| && owner2[x] == l {
        if x != n { assert x in ring by { assert x in c[..k] + c[k..] + [l]; } }
      }
    }
    InsertValues(slot, c, k, v);
  }

  lemma InsertCircle(next: seq<Node>, prev: seq<Node>, ring: seq<Node>, k: nat, l: Node)
    requires Table(next, prev) && Closed(next, prev, ring) && Distinct(ring)
    requires k < |ring| && ring[|ring| - 1] == l
    ensures var n := |next|;
            var c := ring[..|ring| - 1];
            var p := prev[ring[k]];
            var next2, prev2 := (next + [ring[k]])[p := n], (prev + [p])[ring[k] := n];
            && Closed(next2, prev2, c[..k] + [n] + c[k..] + [l])
            && Distinct(c[..k] + [n] + c[k..] + [l])
  {
    var n := |next|;
    var c := ring[..|ring| - 1];
    InsertBefore(next, prev, ring, k, n);
    assert ring[..k] + [n] + ring[k..] == c[..k] + [n] + c[k..] + [l] by {
      assert ring == c + [l];
      assert ring[..k] == c[..k] && ring[k..] == c[k..] + [l];
    }
  }

  lemma InsertValues<T>(slot: seq<Slot<T>>, c: seq<Node>, k: nat, v: T)
    requires Filled(slot, c) && k <= |c|
    ensures var slot2, n := slot + [Value(v)], |slot|;
            Filled(slot2, c[..k] + [n] + c[k..])
            && Values(slot2, c[..k] + [n] + c[k..]) == Values(slot, c)[..k] + [v] + Values(slot, c)[k..]
  {
    var slot2, n := slot + [Value(v)], |slot|;
    ValuesSlice(slot, c, 0, k);
    ValuesSlice(slot, c, k, |c|);
    ValuesAgree(slot, slot2, c[..k]);
    ValuesAgree(slot, slot2, c[k..]);
    ValuesConcat(slot2, c[..k], [n]);
    ValuesConcat(slot2, c[..k] + [n], c[k..]);
  }

  /**
   * Erasing the node at position `k` of list `l`: its predecessor and its
   * successor are linked to each other and its slot is freed.
   */
  lemma EraseOk<T>(next: seq<Node>, prev: seq<Node>, slot: seq<Slot<T>>, owner: seq<Node>,
                   lists: map<Node, seq<Node>>, l: Node, k: nat)
    requires ArenaOk(next, prev, slot, owner, lists) && l in lists && k < |lists[l]|
    ensures var c := lists[l];
            var x := c[k];
            var p, q := prev[x], next[x];
            var lists2 := lists[l := c[..k] + c[k + 1..]];
            var slot2 := slot[x := Free];
            && p != x && (c[..k] + c[k + 1..] + [l])[k] == q
            && ArenaOk(next[p := q], prev[q := p], slot2, owner, lists2)
            && ContentsOf(slot2, lists2)
               == ContentsOf(slot, lists)[l := Values(slot, c)[..k] + Values(slot, c)[k + 1..]]
  {
    var c := lists[l];
    var ring := c + [l];
    var x := c[k];
    var p, q := prev[x], next[x];
    var next2, prev2, slot2 := next[p := q], prev[q := p], slot[x := Free];
    var c2 := c[..k] + c[k + 1..];
    var vals := Values(slot, c)[..k] + Values(slot, c)[k + 1..];
    assert p != x && (c2 + [l])[k] == q && ListOk(next2, prev2, slot2, owner, l, c2) && Values(slot2, c2) == vals by {
      EraseRing(next, prev, slot, owner, l, c, k);
    }
    assert Untouched(next, prev, slot, owner, next2, prev2, slot2, owner, {l}) by {
      assert ListOk(next, prev, slot, owner, l, c);
      assert x == ring[k];
      Neighbour(next, prev, ring, k);
      Step(next, prev, ring, k);
      assert x in ring && p in ring && q in ring;
      forall y | 0 <= y < |owner| && owner[y] != l
        ensures next2[y] == next[y] && prev2[y] == prev[y] && slot2[y] == slot[y]
      {
        assert y != p && y != q && y != x;
      }
    }
    FinishOne(next, prev, slot, owner, lists, next2, prev2, slot2, owner, l, c2, vals);
  }

  lemma EraseRing<T>(next: seq<Node>, prev: seq<Node>, slot: seq<Slot<T>>, owner: seq<Node>,
                     l: Node, c: seq<Node>, k: nat)
    requires Table(next, prev) && |slot| == |next| && |owner| == |next|
    requires ListOk(next, prev, slot, owner, l, c) && k < |c|
    ensures var x := c[k];
            var p, q := prev[x], next[x];
            var slot2 := slot[x := Free];
            var c2 := c[..k] + c[k + 1..];
            && p != x && (c2 + [l])[k] == q
            && ListOk(next[p := q], prev[q := p], slot2, owner, l, c2)
            && Values(slot2, c2) == Values(slot, c)[..k] + Values(slot, c)[k + 1..]
  {
    var ring := c + [l];
    var x := c[k];
    assert x == ring[k];
    var p, q := prev[x], next[x];
    var next2, prev2, slot2 := next[p := q], prev[q := p], slot[x := Free];
    var c2 := c[..k] + c[k + 1..];
    RemoveAt(next, prev, ring, k);
    assert ring[..k] + ring[k + 1..] == c2 + [l] by {
      assert ring[..k] == c[..k] && ring[k + 1..] == c[k + 1..] + [l];
    }
    Neighbour(next, prev, ring, k);
    Step(next, prev, ring, k);
    assert q == ring[k + 1];
    assert (c2 + [l])[k] == q by {
      if k + 1 < |c| { assert c2[k] == c[k + 1]; }
    }
    assert x !in c2 by {
      forall i | 0 <= i < |c2| ensures c2[i] != x {
        if i < k { assert c2[i] == ring[i]; } else { assert c2[i] == ring[i + 1]; }
      }
    }
    assert Owned(owner, c2 + [l], l) by {
      forall y | y in c2 + [l] ensures y in ring {
        assert y in ring[..k] + ring[k + 1..];
      }
    }
    EraseValues(slot, c, k);
  }

  lemma EraseValues<T>(slot: seq<Slot<T>>, c: seq<Node>, k: nat)
    requires Filled(slot, c) && k < |c| && c[k] !in c[..k] + c[k + 1..]
    ensures var slot2, c2 := slot[c[k] := Free], c[..k] + c[k + 1..];
            Filled(slot2, c2) && Values(slot2, c2) == Values(slot, c)[..k] + Values(slot, c)[k + 1..]
  {
    var slot2 := slot[c[k] := Free];
    ValuesSlice(slot, c, 0, k);
    ValuesSlice(slot, c, k + 1, |c|);
    assert c[k] !in c[..k] && c[k] !in c[k + 1..];
    ValuesAgree(slot, slot2, c[..k]);
    ValuesAgree(slot, slot2, c[k + 1..]);
    ValuesConcat(slot2, c[..k], c[k + 1..]);
  }

  /**
   * Storing `v` in the value node at position `k` of `l`: no link changes, so
   * the arena stays intact, and only that value of `l` changes.
   */
  lemma SetOk<T>(next: seq<Node>, prev: seq<Node>, slot: seq<Slot<T>>, owner: seq<Node>,
                 lists: map<Node, seq<Node>>, l: Node, k: nat, v: T)
    requires ArenaOk(next, prev, slot, owner, lists) && l in lists && k < |lists[l]|
    ensures var c := lists[l];
            var slot2 := slot[c[k] := Value(v)];
            && ArenaOk(next, prev, slot2, owner, lists)
            && ContentsOf(slot2, lists) == ContentsOf(slot, lists)[l := Values(slot, c)[k := v]]
  {
    var c := lists[l];
    var x := c[k];
    var slot2 := slot[x := Value(v)];
    assert ListOk(next, prev, slot, owner, l, c);
    assert (c + [l])[k] == x && x in c + [l];
    var vals := Values(slot, c)[k := v];
    assert Filled(slot2, c);
    forall i | 0 <= i < |c| ensures Values(slot2, c)[i] == vals[i] {
      if i != k {
        assert (c + [l])[i] == c[i];
      }
    }
    assert Values(slot2, c) == vals;
    FinishOne(next, prev, slot, owner, lists, next, prev, slot2, owner, l, c, vals);
    assert lists[l := c] == lists;
  }

  /** The owner table with every node of `run` handed to the list `d`. */
  ghost function Reowned(owner: seq<Node>, run: seq<Node>, d: Node): (o: seq<Node>)
    ensures |o| == |owner|
    ensures forall x :: 0 <= x < |owner| ==> o[x] == if x in run then d else owner[x]
  {
    seq(|owner|, i requires 0 <= i < |owner| => if i in run then d else owner[i])
  }

  /** Links rewritten only at nodes of the lists in `changed` leave every other node untouched. */
  lemma RelinkedUntouched<T>(next: seq<Node>, prev: seq<Node>, next2: seq<Node>, prev2: seq<Node>,
                             slot: seq<Slot<T>>, owner: seq<Node>, owner2: seq<Node>,
                             u1: Node, v1: Node, u2: Node, v2: Node, u3: Node, v3: Node, changed: set<Node>)
    requires Relinked(next, prev, next2, prev2, u1, v1, u2, v2, u3, v3)
    requires |prev| == |next| && |slot| == |next| && |owner| == |next| && |owner2| == |next|
    requires owner[u1] in changed && owner[u2] in changed && owner[u3] in changed
    requires owner[v1] in changed && owner[v2] in changed && owner[v3] in changed
    requires forall x :: 0 <= x < |owner| && owner[x] !in changed ==> owner2[x] == owner[x]
    ensures Untouched(next, prev, slot, owner, next2, prev2, slot, owner2, changed)
  {
  }

  /** Moving a run within a list moves the values of its nodes alike. */
  lemma ValuesMoveRun<T>(slot: seq<Slot<T>>, c: seq<Node>, kp: nat, kf: nat, kl: nat)
    requires Filled(slot, c)
    requires kf <= kl <= |c| && kp <= |c| && (kp <= kf || kl <= kp)
    ensures Values(slot, MoveRun(c, kp, kf, kl)) == MoveRun(Values(slot, c), kp, kf, kl)
  {
    var i, j, k := if kp <= kf then kp else kf, if kp <= kf then kf else kl, if kp <= kf then kl else kp;
    ValuesSlice(slot, c, 0, i);
    ValuesSlice(slot, c, i, j);
    ValuesSlice(slot, c, j, k);
    ValuesSlice(slot, c, k, |c|);
    ValuesConcat(slot, c[..i], c[j..k]);
    ValuesConcat(slot, c[..i] + c[j..k], c[i..j]);
    ValuesConcat(slot, c[..i] + c[j..k] + c[i..j], c[k..]);
  }

  /** Moving a run within list `l` keeps its nodes value nodes owned by `l`, and moves their values alike. */
  lemma MoveRunKeeps<T>(slot: seq<Slot<T>>, owner: seq<Node>, l: Node, c: seq<Node>, kp: nat, kf: nat, kl: nat)
    requires Filled(slot, c) && Owned(owner, c + [l], l)
    requires kf <= kl <= |c| && kp <= |c| && (kp <= kf || kl <= kp)
    ensures Filled(slot, MoveRun(c, kp, kf, kl)) && Owned(owner, MoveRun(c, kp, kf, kl) + [l], l)
    ensures Values(slot, MoveRun(c, kp, kf, kl)) == MoveRun(Values(slot, c), kp, kf, kl)
  {
    ValuesMoveRun(slot, c, kp, kf, kl);
    var m := MoveRun(c, kp, kf, kl);
    MoveRunPermutes(c, kp, kf, kl);
    SameNodes(slot, owner, l, c, m);
  }

  /** A rearrangement of the nodes of list `l` still holds value nodes owned by `l`. */
  lemma SameNodes<T>(slot: seq<Slot<T>>, owner: seq<Node>, l: Node, c: seq<Node>, m: seq<Node>)
    requires Filled(slot, c) && Owned(owner, c + [l], l) && multiset(m) == multiset(c)
    ensures Filled(slot, m) && Owned(owner, m + [l], l)
  {
    assert forall x :: x in m ==> x in c by {
      forall x | x in m ensures x in c { assert x in multiset(m); }
    }
    forall i | 0 <= i < |m| ensures m[i] < |slot| && slot[m[i]].Value? {
      assert m[i] in m;
      var j :| 0 <= j < |c| && c[j] == m[i];
    }
    forall x | x in m + [l] ensures x < |owner| && owner[x] == l {
      assert x in c + [l];
    }
  }

  /**
   * Splice within list `l`: the non-empty run at positions [kf, kl) moves to
   * just before position kp, which lies outside [kf, kl].
   */
  lemma SpliceWithinOk<T>(next: seq<Node>, prev: seq<Node>, slot: seq<Slot<T>>, owner: seq<Node>,
                          lists: map<Node, seq<Node>>, l: Node, kp: nat, kf: nat, kl: nat)
    requires ArenaOk(next, prev, slot, owner, lists) && l in lists
    requires kf < kl <= |lists[l]| && kp <= |lists[l]| && (kp < kf || kl < kp)
    ensures var c := lists[l];
            var ring := c + [l];
            var r := SpliceAsWritten(next, prev, ring[kp], ring[kf], ring[kl]);
            && ArenaOk(r.0, r.1, slot, owner, lists[l := MoveRun(c, kp, kf, kl)])
            && ContentsOf(slot, lists[l := MoveRun(c, kp, kf, kl)])
               == ContentsOf(slot, lists)[l := MoveRun(Values(slot, c), kp, kf, kl)]
  {
    var c := lists[l];
    var ring := c + [l];
    var r := SpliceAsWritten(next, prev, ring[kp], ring[kf], ring[kl]);
    var c2 := MoveRun(c, kp, kf, kl);
    assert ListOk(next, prev, slot, owner, l, c);
    SpliceAsWrittenWithin(next, prev, c, l, kp, kf, kl);
    assert ListOk(r.0, r.1, slot, owner, l, c2) && Values(slot, c2) == MoveRun(Values(slot, c), kp, kf, kl) by {
      MoveRunKeeps(slot, owner, l, c, kp, kf, kl);
    }
    assert Untouched(next, prev, slot, owner, r.0, r.1, slot, owner, {l}) by {
      Neighbour(next, prev, ring, kp);
      Neighbour(next, prev, ring, kf);
      Neighbour(next, prev, ring, kl);
      assert prev[ring[kp]] in ring && prev[ring[kf]] in ring && prev[ring[kl]] in ring;
      assert ring[kp] in ring && ring[kf] in ring && ring[kl] in ring;
      RelinkedUntouched(next, prev, r.0, r.1, slot, owner, owner,
                        prev[ring[kp]], ring[kf], prev[ring[kf]], ring[kl], prev[ring[kl]], ring[kp], {l});
    }
    FinishOne(next, prev, slot, owner, lists, r.0, r.1, slot, owner, l, c2, MoveRun(Values(slot, c), kp, kf, kl));
  }

  /** No node of the run [kf, kl) of a list without repeats is left in the rest of its circle. */
  lemma RunApart(cs: seq<Node>, s: Node, kf: nat, kl: nat)
    requires Distinct(cs + [s]) && kf <= kl <= |cs|
    ensures forall x :: x in RemoveRun(cs, kf, kl) + [s] ==> x !in cs[kf..kl]
  {
    var src := cs + [s];
    forall x | x in RemoveRun(cs, kf, kl) + [s] ensures x !in cs[kf..kl] {
      var rest := RemoveRun(cs, kf, kl) + [s];
      var i :| 0 <= i < |rest| && rest[i] == x;
      var i' := if i < kf then i else i + (kl - kf);
      assert src[i'] == x;
      forall j | kf <= j < kl ensures cs[j] != x {
        assert src[j] == cs[j];
      }
    }
  }

  /**
   * Splice from list `s` into list `d`: the run at positions [kf, kl) of `s`
   * is moved, and handed over to `d`, just before position kp of `d`.
   */
  lemma SpliceAcrossOk<T>(next: seq<Node>, prev: seq<Node>, slot: seq<Slot<T>>, owner: seq<Node>,
                          lists: map<Node, seq<Node>>, d: Node, kp: nat, s: Node, kf: nat, kl: nat)
    requires ArenaOk(next, prev, slot, owner, lists) && d in lists && s in lists && d != s
    requires kp <= |lists[d]| && kf < kl <= |lists[s]|
    ensures var cd, cs := lists[d], lists[s];
            var r := SpliceAsWritten(next, prev, (cd + [d])[kp], (cs + [s])[kf], (cs + [s])[kl]);
            var lists2 := lists[d := InsertRun(cd, kp, cs, kf, kl)][s := RemoveRun(cs, kf, kl)];
            && ArenaOk(r.0, r.1, slot, Reowned(owner, cs[kf..kl], d), lists2)
            && ContentsOf(slot, lists2)
               == ContentsOf(slot, lists)[d := InsertRun(Values(slot, cd), kp, Values(slot, cs), kf, kl)]
                                         [s := RemoveRun(Values(slot, cs), kf, kl)]
  {
    var cd, cs := lists[d], lists[s];
    var r := SpliceAsWritten(next, prev, (cd + [d])[kp], (cs + [s])[kf], (cs + [s])[kl]);
    var owner2 := Reowned(owner, cs[kf..kl], d);
    var vd, vs := Values(slot, cd), Values(slot, cs);
    assert ListOk(next, prev, slot, owner, d, cd);
    assert ListOk(next, prev, slot, owner, s, cs);
    SpliceAcrossRings(next, prev, slot, owner, cd, d, cs, s, kp, kf, kl);
    FinishTwo(next, prev, slot, owner, lists, r.0, r.1, slot, owner2,
              d, InsertRun(cd, kp, cs, kf, kl), InsertRun(vd, kp, vs, kf, kl),
              s, RemoveRun(cs, kf, kl), RemoveRun(vs, kf, kl));
  }

  /** The two lists of a splice between lists, and every node outside them, after the relinking. */
  lemma SpliceAcrossRings<T>(next: seq<Node>, prev: seq<Node>, slot: seq<Slot<T>>, owner: seq<Node>,
                             cd: seq<Node>, d: Node, cs: seq<Node>, s: Node, kp: nat, kf: nat, kl: nat)
    requires Table(next, prev) && |slot| == |next| && |owner| == |next|
    requires ListOk(next, prev, slot, owner, d, cd) && ListOk(next, prev, slot, owner, s, cs)
    requires d != s && kp <= |cd| && kf < kl <= |cs|
    ensures var r := SpliceAsWritten(next, prev, (cd + [d])[kp], (cs + [s])[kf], (cs + [s])[kl]);
            var owner2 := Reowned(owner, cs[kf..kl], d);
            var cd2, cs2 := InsertRun(cd, kp, cs, kf, kl), RemoveRun(cs, kf, kl);
            && ListOk(r.0, r.1, slot, owner2, d, cd2)
            && Values(slot, cd2) == InsertRun(Values(slot, cd), kp, Values(slot, cs), kf, kl)
            && ListOk(r.0, r.1, slot, owner2, s, cs2)
            && Values(slot, cs2) == RemoveRun(Values(slot, cs), kf, kl)
            && Untouched(next, prev, slot, owner, r.0, r.1, slot, owner2, {d, s})
  {
    var dst, src := cd + [d], cs + [s];
    var r := SpliceAsWritten(next, prev, dst[kp], src[kf], src[kl]);
    var run := cs[kf..kl];
    var owner2 := Reowned(owner, run, d);
    SpliceAsWrittenAcross(next, prev, owner, cd, d, cs, s, kp, kf, kl);
    InsertRunKeeps(slot, owner, cd, d, cs, s, kp, kf, kl);
    RemoveRunKeeps(slot, owner, cs, s, kf, kl, d);
    Neighbour(next, prev, dst, kp);
    Neighbour(next, prev, src, kf);
    Neighbour(next, prev, src, kl);
    assert prev[dst[kp]] in dst && dst[kp] in dst;
    assert prev[src[kf]] in src && prev[src[kl]] in src && src[kf] in src && src[kl] in src;
    assert forall x :: x in run ==> x in src;
    RelinkedUntouched(next, prev, r.0, r.1, slot, owner, owner2,
                      prev[dst[kp]], src[kf], prev[src[kf]], src[kl], prev[src[kl]], dst[kp], {d, s});
  }

  /** The receiving list of a splice holds value nodes it owns, and the values move with them. */
  lemma InsertRunKeeps<T>(slot: seq<Slot<T>>, owner: seq<Node>, cd: seq<Node>, d: Node, cs: seq<Node>, s: Node,
                          kp: nat, kf: nat, kl: nat)
    requires Filled(slot, cd) && Owned(owner, cd + [d], d) && Filled(slot, cs) && Owned(owner, cs + [s], s)
    requires d != s && kp <= |cd| && kf <= kl <= |cs|
    ensures var cd2 := InsertRun(cd, kp, cs, kf, kl);
            && Filled(slot, cd2) && Owned(Reowned(owner, cs[kf..kl], d), cd2 + [d], d)
            && Values(slot, cd2) == InsertRun(Values(slot, cd), kp, Values(slot, cs), kf, kl)
  {
    var run := cs[kf..kl];
    var owner2 := Reowned(owner, run, d);
    ValuesSlice(slot, cd, 0, kp);
    ValuesSlice(slot, cd, kp, |cd|);
    ValuesSlice(slot, cs, kf, kl);
    ValuesConcat(slot, cd[..kp], run);
    ValuesConcat(slot, cd[..kp] + run, cd[kp..]);
    forall x | x in InsertRun(cd, kp, cs, kf, kl) + [d] ensures x < |owner2| && owner2[x] == d {
      if x !in run {
        assert x in cd + [d] by { assert x in cd[..kp] + run + cd[kp..] + [d]; assert cd == cd[..kp] + cd[kp..]; }
      } else {
        assert x in cs + [s];
      }
    }
  }

  /** The giving list of a splice keeps its remaining nodes and their values. */
  lemma RemoveRunKeeps<T>(slot: seq<Slot<T>>, owner: seq<Node>, cs: seq<Node>, s: Node, kf: nat, kl: nat, d: Node)
    requires Filled(slot, cs) && Owned(owner, cs + [s], s) && Distinct(cs + [s]) && kf <= kl <= |cs|
    ensures var cs2 := RemoveRun(cs, kf, kl);
            && Filled(slot, cs2) && Owned(Reowned(owner, cs[kf..kl], d), cs2 + [s], s)
            && Values(slot, cs2) == RemoveRun(Values(slot, cs), kf, kl)
  {
    var owner2 := Reowned(owner, cs[kf..kl], d);
    ValuesSlice(slot, cs, 0, kf);
    ValuesSlice(slot, cs, kl, |cs|);
    ValuesConcat(slot, cs[..kf], cs[kl..]);
    RunApart(cs, s, kf, kl);
    forall x | x in RemoveRun(cs, kf, kl) + [s] ensures x < |owner2| && owner2[x] == s {
      assert x in cs + [s] by { assert x in cs[..kf] + cs[kl..] + [s]; assert cs == cs[..kf] + cs[kf..kl] + cs[kl..]; }
    }
  }

  // Exchanging two lists.

  /**
   * Sentinel `s` after its fields were exchanged with those of sentinel `o`:
   * if it received `o`'s self-links (the other list was empty) it links to
   * itself; otherwise its new neighbours are pointed back at it.
   */
  ghost function Repoint(next: seq<Node>, prev: seq<Node>, s: Node, o: Node): (r: (seq<Node>, seq<Node>))
    requires Table(next, prev) && s < |next|
    ensures Table(r.0, r.1) && |r.0| == |next|
  {
    if next[s] == o then (next[s := s], prev[s := s])
    else
      var p := prev[next[s] := s];
      (next[p[s] := s], p)
  }

  /** The link tables after exchanging the lists of sentinels `a` and `b`, empty lists included. */
  ghost function Swapped(next: seq<Node>, prev: seq<Node>, a: Node, b: Node): (r: (seq<Node>, seq<Node>))
    requires Table(next, prev) && a < |next| && b < |next|
    ensures Table(r.0, r.1) && |r.0| == |next|
  {
    var n1 := next[a := next[b]][b := next[a]];
    var p1 := prev[a := prev[b]][b := prev[a]];
    var r1 := Repoint(n1, p1, a, b);
    Repoint(r1.0, r1.1, b, a)
  }

  /** The owner table after the nodes of `ca` pass to `b` and those of `cb` to `a`. */
  ghost function SwapOwners(owner: seq<Node>, ca: seq<Node>, a: Node, cb: seq<Node>, b: Node): (o: seq<Node>)
    ensures |o| == |owner|
    ensures forall x :: 0 <= x < |owner| ==> o[x] == if x in ca then b else if x in cb then a else owner[x]
  {
    seq(|owner|, i requires 0 <= i < |owner| => if i in ca then b else if i in cb then a else owner[i])
  }

  /** The ends of a circle `c + [s]` as seen from its sentinel. */
  lemma SentinelLinks(next: seq<Node>, prev: seq<Node>, c: seq<Node>, s: Node)
    requires Closed(next, prev, c + [s])
    ensures InRange(c, |next|) && InRange(c, |prev|) && s < |next| && s < |prev|
    ensures c == [] ==> next[s] == s && prev[s] == s
    ensures c != [] ==> next[s] == c[0] && prev[s] == c[|c| - 1] && next[c[|c| - 1]] == s && prev[c[0]] == s
  {
    var r := c + [s];
    assert r[|r| - 1] == s;
    assert forall i :: 0 <= i < |c| ==> c[i] == r[i];
    if c != [] {
      assert r[0] == c[0] && r[|c| - 1] == c[|c| - 1];
    }
  }

  /**
   * The exchange of two distinct sentinels `a` and `b`, told by their old
   * neighbours alone: a sentinel whose neighbour is itself has an empty list.
   */
  lemma SwappedShape(next: seq<Node>, prev: seq<Node>, a: Node, b: Node)
    requires Table(next, prev) && a < |next| && b < |next| && a != b
    requires next[a] == a <==> prev[a] == a
    requires next[b] == b <==> prev[b] == b
    requires next[a] != a ==> next[a] != b && prev[a] != b
    requires next[b] != b ==> next[b] != a && prev[b] != a
    requires next[a] != a && next[b] != b ==> next[a] != prev[b] && prev[a] != prev[b] && next[a] != next[b] && prev[a] != next[b]
    ensures var r := Swapped(next, prev, a, b);
            var fa, la, fb, lb := next[a], prev[a], next[b], prev[b];
            && (fb == b ==> r.0[a] == a && r.1[a] == a)
            && (fb != b ==> r.0[a] == fb && r.1[a] == lb && r.0[lb] == a && r.1[fb] == a)
            && (fa == a ==> r.0[b] == b && r.1[b] == b)
            && (fa != a ==> r.0[b] == fa && r.1[b] == la && r.0[la] == b && r.1[fa] == b)
            && (forall x :: 0 <= x < |next| && x != a && x != b && x != la && x != lb ==> r.0[x] == next[x])
            && (forall x :: 0 <= x < |prev| && x != a && x != b && x != fa && x != fb ==> r.1[x] == prev[x])
  {
  }

  /** Facts about the `i`-th node of the list of sentinel `s`. */
  lemma Member(owner: seq<Node>, c: seq<Node>, s: Node, i: nat)
    requires Distinct(c + [s]) && Owned(owner, c + [s], s) && i < |c|
    ensures c[i] != s && c[i] < |owner| && owner[c[i]] == s
    ensures forall j :: 0 <= j < |c| && j != i ==> c[j] != c[i]
  {
    var r := c + [s];
    assert r[i] == c[i] && r[|c|] == s && r[i] in r;
    forall j | 0 <= j < |c| && j != i ensures c[j] != c[i] {
      assert r[j] == c[j];
    }
  }

  /** Where the exchange leaves the two sentinels, the ends of their new chains, and every node of a third list. */
  lemma SwappedLinks(next: seq<Node>, prev: seq<Node>, owner: seq<Node>, a: Node, ca: seq<Node>, b: Node, cb: seq<Node>)
    requires Table(next, prev) && |owner| == |next| && a != b
    requires Closed(next, prev, ca + [a]) && Distinct(ca + [a]) && Owned(owner, ca + [a], a)
    requires Closed(next, prev, cb + [b]) && Distinct(cb + [b]) && Owned(owner, cb + [b], b)
    requires InRange(ca, |next|) && InRange(cb, |next|)
    ensures var r := Swapped(next, prev, a, b);
            && (cb == [] ==> r.0[a] == a && r.1[a] == a)
            && (cb != [] ==> r.0[a] == cb[0] && r.1[a] == cb[|cb| - 1] && r.0[cb[|cb| - 1]] == a && r.1[cb[0]] == a)
            && (ca == [] ==> r.0[b] == b && r.1[b] == b)
            && (ca != [] ==> r.0[b] == ca[0] && r.1[b] == ca[|ca| - 1] && r.0[ca[|ca| - 1]] == b && r.1[ca[0]] == b)
            && (forall x :: 0 <= x < |next| && owner[x] != a && owner[x] != b ==> r.0[x] == next[x] && r.1[x] == prev[x])
  {
    SentinelLinks(next, prev, ca, a);
    SentinelLinks(next, prev, cb, b);
    assert a in ca + [a] && b in cb + [b];
    var fa, la, fb, lb := next[a], prev[a], next[b], prev[b];
    if ca != [] {
      Member(owner, ca, a, 0);
      Member(owner, ca, a, |ca| - 1);
    }
    if cb != [] {
      Member(owner, cb, b, 0);
      Member(owner, cb, b, |cb| - 1);
    }
    SwappedShape(next, prev, a, b);
    assert owner[la] == a && owner[fa] == a && owner[lb] == b && owner[fb] == b;
  }

  /** The exchange keeps the links inside each chain. */
  lemma SwappedInterior(next: seq<Node>, prev: seq<Node>, owner: seq<Node>, a: Node, ca: seq<Node>, b: Node, cb: seq<Node>)
    requires Table(next, prev) && |owner| == |next| && a != b
    requires Closed(next, prev, ca + [a]) && Distinct(ca + [a]) && Owned(owner, ca + [a], a)
    requires Closed(next, prev, cb + [b]) && Distinct(cb + [b]) && Owned(owner, cb + [b], b)
    requires InRange(ca, |next|) && InRange(cb, |next|)
    ensures var r := Swapped(next, prev, a, b);
            && (forall i :: 0 <= i < |ca| - 1 ==> r.0[ca[i]] == next[ca[i]])
            && (forall i :: 0 < i < |ca| ==> r.1[ca[i]] == prev[ca[i]])
            && (forall i :: 0 <= i < |cb| - 1 ==> r.0[cb[i]] == next[cb[i]])
            && (forall i :: 0 < i < |cb| ==> r.1[cb[i]] == prev[cb[i]])
  {
    var r := Swapped(next, prev, a, b);
    SentinelLinks(next, prev, ca, a);
    SentinelLinks(next, prev, cb, b);
    assert a in ca + [a] && b in cb + [b];
    var fa, la, fb, lb := next[a], prev[a], next[b], prev[b];
    if ca != [] {
      Member(owner, ca, a, 0);
      Member(owner, ca, a, |ca| - 1);
    }
    if cb != [] {
      Member(owner, cb, b, 0);
      Member(owner, cb, b, |cb| - 1);
    }
    SwappedShape(next, prev, a, b);
    forall i | 0 <= i < |ca| - 1 ensures r.0[ca[i]] == next[ca[i]] {
      Member(owner, ca, a, i);
    }
    forall i | 0 < i < |ca| ensures r.1[ca[i]] == prev[ca[i]] {
      Member(owner, ca, a, i);
    }
    forall i | 0 <= i < |cb| - 1 ensures r.0[cb[i]] == next[cb[i]] {
      Member(owner, cb, b, i);
    }
    forall i | 0 < i < |cb| ensures r.1[cb[i]] == prev[cb[i]] {
      Member(owner, cb, b, i);
    }
  }

  /** A former list of another sentinel, closed again around sentinel `s2`, is intact under it. */
  lemma SwapSide<T>(next: seq<Node>, prev: seq<Node>, slot: seq<Slot<T>>, owner: seq<Node>,
                    next2: seq<Node>, prev2: seq<Node>, owner2: seq<Node>, c: seq<Node>, s: Node, s2: Node)
    requires ListOk(next, prev, slot, owner, s, c) && Table(next2, prev2) && |next2| == |next|
    requires InRange(c, |next|) && InRange(c, |prev|) && |slot| == |next|
    requires s2 < |slot| && slot[s2].Sentinel? && Owned(owner2, c + [s2], s2)
    requires c == [] ==> next2[s2] == s2 && prev2[s2] == s2
    requires c != [] ==> next2[s2] == c[0] && prev2[s2] == c[|c| - 1] && next2[c[|c| - 1]] == s2 && prev2[c[0]] == s2
    requires forall i :: 0 <= i < |c| - 1 ==> next2[c[i]] == next[c[i]]
    requires forall i :: 0 < i < |c| ==> prev2[c[i]] == prev[c[i]]
    ensures ListOk(next2, prev2, slot, owner2, s2, c)
  {
    var r := c + [s2];
    if c == [] {
      assert r == [s2];
    } else {
      Reanchor(next, prev, next2, prev2, c, s, s2);
    }
    forall i, j | 0 <= i < j < |r| ensures r[i] != r[j] {
      if j < |c| {
        assert (c + [s])[i] == r[i] && (c + [s])[j] == r[j];
      } else {
        assert r[i] in c;
        assert r[i] != s2 by { assert slot[r[i]].Value?; }
      }
    }
  }

  /** Exchanging a list with itself changes nothing. */
  lemma SwapSelf<T>(next: seq<Node>, prev: seq<Node>, slot: seq<Slot<T>>, owner: seq<Node>, a: Node, c: seq<Node>)
    requires ListOk(next, prev, slot, owner, a, c) && Table(next, prev)
    ensures Swapped(next, prev, a, a) == (next, prev)
    ensures SwapOwners(owner, c, a, c, a) == owner
  {
    SentinelLinks(next, prev, c, a);
    assert forall x :: x in c ==> x in c + [a];
    assert next[a := next[a]][a := next[a]] == next;
    assert prev[a := prev[a]][a := prev[a]] == prev;
    if c == [] {
      assert next[a := a] == next && prev[a := a] == prev;
    } else {
      assert prev[next[a] := a] == prev;
      assert next[prev[a] := a] == next;
    }
  }

  /**
   * Exchanging the lists of sentinels `a` and `b` hands each sentinel the
   * other's nodes, and so exchanges their contents.
   */
  lemma SwapOk<T>(next: seq<Node>, prev: seq<Node>, slot: seq<Slot<T>>, owner: seq<Node>,
                  lists: map<Node, seq<Node>>, a: Node, b: Node)
    requires ArenaOk(next, prev, slot, owner, lists) && a in lists && b in lists
    ensures var r := Swapped(next, prev, a, b);
            var lists2 := lists[a := lists[b]][b := lists[a]];
            && ArenaOk(r.0, r.1, slot, SwapOwners(owner, lists[a], a, lists[b], b), lists2)
            && ContentsOf(slot, lists2) == ContentsOf(slot, lists)[a := Values(slot, lists[b])][b := Values(slot, lists[a])]
  {
    var ca, cb := lists[a], lists[b];
    assert ListOk(next, prev, slot, owner, a, ca);
    if a == b {
      SwapSelf(next, prev, slot, owner, a, ca);
      assert lists[a := lists[b]][b := lists[a]] == lists;
      assert ContentsOf(slot, lists)[a := Values(slot, cb)][b := Values(slot, ca)] == ContentsOf(slot, lists);
    } else {
      SwapPairOk(next, prev, slot, owner, lists, a, b);
    }
  }

  /** `SwapOk` for two distinct sentinels. */
  lemma SwapPairOk<T>(next: seq<Node>, prev: seq<Node>, slot: seq<Slot<T>>, owner: seq<Node>,
                      lists: map<Node, seq<Node>>, a: Node, b: Node)
    requires ArenaOk(next, prev, slot, owner, lists) && a in lists && b in lists && a != b
    ensures var r := Swapped(next, prev, a, b);
            var lists2 := lists[a := lists[b]][b := lists[a]];
            && ArenaOk(r.0, r.1, slot, SwapOwners(owner, lists[a], a, lists[b], b), lists2)
            && ContentsOf(slot, lists2) == ContentsOf(slot, lists)[a := Values(slot, lists[b])][b := Values(slot, lists[a])]
  {
    var ca, cb := lists[a], lists[b];
    var r := Swapped(next, prev, a, b);
    var owner2 := SwapOwners(owner, ca, a, cb, b);
    assert ListOk(next, prev, slot, owner, a, ca);
    assert ListOk(next, prev, slot, owner, b, cb);
    SwapRings(next, prev, slot, owner, a, ca, b, cb);
    FinishTwo(next, prev, slot, owner, lists, r.0, r.1, slot, owner2, a, cb, Values(slot, cb), b, ca, Values(slot, ca));
  }

  /** After the exchange each sentinel closes the other's chain, and no other node changed. */
  lemma SwapRings<T>(next: seq<Node>, prev: seq<Node>, slot: seq<Slot<T>>, owner: seq<Node>,
                     a: Node, ca: seq<Node>, b: Node, cb: seq<Node>)
    requires Table(next, prev) && |slot| == |next| && |owner| == |next| && a != b
    requires ListOk(next, prev, slot, owner, a, ca) && ListOk(next, prev, slot, owner, b, cb)
    ensures var r := Swapped(next, prev, a, b);
            var owner2 := SwapOwners(owner, ca, a, cb, b);
            && ListOk(r.0, r.1, slot, owner2, a, cb) && ListOk(r.0, r.1, slot, owner2, b, ca)
            && Untouched(next, prev, slot, owner, r.0, r.1, slot, owner2, {a, b})
  {
    var r := Swapped(next, prev, a, b);
    var owner2 := SwapOwners(owner, ca, a, cb, b);
    SentinelLinks(next, prev, ca, a);
    SentinelLinks(next, prev, cb, b);
    SwappedLinks(next, prev, owner, a, ca, b, cb);
    SwappedInterior(next, prev, owner, a, ca, b, cb);
    SwapOwned(owner, a, ca, b, cb);
    SwapSide(next, prev, slot, owner, r.0, r.1, owner2, cb, b, a);
    SwapSide(next, prev, slot, owner, r.0, r.1, owner2, ca, a, b);
  }


  /** After the exchange each sentinel owns the other's former nodes, and no other node changes owner. */
  lemma SwapOwned(owner: seq<Node>, a: Node, ca: seq<Node>, b: Node, cb: seq<Node>)
    requires a != b
    requires Distinct(ca + [a]) && Owned(owner, ca + [a], a)
    requires Distinct(cb + [b]) && Owned(owner, cb + [b], b)
    ensures var owner2 := SwapOwners(owner, ca, a, cb, b);
            && Owned(owner2, cb + [a], a) && Owned(owner2, ca + [b], b)
            && forall x :: 0 <= x < |owner| && owner[x] != a && owner[x] != b ==> owner2[x] == owner[x]
  {
    var owner2 := SwapOwners(owner, ca, a, cb, b);
    assert a in ca + [a] && b in cb + [b];
    forall i | 0 <= i < |ca| ensures ca[i] != a { Member(owner, ca, a, i); }
    forall i | 0 <= i < |cb| ensures cb[i] != b { Member(owner, cb, b, i); }
    assert forall x :: x in ca ==> x in ca + [a];
    assert forall x :: x in cb ==> x in cb + [b];
  }

  /** With both lists non-empty, the corrected exchange relinks exactly as the code as written does. */
  lemma SwappedAgrees(next: seq<Node>, prev: seq<Node>, a: Node, b: Node, ca: seq<Node>, cb: seq<Node>)
    requires Table(next, prev) && a < |next| && b < |next| && a != b && ca != [] && cb != []
    requires Closed(next, prev, ca + [a]) && Distinct(ca + [a])
    requires Closed(next, prev, cb + [b]) && Distinct(cb + [b])
    requires forall x :: x in ca + [a] ==> x !in cb + [b]
    ensures Swapped(next, prev, a, b) == SwapAsWritten(next, prev, a, b)
  {
    SentinelLinks(next, prev, ca, a);
    SentinelLinks(next, prev, cb, b);
    assert ca[0] in ca + [a] && ca[|ca| - 1] in ca + [a] && a in ca + [a];
    assert cb[0] in cb + [b] && cb[|cb| - 1] in cb + [b] && b in cb + [b];
    assert (cb + [b])[0] == cb[0] && (cb + [b])[|cb| - 1] == cb[|cb| - 1] && (cb + [b])[|cb|] == b;
    assert (ca + [a])[0] == ca[0] && (ca + [a])[|ca| - 1] == ca[|ca| - 1] && (ca + [a])[|ca|] == a;
  }

  /** For two distinct non-empty lists of a valid arena, the corrected exchange relinks as the code as written does. */
  lemma SwapAgreesOk<T>(next: seq<Node>, prev: seq<Node>, slot: seq<Slot<T>>, owner: seq<Node>,
                        lists: map<Node, seq<Node>>, a: Node, b: Node)
    requires ArenaOk(next, prev, slot, owner, lists) && a in lists && b in lists
    requires a != b && lists[a] != [] && lists[b] != []
    ensures Swapped(next, prev, a, b) == SwapAsWritten(next, prev, a, b)
  {
    var ca, cb := lists[a], lists[b];
    assert ListOk(next, prev, slot, owner, a, ca);
    assert ListOk(next, prev, slot, owner, b, cb);
    assert forall x :: x in ca + [a] ==> x !in cb + [b] by {
      forall x | x in ca + [a] ensures x !in cb + [b] {
        assert owner[x] == a;
      }
    }
    SwappedAgrees(next, prev, a, b, ca, cb);
  }

  /** Disposing of the sentinel of an empty list frees it and forgets the list. */
  lemma DisposeOk<T>(next: seq<Node>, prev: seq<Node>, slot: seq<Slot<T>>, owner: seq<Node>,
                     lists: map<Node, seq<Node>>, t: Node)
    requires ArenaOk(next, prev, slot, owner, lists) && t in lists && lists[t] == []
    ensures ArenaOk(next, prev, slot[t := Free], owner, lists - {t})
    ensures ContentsOf(slot[t := Free], lists - {t}) == ContentsOf(slot, lists) - {t}
  {
    var slot2, lists2 := slot[t := Free], lists - {t};
    assert ListOk(next, prev, slot, owner, t, []);
    assert owner[t] == t by { assert t in [] + [t]; }
    forall u | u in lists2 ensures ListOk(next, prev, slot2, owner, u, lists2[u]) && Values(slot2, lists2[u]) == Values(slot, lists[u]) {
      assert ListOk(next, prev, slot, owner, u, lists[u]);
      ListOkFrame(next, prev, slot, owner, next, prev, slot2, owner, u, lists[u]);
    }
    assert ArenaOk(next, prev, slot2, owner, lists2);
    assert ContentsOf(slot2, lists2) == ContentsOf(slot, lists) - {t};
  }
}
