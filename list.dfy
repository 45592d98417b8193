/**
 * The `list` class template and its `basic_iterator`, over one shared node
 * arena. The arena's `next`, `prev` and `slot` tables are the node fields the
 * C++ code rewrites in place; a list object is named by the index of its
 * sentinel node `fake`, and a cursor by the index of the node it stands on.
 *
 * The ghost fields `owner` and `lists` record which sentinel each node
 * belongs to and the value nodes of every list from front to back; `Valid()`
 * says that the links close each list into a ring through its sentinel.
 * Every operation states its effect on `lists` and on `contents`, the
 * values each list holds.
 */
module List {
  import opened Rings
  import opened ListState
  import opened AsWritten

  /** A cursor: the node it stands on. */
  datatype Iterator = Iterator(p: Node)

  /** Cursor equality compares the nodes the cursors stand on, so it is equality of cursors. */
  function Equal(a: Iterator, b: Iterator): (e: bool)
    ensures e <==> a == b
  {
    a.p == b.p
  }

  class Arena<T> {
    var next: seq<Node>
    var prev: seq<Node>
    var slot: seq<Slot<T>>
    ghost var owner: seq<Node>
    ghost var lists: map<Node, seq<Node>>
    /** The values held by every list, by sentinel. */
    ghost var contents: map<Node, seq<T>>

    ghost predicate Valid()
      reads this
    {
      ArenaOk(next, prev, slot, owner, lists) && contents == ContentsOf(slot, lists)
    }

    /** The values held by the list whose sentinel is `l`, front to back. */
    ghost function Elements(l: Node): seq<T>
      reads this
      requires Valid() && l in lists
    {
      contents[l]
    }

    /** `it` stands on a node of the ring of list `l`, its sentinel included. */
    ghost predicate Linked(l: Node, it: Iterator)
      reads this
    {
      l in lists && it.p in lists[l] + [l]
    }

    /** Where `it` stands in list `l`: 0 is the front, `|lists[l]|` is `end()`. */
    ghost function Position(l: Node, it: Iterator): (k: nat)
      reads this
      requires Linked(l, it)
      ensures k <= |lists[l]| && (lists[l] + [l])[k] == it.p
    {
      var k :| 0 <= k <= |lists[l]| && (lists[l] + [l])[k] == it.p; k
    }

    /** The node at index `k` of a ring is the cursor with position `k`. */
    lemma At(l: Node, k: nat)
      requires Valid() && l in lists && k <= |lists[l]|
      ensures Linked(l, Iterator((lists[l] + [l])[k]))
      ensures Position(l, Iterator((lists[l] + [l])[k])) == k
    {
      var ring, j := lists[l] + [l], Position(l, Iterator((lists[l] + [l])[k]));
      assert ListOk(next, prev, slot, owner, l, lists[l]);
      assert ring[j] == ring[k];
    }

    /** An arena holding no list yet. */
    constructor()
      ensures Valid() && lists == map[] && next == [] && prev == [] && slot == []
    {
      next, prev, slot := [], [], [];
      owner, lists, contents := [], map[], map[];
    }

    /** `list()`: a new sentinel whose links point at itself. */
    method NewList() returns (l: Node)
      requires Valid()
      modifies this
      ensures Valid() && l == old(|next|) && l !in old(lists) && lists == old(lists)[l := []]
      ensures contents == old(contents)[l := []]
      ensures next == old(next) + [l] && prev == old(prev) + [l] && slot == old(slot) + [Sentinel]
    {
      NewListOk(next, prev, slot, owner, lists);
      l := |next|;
      next, prev, slot := next + [l], prev + [l], slot + [Sentinel];
      owner, lists, contents := owner + [l], lists[l := []], contents[l := []];
    }

    /** `empty()`: the sentinel's `next` link is the sentinel itself. */
    function IsEmpty(l: Node): (b: bool)
      reads this
      requires Valid() && l in lists
      ensures b <==> Elements(l) == []
    {
      assert ListOk(next, prev, slot, owner, l, lists[l]);
      EmptyLink(next, prev, slot, owner, l, lists[l]);
      next[l] == l
    }

    /** `begin()`: the cursor at the sentinel's successor. */
    function Begin(l: Node): (it: Iterator)
      reads this
      requires Valid() && l in lists
      ensures Linked(l, it) && Position(l, it) == 0
    {
      assert ListOk(next, prev, slot, owner, l, lists[l]);
      SentinelLinks(next, prev, lists[l], l);
      At(l, 0);
      Iterator(next[l])
    }

    /** `end()`: the cursor at the sentinel. */
    function End(l: Node): (it: Iterator)
      reads this
      requires Valid() && l in lists
      ensures Linked(l, it) && Position(l, it) == |lists[l]|
    {
      At(l, |lists[l]|);
      Iterator(l)
    }

    /** `*it`: the value at a cursor that is not `end()`. */
    function Deref(l: Node, it: Iterator): (v: T)
      reads this
      requires Valid() && Linked(l, it) && Position(l, it) < |lists[l]|
      ensures v == Elements(l)[Position(l, it)]
    {
      assert ListOk(next, prev, slot, owner, l, lists[l]);
      assert it.p == lists[l][Position(l, it)];
      slot[it.p].v
    }

    /** `++it`: follow `next`, one step forward around the ring. */
    function Increment(l: Node, it: Iterator): (r: Iterator)
      reads this
      requires Valid() && Linked(l, it)
      ensures Linked(l, r)
      ensures Position(l, r) == if Position(l, it) == |lists[l]| then 0 else Position(l, it) + 1
    {
      assert ListOk(next, prev, slot, owner, l, lists[l]);
      Step(next, prev, lists[l] + [l], Position(l, it));
      At(l, if Position(l, it) == |lists[l]| then 0 else Position(l, it) + 1);
      Iterator(next[it.p])
    }

    /** `--it`: follow `prev`, one step backward around the ring. */
    function Decrement(l: Node, it: Iterator): (r: Iterator)
      reads this
      requires Valid() && Linked(l, it)
      ensures Linked(l, r)
      ensures Position(l, r) == if Position(l, it) == 0 then |lists[l]| else Position(l, it) - 1
    {
      assert ListOk(next, prev, slot, owner, l, lists[l]);
      Neighbour(next, prev, lists[l] + [l], Position(l, it));
      At(l, if Position(l, it) == 0 then |lists[l]| else Position(l, it) - 1);
      Iterator(prev[it.p])
    }

    /** Two cursors of one list are equal exactly when they have the same position. */
    lemma EqualPosition(l: Node, a: Iterator, b: Iterator)
      requires Valid() && Linked(l, a) && Linked(l, b)
      ensures Equal(a, b) <==> Position(l, a) == Position(l, b)
    {
      var ring := lists[l] + [l];
      assert ring[Position(l, a)] == a.p && ring[Position(l, b)] == b.p;
    }

    /** `--` undoes `++` on a cursor of a valid list. */
    lemma DecrementIncrement(l: Node, it: Iterator)
      requires Valid() && Linked(l, it)
      ensures Decrement(l, Increment(l, it)) == it
    {
      var r := Decrement(l, Increment(l, it));
      EqualPosition(l, r, it);
    }

    /** `++` undoes `--` on a cursor of a valid list. */
    lemma IncrementDecrement(l: Node, it: Iterator)
      requires Valid() && Linked(l, it)
      ensures Increment(l, Decrement(l, it)) == it
    {
      var r := Increment(l, Decrement(l, it));
      EqualPosition(l, r, it);
    }

    /** `front()`: the first value. */
    function Front(l: Node): (v: T)
      reads this
      requires Valid() && l in lists && Elements(l) != []
      ensures v == Elements(l)[0]
    {
      Deref(l, Begin(l))
    }

    /** `back()`: the value one step before `end()`. */
    function Back(l: Node): (v: T)
      reads this
      requires Valid() && l in lists && Elements(l) != []
      ensures v == Elements(l)[|Elements(l)| - 1]
    {
      Deref(l, Decrement(l, End(l)))
    }

    /**
     * `insert(pos, val)`: a new node holding `v` is linked in just before
     * `pos`; the cursor returned stands on it, and `pos` now stands one
     * place further on.
     */
    method Insert(l: Node, pos: Iterator, v: T) returns (it: Iterator)
      requires Valid() && Linked(l, pos)
      modifies this
      ensures Valid() && Linked(l, it) && Linked(l, pos)
      ensures var k := old(Position(l, pos));
              && lists == old(lists)[l := old(lists[l])[..k] + [it.p] + old(lists[l])[k..]]
              && contents == old(contents)[l := old(contents[l])[..k] + [v] + old(contents[l])[k..]]
              && Position(l, it) == k && Position(l, pos) == k + 1
      ensures it.p == old(|next|) && |next| == old(|next|) + 1
    {
      ghost var k, c, vs := Position(l, pos), lists[l], Elements(l);
      InsertOk(next, prev, slot, owner, lists, l, k, v);
      var n := |next|;
      var p := prev[pos.p];
      next, prev, slot := next + [pos.p], prev + [p], slot + [Value(v)];
      prev := prev[pos.p := n];
      next := next[p := n];
      owner, lists := owner + [l], lists[l := c[..k] + [n] + c[k..]];
      contents := contents[l := vs[..k] + [v] + vs[k..]];
      it := Iterator(n);
      assert (lists[l] + [l])[k] == n;
      assert (lists[l] + [l])[k + 1] == (c + [l])[k] == pos.p;
      At(l, k);
      At(l, k + 1);
    }

    /**
     * `erase(pos)` for `pos` other than `end()`: the node is unlinked and
     * freed; the cursor returned stands on its former successor.
     */
    method Erase(l: Node, pos: Iterator) returns (it: Iterator)
      requires Valid() && Linked(l, pos) && Position(l, pos) < |lists[l]|
      modifies this
      ensures Valid() && Linked(l, it)
      ensures var k := old(Position(l, pos));
              && lists == old(lists)[l := old(lists[l])[..k] + old(lists[l])[k + 1..]]
              && contents == old(contents)[l := old(contents[l])[..k] + old(contents[l])[k + 1..]]
              && Position(l, it) == k && it.p == old(next[pos.p])
      ensures |next| == old(|next|) && slot == old(slot)[pos.p := Free]
    {
      ghost var k, c, vs := Position(l, pos), lists[l], Elements(l);
      assert pos.p == c[k];
      EraseOk(next, prev, slot, owner, lists, l, k);
      var x := pos.p;
      var q := next[x];
      next := next[prev[x] := next[x]];
      prev := prev[next[x] := prev[x]];
      slot := slot[x := Free];
      lists, contents := lists[l := c[..k] + c[k + 1..]], contents[l := vs[..k] + vs[k + 1..]];
      it := Iterator(q);
      At(l, k);
    }

    /**
     * `erase(first, last)`: erase at `first` until it reaches `last`, then
     * return `last`.
     */
    method EraseRange(l: Node, first: Iterator, last: Iterator) returns (it: Iterator)
      requires Valid() && Linked(l, first) && Linked(l, last) && Position(l, first) <= Position(l, last)
      modifies this
      ensures Valid() && it == last && Linked(l, it)
      ensures var kf, kl := old(Position(l, first)), old(Position(l, last));
              && lists == old(lists)[l := old(lists[l])[..kf] + old(lists[l])[kl..]]
              && contents == old(contents)[l := old(contents[l])[..kf] + old(contents[l])[kl..]]
              && Position(l, it) == kf
      ensures |next| == old(|next|)
    {
      ghost var kf, kl := Position(l, first), Position(l, last);
      ghost var lists0: map<Node, seq<Node>>, contents0: map<Node, seq<T>> := lists, contents;
      ghost var d := 0;
      var cur := first;
      NoGap(lists0, l, kf);
      NoGap(contents0, l, kf);
      while !Equal(cur, last)
        invariant Erasing(l, cur, last, lists0, contents0, kf, kl, d)
        invariant |next| == old(|next|)
        decreases kl - kf - d
      {
        cur := EraseNext(l, cur, last, lists0, contents0, kf, kl, d);
        d := d + 1;
      }
      EqualPosition(l, cur, last);
      WholeGap(lists0, l, kf, kl);
      WholeGap(contents0, l, kf, kl);
      it := last;
    }

    /**
     * Where `erase(first, last)` stands after `d` erasures: the `d` nodes
     * from position `kf` on are gone, `cur` is at `kf` and `last` at `kl - d`.
     */
    ghost predicate Erasing(l: Node, cur: Iterator, last: Iterator, lists0: map<Node, seq<Node>>,
                            contents0: map<Node, seq<T>>, kf: nat, kl: nat, d: nat)
      reads this
    {
      && Valid() && l in lists0 && l in contents0
      && kf + d <= kl <= |lists0[l]| && kl <= |contents0[l]|
      && lists == lists0[l := Gap(lists0[l], kf, d)]
      && contents == contents0[l := Gap(contents0[l], kf, d)]
      && Linked(l, cur) && Position(l, cur) == kf
      && Linked(l, last) && Position(l, last) == kl - d
    }

    /** One turn of the loop of `erase(first, last)`: erase at `cur`. */
    method EraseNext(l: Node, cur: Iterator, last: Iterator, ghost lists0: map<Node, seq<Node>>,
                     ghost contents0: map<Node, seq<T>>, ghost kf: nat, ghost kl: nat, ghost d: nat)
      returns (it: Iterator)
      requires Erasing(l, cur, last, lists0, contents0, kf, kl, d) && !Equal(cur, last)
      modifies this
      ensures Erasing(l, it, last, lists0, contents0, kf, kl, d + 1) && |next| == old(|next|)
    {
      EqualPosition(l, cur, last);
      ghost var r, j := lists[l], kl - d - 1;
      assert (r + [l])[j + 1] == last.p;
      Widen(lists0, l, kf, d);
      Widen(contents0, l, kf, d);
      EraseShift(r, l, kf, j);
      it := Erase(l, cur);
      assert lists[l] == r[..kf] + r[kf + 1..];
      At(l, j);
    }

    /** `c` with the `d` elements from index `i` on taken out. */
    static ghost function Gap<X>(c: seq<X>, i: nat, d: nat): seq<X>
      requires i + d <= |c|
    {
      c[..i] + c[i + d..]
    }

    /** A gap of width zero leaves the map as it was. */
    static lemma NoGap<X>(m: map<Node, seq<X>>, l: Node, i: nat)
      requires l in m && i <= |m[l]|
      ensures m[l := Gap(m[l], i, 0)] == m
    {
      assert Gap(m[l], i, 0) == m[l];
    }

    /** A gap from `i` up to `j` leaves the elements before `i` and from `j` on. */
    static lemma WholeGap<X>(m: map<Node, seq<X>>, l: Node, i: nat, j: nat)
      requires l in m && i <= j <= |m[l]|
      ensures m[l := Gap(m[l], i, j - i)] == m[l := m[l][..i] + m[l][j..]]
    {
    }

    /** Erasing at the gap of an entry widens the gap by one. */
    static lemma Widen<X>(m: map<Node, seq<X>>, l: Node, i: nat, d: nat)
      requires l in m && i + d < |m[l]|
      ensures var m1 := m[l := Gap(m[l], i, d)];
              && |m1[l]| == |m[l]| - d
              && m1[l := m1[l][..i] + m1[l][i + 1..]] == m[l := Gap(m[l], i, d + 1)]
    {
      var c := m[l];
      var r := Gap(c, i, d);
      assert r[..i] == c[..i];
      assert r[i + 1..] == c[i + d + 1..];
    }

    /** Past an erased index, a ring's nodes move one index down. */
    static lemma EraseShift(r: seq<Node>, l: Node, k: nat, j: nat)
      requires k <= j < |r|
      ensures (r[..k] + r[k + 1..] + [l])[j] == (r + [l])[j + 1]
    {
    }

    /**
     * The two `triswap` rotations of `splice`, one field at a time through a
     * temporary: the `next` fields of the predecessors of `pos`, `first` and
     * `last`, then the `prev` fields of `pos`, `last` and `first`.
     */
    method Relink(pos: Node, first: Node, last: Node)
      requires Table(next, prev) && pos < |next| && first < |next| && last < |next|
      modifies this
      ensures (next, prev) == SpliceAsWritten(old(next), old(prev), pos, first, last)
      ensures slot == old(slot) && owner == old(owner) && lists == old(lists) && contents == old(contents)
    {
      var x, y, z := prev[pos], prev[first], prev[last];
      var t := next[x];
      next := next[x := next[y]];
      next := next[y := next[z]];
      next := next[z := t];
      t := prev[pos];
      prev := prev[pos := prev[last]];
      prev := prev[last := prev[first]];
      prev := prev[first := t];
    }

    /** Cursors into two different lists stand on different nodes. */
    lemma Apart(l: Node, a: Iterator, o: Node, b: Iterator)
      requires Valid() && Linked(l, a) && Linked(o, b) && l != o
      ensures a.p != b.p
    {
      assert ListOk(next, prev, slot, owner, l, lists[l]);
      assert ListOk(next, prev, slot, owner, o, lists[o]);
    }

    /**
     * `splice(pos, other, first, last)`: the run [first, last) of list `o`
     * moves to just before `pos` in list `l`; `o` may be `l` itself, and then
     * `pos` must lie outside the run. No node is created or freed. When the
     * run is empty or `pos` is `last` nothing changes; otherwise the links
     * are rewritten exactly as the two rotations of the C++ code do.
     */
    method Splice(l: Node, pos: Iterator, o: Node, first: Iterator, last: Iterator)
      requires Valid() && Linked(l, pos) && Linked(o, first) && Linked(o, last)
      requires Position(o, first) <= Position(o, last)
      requires l == o && first != last ==> Position(l, pos) < Position(o, first) || Position(o, last) <= Position(l, pos)
      modifies this
      ensures Valid() && slot == old(slot) && |next| == old(|next|)
      ensures var kp, kf, kl := old(Position(l, pos)), old(Position(o, first)), old(Position(o, last));
              if l == o then
                && lists == old(lists)[l := MoveRun(old(lists[l]), kp, kf, kl)]
                && contents == old(contents)[l := MoveRun(old(contents[l]), kp, kf, kl)]
              else
                && lists == old(lists)[l := InsertRun(old(lists[l]), kp, old(lists[o]), kf, kl)]
                                      [o := RemoveRun(old(lists[o]), kf, kl)]
                && contents == old(contents)[l := InsertRun(old(contents[l]), kp, old(contents[o]), kf, kl)]
                                            [o := RemoveRun(old(contents[o]), kf, kl)]
      ensures if first != last && pos != last
              then (next, prev) == SpliceAsWritten(old(next), old(prev), pos.p, first.p, last.p)
              else next == old(next) && prev == old(prev)
    {
      ghost var kp, kf, kl := Position(l, pos), Position(o, first), Position(o, last);
      EqualPosition(o, first, last);
      if l == o {
        EqualPosition(l, pos, last);
      } else {
        Apart(l, pos, o, last);
      }
      if !Equal(first, last) && !Equal(pos, last) {
        if l == o {
          SpliceWithinOk(next, prev, slot, owner, lists, l, kp, kf, kl);
        } else {
          SpliceAcrossOk(next, prev, slot, owner, lists, l, kp, o, kf, kl);
        }
        Relink(pos.p, first.p, last.p);
        if l == o {
          lists, contents := lists[l := MoveRun(lists[l], kp, kf, kl)], contents[l := MoveRun(contents[l], kp, kf, kl)];
        } else {
          owner := Reowned(owner, lists[o][kf..kl], l);
          lists := lists[l := InsertRun(lists[l], kp, lists[o], kf, kl)][o := RemoveRun(lists[o], kf, kl)];
          contents := contents[l := InsertRun(contents[l], kp, contents[o], kf, kl)]
                              [o := RemoveRun(contents[o], kf, kl)];
        }
      } else if l == o {
        StillRun(lists, l, kp, kf, kl);
        StillRun(contents, l, kp, kf, kl);
      } else {
        StillAcross(lists, l, kp, o, kf);
        StillAcross(contents, l, kp, o, kf);
      }
    }

    /**
     * After the exchange in `swap`, point the new neighbours of sentinel `s`
     * back at it, or, when `s` received the self-links of the other sentinel
     * `o`, make `s` link to itself.
     */
    method PointBack(s: Node, o: Node)
      requires Table(next, prev) && s < |next|
      modifies this
      ensures (next, prev) == Repoint(old(next), old(prev), s, o)
      ensures slot == old(slot) && owner == old(owner) && lists == old(lists) && contents == old(contents)
    {
      if next[s] == o {
        next, prev := next[s := s], prev[s := s];
      } else {
        prev := prev[next[s] := s];
        next := next[prev[s] := s];
      }
    }

    /** The link work of `swap`: exchange the sentinels' fields, then point each new chain back at its sentinel. */
    method Exchange(a: Node, b: Node)
      requires Table(next, prev) && a < |next| && b < |next|
      modifies this
      ensures (next, prev) == Swapped(old(next), old(prev), a, b)
      ensures slot == old(slot) && owner == old(owner) && lists == old(lists) && contents == old(contents)
    {
      var na, pa := next[a], prev[a];
      next := next[a := next[b]][b := na];
      prev := prev[a := prev[b]][b := pa];
      PointBack(a, b);
      PointBack(b, a);
    }

    /**
     * `swap(a, b)`: exchange the two sentinels' link fields, then point the
     * new neighbours of each sentinel back at it. A sentinel that received
     * the other sentinel's self-links, because the other list was empty,
     * links to itself instead. When both lists have elements this is the
     * C++ code's own relinking.
     */
    method Swap(a: Node, b: Node)
      requires Valid() && a in lists && b in lists
      modifies this
      ensures Valid() && slot == old(slot) && |next| == old(|next|)
      ensures lists == old(lists)[a := old(lists[b])][b := old(lists[a])]
      ensures contents == old(contents)[a := old(contents[b])][b := old(contents[a])]
      ensures a != b && old(lists[a]) != [] && old(lists[b]) != [] ==>
                (next, prev) == SwapAsWritten(old(next), old(prev), a, b)
    {
      SwapOk(next, prev, slot, owner, lists, a, b);
      if a != b && lists[a] != [] && lists[b] != [] {
        SwapAgreesOk(next, prev, slot, owner, lists, a, b);
      }
      Exchange(a, b);
      owner := SwapOwners(owner, lists[a], a, lists[b], b);
      lists := lists[a := lists[b]][b := lists[a]];
      contents := contents[a := contents[b]][b := contents[a]];
    }

    /**
     * The end of a list object that holds no node: its sentinel is freed and
     * the list is forgotten. Every other list keeps its nodes and values.
     */
    method Dispose(t: Node)
      requires Valid() && t in lists && lists[t] == []
      modifies this
      ensures Valid() && lists == old(lists) - {t} && contents == old(contents) - {t}
      ensures next == old(next) && prev == old(prev)
    {
      DisposeOk(next, prev, slot, owner, lists, t);
      slot := slot[t := Free];
      lists, contents := lists - {t}, contents - {t};
    }

    /**
     * The copy constructor `list(other)`: a new list, then `push_back` of
     * every value of `r` from `begin()` to `end()`. The copy holds the same
     * values on nodes of its own, all allocated by this call; every list that
     * was there before keeps its nodes and values.
     */
    method CopyOf(r: Node) returns (l: Node)
      requires Valid() && r in lists
      modifies this
      ensures Valid() && l !in old(lists) && l in lists && lists == old(lists)[l := lists[l]]
      ensures contents == old(contents)[l := old(contents[r])]
      ensures l == old(|next|) < |next| && lists[l] == Span(l + 1, |next|)
    {
      ghost var lists0: map<Node, seq<Node>>, contents0: map<Node, seq<T>> := lists, contents;
      l := NewList();
      ghost var lists1: map<Node, seq<Node>>, contents1: map<Node, seq<T>> := lists, contents;
      ghost var i: nat := 0;
      Twice(lists0, l, [], []);
      NoneYet(contents1, l, r);
      var it := Begin(r);
      while !Equal(it, End(r))
        invariant Copying(l, r, it, lists1, contents1, i)
        decreases |contents1[r]| - i
      {
        it := CopyNext(l, r, it, lists1, contents1, i);
        i := i + 1;
      }
      EqualPosition(r, it, End(r));
      Grown(contents1, l, r);
      Twice(lists0, l, [], lists[l]);
      Twice(contents0, l, [], contents0[r]);
    }

    /**
     * Where the copy of `r` into `l` stands after `i` values: `l` holds the
     * first `i` values of `r` on the nodes allocated after its sentinel, and
     * `it` is at position `i` of `r`.
     */
    ghost predicate Copying(l: Node, r: Node, it: Iterator, lists1: map<Node, seq<Node>>,
                            contents1: map<Node, seq<T>>, i: nat)
      reads this
    {
      && Valid() && l in lists && r in lists && l != r && l in contents1 && r in contents1
      && lists == lists1[l := lists[l]] && lists[r] == lists1[r]
      && i <= |contents1[r]| && contents == contents1[l := contents1[r][..i]]
      && Linked(r, it) && Position(r, it) == i
      && l < |next| && lists[l] == Span(l + 1, |next|)
    }

    /** One turn of the copy loop: `push_back(*it)`, then `++it`. */
    method CopyNext(l: Node, r: Node, it: Iterator, ghost lists1: map<Node, seq<Node>>,
                    ghost contents1: map<Node, seq<T>>, ghost i: nat)
      returns (it2: Iterator)
      requires Copying(l, r, it, lists1, contents1, i) && !Equal(it, End(r))
      modifies this
      ensures Copying(l, r, it2, lists1, contents1, i + 1)
    {
      EqualPosition(r, it, End(r));
      var v := Deref(r, it);
      assert v == contents1[r][i];
      it2 := Increment(r, it);
      assert it2.p == (lists1[r] + [r])[i + 1];
      Grow(contents1, l, r, i);
      Twice(lists1, l, lists[l], lists[l] + [|next|]);
      SpanStep(l + 1, |next|);
      PushBack(l, v);
      At(r, i + 1);
    }

    /**
     * `operator=(other)`: the parameter is a copy of `r`; it is exchanged
     * with `l`, cleared, and then its object ends. Afterwards `l` holds the
     * values of `r` on fresh nodes, `r` and every other list are as they
     * were, and no new list remains.
     */
    method Assign(l: Node, r: Node)
      requires Valid() && l in lists && r in lists
      modifies this
      ensures Valid() && l in lists && lists == old(lists)[l := lists[l]]
      ensures contents == old(contents)[l := old(contents[r])]
      ensures old(|next|) < |next| && lists[l] == Span(old(|next|) + 1, |next|)
    {
      ghost var lists0: map<Node, seq<Node>>, contents0: map<Node, seq<T>> := lists, contents;
      var other := CopyOf(r);
      ghost var copied: seq<Node> := lists[other];
      ghost var size: nat := |next|;
      assert copied == Span(old(|next|) + 1, size);
      Assigned(lists0, l, other, lists[other], []);
      Assigned(contents0, l, other, contents[other], []);
      Swap(other, l);
      Clear(other);
      Dispose(other);
      assert lists[l] == copied && |next| == size;
    }

    /** `clear()`: erase from `begin()` to `end()`. */
    method Clear(l: Node)
      requires Valid() && l in lists
      modifies this
      ensures Valid() && lists == old(lists)[l := []]
      ensures contents == old(contents)[l := []]
      ensures |next| == old(|next|)
    {
      var _ := EraseRange(l, Begin(l), End(l));
    }

    /** `push_front(val)`: insert before `begin()`. */
    method PushFront(l: Node, v: T)
      requires Valid() && l in lists
      modifies this
      ensures Valid() && lists == old(lists)[l := [old(|next|)] + old(lists[l])]
      ensures contents == old(contents)[l := [v] + old(contents[l])]
      ensures |next| == old(|next|) + 1
    {
      FrontIn(lists, l, |next|);
      FrontIn(contents, l, v);
      var b := Begin(l);
      var it := Insert(l, b, v);
    }

    /** `push_back(val)`: insert before `end()`. */
    method PushBack(l: Node, v: T)
      requires Valid() && l in lists
      modifies this
      ensures Valid() && lists == old(lists)[l := old(lists[l]) + [old(|next|)]]
      ensures contents == old(contents)[l := old(contents[l]) + [v]]
      ensures |next| == old(|next|) + 1
    {
      BackIn(lists, l, |next|);
      BackIn(contents, l, v);
      var e := End(l);
      var it := Insert(l, e, v);
    }

    /**
     * Writing `v` through the reference returned by `*it`, `front()` or
     * `back()`: the node's value becomes `v`; no link and no other value changes.
     */
    method SetValue(l: Node, it: Iterator, v: T)
      requires Valid() && Linked(l, it) && Position(l, it) < |lists[l]|
      modifies this
      ensures Valid() && lists == old(lists) && next == old(next) && prev == old(prev)
      ensures contents == old(contents)[l := old(contents[l])[old(Position(l, it)) := v]]
      ensures Linked(l, it) && Position(l, it) == old(Position(l, it)) && Deref(l, it) == v
    {
      ghost var k := Position(l, it);
      SetOk(next, prev, slot, owner, lists, l, k, v);
      slot := slot[it.p := Value(v)];
      contents := contents[l := contents[l][k := v]];
      assert ListOk(next, prev, slot, owner, l, lists[l]);
      assert (lists[l] + [l])[Position(l, it)] == (lists[l] + [l])[k];
    }

    /** After `push_front(v)`, `front()` is `v`. */
    method FrontAfterPush(l: Node, v: T)
      requires Valid() && l in lists
      modifies this
      ensures Valid() && l in lists && Elements(l) != [] && Front(l) == v
    {
      PushFront(l, v);
    }

    /** After `push_back(v)`, `back()` is `v`. */
    method BackAfterPush(l: Node, v: T)
      requires Valid() && l in lists
      modifies this
      ensures Valid() && l in lists && Elements(l) != [] && Back(l) == v
    {
      PushBack(l, v);
    }

    /** `pop_front()`: erase at `begin()`. */
    method PopFront(l: Node)
      requires Valid() && l in lists && Elements(l) != []
      modifies this
      ensures Valid() && lists == old(lists)[l := old(lists[l])[1..]]
      ensures contents == old(contents)[l := old(contents[l])[1..]]
      ensures |next| == old(|next|)
    {
      var _ := Erase(l, Begin(l));
      assert old(lists[l])[..0] + old(lists[l])[0 + 1..] == old(lists[l])[1..];
      assert old(contents[l])[..0] + old(contents[l])[0 + 1..] == old(contents[l])[1..];
    }

    /** `pop_back()`: erase one step before `end()`. */
    method PopBack(l: Node)
      requires Valid() && l in lists && Elements(l) != []
      modifies this
      ensures Valid() && lists == old(lists)[l := old(lists[l])[..|old(lists[l])| - 1]]
      ensures contents == old(contents)[l := old(contents[l])[..|old(contents[l])| - 1]]
      ensures |next| == old(|next|)
    {
      BackOut(lists, l);
      BackOut(contents, l);
      var _ := Erase(l, Decrement(l, End(l)));
    }

    /** `push_back` followed by `pop_back` gives every list back its nodes and values. */
    method PushBackPopBack(l: Node, v: T)
      requires Valid() && l in lists
      modifies this
      ensures Valid() && lists == old(lists) && contents == old(contents)
    {
      PutBack(lists, l, |next|);
      PutBack(contents, l, v);
      PushBack(l, v);
      PopBack(l);
    }

    /** `push_front` followed by `pop_front` gives every list back its nodes and values. */
    method PushFrontPopFront(l: Node, v: T)
      requires Valid() && l in lists
      modifies this
      ensures Valid() && lists == old(lists) && contents == old(contents)
    {
      PutFront(lists, l, |next|);
      PutFront(contents, l, v);
      PushFront(l, v);
      PopFront(l);
    }
  }

  /** Moving an empty run, or moving a run to where it already ends, changes nothing. */
  lemma StillRun<X>(m: map<Node, seq<X>>, l: Node, kp: nat, kf: nat, kl: nat)
    requires l in m && kf <= kl <= |m[l]| && kp <= |m[l]| && (kf == kl || kp == kl)
    ensures m[l := MoveRun(m[l], kp, kf, kl)] == m
  {
    var c := m[l];
    if kf == kl && kp <= kf {
      assert c[..kp] + c[kf..kl] + c[kp..kf] + c[kl..] == c[..kp] + c[kp..kf] + c[kf..];
      assert c[..kp] + c[kp..kf] == c[..kf];
    } else if kf == kl {
      assert c[..kf] + c[kl..kp] + c[kf..kl] + c[kp..] == c[..kf] + (c[kl..kp] + c[kp..]);
      assert c[kl..kp] + c[kp..] == c[kf..];
    } else {
      assert c[..kf] + c[kl..kp] + c[kf..kl] + c[kp..] == c[..kf] + c[kf..kl] + c[kl..];
      assert c[..kf] + c[kf..kl] == c[..kl];
    }
    assert MoveRun(c, kp, kf, kl) == c;
  }

  /** Moving an empty run from one entry of a map to another changes nothing. */
  lemma StillAcross<X>(m: map<Node, seq<X>>, l: Node, kp: nat, o: Node, kf: nat)
    requires l in m && o in m && l != o && kp <= |m[l]| && kf <= |m[o]|
    ensures m[l := InsertRun(m[l], kp, m[o], kf, kf)][o := RemoveRun(m[o], kf, kf)] == m
  {
    assert m[l][..kp] + m[o][kf..kf] + m[l][kp..] == m[l];
    assert m[o][..kf] + m[o][kf..] == m[o];
  }

  /** The nodes `a`, `a + 1`, ..., `b - 1`, in order. */
  function Span(a: Node, b: Node): (r: seq<Node>)
    requires a <= b
    ensures |r| == b - a && forall i :: 0 <= i < |r| ==> r[i] == a + i
  {
    seq(b - a, i requires 0 <= i < b - a => a + i)
  }

  /** Extending a span by the next node. */
  lemma SpanStep(a: Node, b: Node)
    requires a <= b
    ensures Span(a, b) + [b] == Span(a, b + 1)
  {
  }

  /**
   * The maps of `operator=`: a new entry `o` holding `x` is exchanged with
   * entry `l`, set to `e` and dropped; `l` is left holding `x`.
   */
  lemma Assigned<X>(m: map<Node, X>, l: Node, o: Node, x: X, e: X)
    requires l in m && o !in m
    ensures var m1 := m[o := x];
            var m2 := m1[o := m1[l]][l := m1[o]];
            m2[o := e] - {o} == m[l := x]
  {
  }

  /** The second of two updates of one entry of a map is the one that stays. */
  lemma Twice<X>(m: map<Node, X>, l: Node, x: X, y: X)
    ensures m[l := x][l := y] == m[l := y]
  {
  }

  /** Appending the next value of entry `r` to entry `l`, which holds a prefix of it. */
  lemma Grow<X>(m: map<Node, seq<X>>, l: Node, r: Node, i: nat)
    requires l in m && r in m && l != r && i < |m[r]|
    ensures var m1 := m[l := m[r][..i]];
            m1[l := m1[l] + [m[r][i]]] == m[l := m[r][..i + 1]]
  {
    assert m[r][..i] + [m[r][i]] == m[r][..i + 1];
  }

  /** An empty entry `l` holds the empty prefix of entry `r`. */
  lemma NoneYet<X>(m: map<Node, seq<X>>, l: Node, r: Node)
    requires l in m && r in m && m[l] == []
    ensures m[l := m[r][..0]] == m
  {
    assert m[r][..0] == [];
  }

  /** The whole of entry `r` as a prefix of itself. */
  lemma Grown<X>(m: map<Node, seq<X>>, l: Node, r: Node)
    requires r in m
    ensures m[l := m[r][..|m[r]|]] == m[l := m[r]]
  {
    assert m[r][..|m[r]|] == m[r];
  }

  /** Inserting before index 0 of an entry of a map puts the element in front. */
  lemma FrontIn<X>(m: map<Node, seq<X>>, l: Node, x: X)
    requires l in m
    ensures m[l := m[l][..0] + [x] + m[l][0..]] == m[l := [x] + m[l]]
  {
    assert m[l][..0] + [x] + m[l][0..] == [x] + m[l];
  }

  /** Inserting before index `|m[l]|` of an entry of a map puts the element at the back. */
  lemma BackIn<X>(m: map<Node, seq<X>>, l: Node, x: X)
    requires l in m
    ensures m[l := m[l][..|m[l]|] + [x] + m[l][|m[l]|..]] == m[l := m[l] + [x]]
  {
    assert m[l][..|m[l]|] + [x] + m[l][|m[l]|..] == m[l] + [x];
  }

  /** Removing the last index of a non-empty entry of a map drops its last element. */
  lemma BackOut<X>(m: map<Node, seq<X>>, l: Node)
    requires l in m && m[l] != []
    ensures m[l := m[l][..|m[l]| - 1] + m[l][|m[l]| - 1 + 1..]] == m[l := m[l][..|m[l]| - 1]]
  {
    assert m[l][..|m[l]| - 1] + m[l][|m[l]| - 1 + 1..] == m[l][..|m[l]| - 1];
  }

  /** Appending to one entry of a map and dropping the last element again restores the map. */
  lemma PutBack<X>(m: map<Node, seq<X>>, l: Node, x: X)
    requires l in m
    ensures m[l := m[l] + [x]][l := (m[l] + [x])[..|m[l] + [x]| - 1]] == m
  {
    assert (m[l] + [x])[..|m[l] + [x]| - 1] == m[l];
  }

  /** Prepending to one entry of a map and dropping the first element again restores the map. */
  lemma PutFront<X>(m: map<Node, seq<X>>, l: Node, x: X)
    requires l in m
    ensures m[l := [x] + m[l]][l := ([x] + m[l])[1..]] == m
  {
    assert ([x] + m[l])[1..] == m[l];
  }
}
