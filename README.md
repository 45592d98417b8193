# A verified model of `list<T>`, a circular doubly linked list with a sentinel

The modelled C++ class template `list<T>` (`list.h`) keeps its elements in heap
nodes linked through their `next` and `prev` fields. Every list owns one sentinel
node, `fake`, which is not a value node. The sentinel closes the chain into a
ring: an empty list is a sentinel whose links both point at itself,
`begin()` is the sentinel's successor and `end()` is the sentinel. Cursors
(`basic_iterator`) hold the address of one node. `++` follows `next`, `--` follows
`prev` and `*` reads the node's value. Every operation rewrites links in place:
`insert`, both `erase`s, `push_*`/`pop_*`, `clear`, `splice` (three-way
rotations of six link fields), `swap` (exchange of the two sentinels'
fields) and `operator=` (copy, swap, clear).

The Dafny model keeps that in-place form. The heap becomes one arena, the
class `List.Arena<T>`:

- The sequence fields `next`, `prev` and `slot` are the node fields.
- `slot` is `Free`, `Sentinel` or `Value(v)`.
- A list object is named by the index of its sentinel, and a cursor
  (`List.Iterator`) by the index of the node it stands on.
- Every C++ operation is a method or function on the arena. Each method
  changes the fields the same way the C++ statements change the node fields,
  in the same order, with three exceptions:
  - `List.Arena.Swap` points an emptied sentinel back at itself, where the
    C++ code links the two sentinels to each other (see Findings).
  - `List.Arena.Splice` leaves the links alone when the run is empty or
    `pos == last`, where the C++ code still rotates them (see Findings).
  - `List.Arena.Dispose` frees the sentinel of a list object that holds
    nothing. The C++ class has no destructor, so it has no counterpart there.

Ghost state records what the links mean:

- `owner` gives each node's sentinel.
- `lists` gives, for each sentinel, its value nodes from front to back.
- `contents` gives the values each list holds.

`Valid()` states four things:

- Every list's nodes and its sentinel form one closed ring in both directions.
- The rings of different lists are disjoint.
- Every value node holds a value.
- `contents` is read off the slots.

Every operation keeps `Valid()`. The link-writing helpers `Relink`,
`Exchange` and `PointBack` are steps inside an operation: each states only the
links it produces and that it touches nothing else. Each states its effect on `lists` and
`contents`, and says that no other list changes.

The files are:

- `rings.dfy` (module `Rings`): the pure theory of rings of nodes.
  - `Path`, `Closed` and `Distinct`.
  - Rotation, unlinking and inserting one node.
  - How exchanging three links re-forms one ring or two.
  - The sequence functions `InsertRun`, `RemoveRun` and `MoveRun`, which
    describe `splice`.
- `state.dfy` (module `ListState`): the arena invariant `ArenaOk`, the
  values `ContentsOf`, and one lemma per operation. Each lemma shows that the
  relinked tables still satisfy the invariant and says what every list then
  holds.
- `as_written.dfy` (module `AsWritten`): the link rewriting of `swap` and
  `splice` exactly as the C++ code does it. It includes the cases where that
  code is wrong (see Findings).
- `list.dfy` (module `List`): the class `Arena<T>` with the operations.

## Model

| member | source | states |
|---|---|---|
| List.Arena.NewList | list.h:84-87 | the new sentinel links to itself; the new list is empty; every other list is unchanged |
| ListState.NewListOk | list.h:84-87 | a fresh self-linked sentinel keeps the arena invariant, and the new list holds nothing |
| List.Arena.CopyOf | list.h:89-95 | the copy holds exactly the values of the source list, in order, on nodes all allocated by this call; every earlier list, the source included, keeps its nodes and values |
| List.Arena.CopyNext | list.h:93-94 | one turn of the copy loop: after `i + 1` turns the copy holds the first `i + 1` values of the source and the cursor is at position `i + 1` |
| List.Arena.Assign | list.h:97-103 | afterwards `l` holds the values of `r` on fresh nodes; `r` and every other list keep their nodes and values; the temporary list is gone |
| List.Arena.Swap | list.h:52-63 | the two lists exchange their nodes and values, empty lists included; when the two lists are distinct and both non-empty the links are exactly those the C++ code produces |
| List.Arena.Exchange | list.h:52-63 | the exchange of the two sentinels' fields and the two fix-ups produce the links `ListState.Swapped` describes; values and owners are unchanged |
| List.Arena.PointBack | list.h:55-62 | one fix-up: the new neighbours of sentinel `s` point back at it, or `s` links to itself when its links named the other sentinel; only those links change |
| ListState.Swapped | list.h:52-63 | the corrected exchange of links stays a well-formed link table over the same nodes |
| ListState.Repoint | list.h:55-62 | one corrected fix-up stays a well-formed link table over the same nodes |
| AsWritten.SwapAsWritten | list.h:52-63 | the links `swap` produces as written form a well-formed link table over the same nodes, whatever the two lists |
| ListState.SwapOk | list.h:52-63 | the corrected exchange keeps the arena invariant and exchanges what the two sentinels hold; a list swapped with itself is unchanged |
| ListState.SwapAgreesOk | list.h:52-63 | for two distinct non-empty lists the corrected exchange relinks exactly as the code as written |
| ListState.SwappedAgrees | list.h:52-63 | the same agreement, stated for two disjoint closed rings that each hold at least one value node besides their sentinel |
| AsWritten.SwapAsWrittenNonEmpty | list.h:52-63 | the code as written is right when both lists have elements: each sentinel closes the other's former chain |
| List.Arena.IsEmpty | list.h:105-109 | `next[l] == l` exactly when the list holds no value |
| ListState.EmptyLink | list.h:105-109 | on an intact ring, the sentinel links to itself if and only if the list has no value node |
| List.Arena.Front | list.h:111-121 | `front()` of a non-empty list is its first value |
| List.Arena.PushFront | list.h:123-127 | one new node holding `v` is placed first; every other list is unchanged |
| List.Arena.PopFront | list.h:129-133 | the first node and value are removed; every other list is unchanged |
| List.Arena.Back | list.h:135-145 | `back()` of a non-empty list is its last value |
| List.Arena.PushBack | list.h:147-151 | one new node holding `v` is placed last; every other list is unchanged |
| List.Arena.PopBack | list.h:153-157 | the last node and value are removed; every other list is unchanged |
| List.Arena.PushBackPopBack | list.h:147-157 | `push_back` then `pop_back` restores every list's nodes and values |
| List.Arena.PushFrontPopFront | list.h:123-133 | `push_front` then `pop_front` restores every list's nodes and values |
| List.Arena.Begin | list.h:159-169 | `begin()` is the cursor at position 0 of the list |
| List.Arena.End | list.h:171-181 | `end()` is the cursor at position `size`, the sentinel |
| List.Arena.Clear | list.h:207-211 | the list becomes empty; every other list is unchanged |
| List.Arena.Insert | list.h:213-221 | a new node holding `v` is linked just before `pos`; the returned cursor stands on it at `pos`'s old position, and `pos` moves one place on; every other list is unchanged |
| ListState.InsertOk | list.h:213-221 | the four link writes of `insert` keep the arena invariant and insert the value at position `k` |
| Rings.InsertBefore | list.h:213-221 | linking a new node before the node at `k` of a closed ring gives the closed ring with the node inserted at `k` |
| List.Arena.Erase | list.h:223-233 | the node at `pos` is unlinked and its slot becomes `Free`, no other slot changing; its value leaves the list; the returned cursor is its former successor, now at `pos`'s position |
| ListState.EraseOk | list.h:223-233 | the two link writes of `erase` keep the arena invariant and remove the value at position `k` |
| Rings.RemoveAt | list.h:223-233 | unlinking the node at `k` of a closed ring of two or more nodes leaves the closed ring without it |
| List.Arena.EraseRange | list.h:235-242 | the nodes from `first` up to `last` are removed, and `last` is returned; every other list is unchanged |
| List.Arena.EraseNext | list.h:238-239 | one turn of the loop: the gap opened at `first`'s position widens by one and `last` moves one position down |
| List.Arena.Splice | list.h:244-257 | the run [first, last) moves to just before `pos`, within one list or from another; no node is created or freed; an empty run or `pos == last` changes nothing; otherwise the links are exactly those of the two rotations |
| List.Arena.Relink | list.h:247-256 | the six field writes of the two `triswap` rotations produce `SpliceAsWritten` |
| AsWritten.SpliceAsWritten | list.h:244-257 | the links `splice` produces as written form a well-formed link table over the same nodes, whatever its arguments |
| ListState.SpliceWithinOk | list.h:244-257 | a splice within one list, with a non-empty run and `pos` neither inside the run nor equal to `last`, keeps the arena invariant and moves the run and its values |
| ListState.SpliceAcrossOk | list.h:244-257 | a splice of a non-empty run between two lists keeps the arena invariant; the run's nodes and values leave the source list and enter the destination before `pos` |
| AsWritten.SpliceAsWrittenWithin | list.h:244-257 | within one list, with a non-empty run and `pos` neither inside the run nor equal to `last`, the code as written closes the reordered ring |
| AsWritten.SpliceAsWrittenAcross | list.h:244-257 | between two lists, with a non-empty run, the code as written closes both rings: the destination with the run inserted and the source without it |
| Rings.MoveRunPermutes | list.h:244-257 | moving a run within one list keeps the multiset of its elements |
| Rings.MoveRunBetween | list.h:244-257 | moving a run from one list into another neither loses nor duplicates an element: the two lists together keep their multiset |
| Rings.SwapAdjacent | list.h:255-256 | the three-link rotation exchanges two adjacent pieces of one ring |
| Rings.SplitMerge | list.h:255-256 | the three-link rotation across two rings moves a piece from one to the other and keeps both closed |
| List.Arena.FrontAfterPush | list.h:111-127 | calling `push_front(v)` leaves a valid arena in which `front()` is `v` |
| List.Arena.BackAfterPush | list.h:135-151 | calling `push_back(v)` leaves a valid arena in which `back()` is `v` |
| List.Equal | list.h:296-299 | two cursors compare equal exactly when they are the same cursor |
| List.Arena.EqualPosition | list.h:296-299 | two cursors of one list are equal exactly when they stand at the same position |
| List.Arena.Deref | list.h:322-327 | `*it` is the value at the cursor's position |
| List.Arena.SetValue | list.h:322-327 | writing `v` through the reference `*it` (and so through `front()` or `back()`) replaces the value at the cursor's position and nothing else; no link changes, and `*it` then reads `v` |
| ListState.SetOk | list.h:322-327 | storing a value in one value node keeps the arena invariant and changes only that value of its list |
| List.Arena.Increment | list.h:336-341 | `++it` moves to the next position, wrapping from the sentinel to position 0 |
| List.Arena.Decrement | list.h:352-357 | `--it` moves to the previous position, wrapping from position 0 to the sentinel |
| List.Arena.DecrementIncrement | list.h:336-357 | `--` undoes `++` on every cursor of an intact list |
| List.Arena.IncrementDecrement | list.h:336-357 | `++` undoes `--` on every cursor of an intact list |
| Rings.Step | list.h:336-341 | following `next` from index `k` of a closed ring reaches index `k + 1`, wrapping round |
| AsWritten.SwapAsWrittenEmptyCounterexample | list.h:52-63 | swapping a one-element list with an empty one, as written, leaves neither list intact |
| AsWritten.SpliceAsWrittenEmptyRangeCounterexample | list.h:244-257 | splicing an empty range, as written, changes links and joins two lists into one circle |
| AsWritten.SpliceAsWrittenPosIsLastCounterexample | list.h:244-257 | splicing a run to just before its own `last`, as written, breaks the ring's `prev` links |

## Left out

- `rbegin`/`rend`, the `const_iterator` overloads, the converting iterator
  constructor, `operator->`, `operator!=` and the post-increment and
  post-decrement operators are not modelled. They only wrap or negate the
  modelled operations.
- The allocation of nodes cannot fail here. `new` and `delete` become an
  append to the arena and a `Free` slot; freed nodes are never reused.
- The class has no destructor, so a list object's nodes are never freed when
  it ends. `List.Arena.Dispose` frees only the sentinel of an object that
  holds nothing; `operator=` uses it on its cleared parameter.
- Cursors carry no list. Each operation on a cursor takes the list `l` as an
  extra argument, which the C++ code gets from the node alone.
- `splice` ignores its `other` parameter; the model's `o` names that list
  only for the ghost bookkeeping.
- `++` and `--` move the cursor in place. A cursor is only its node, so the
  model returns the moved cursor as a new value. The missing `return *this`
  (list.h:338-341, 354-357) is undefined behaviour in C++; the model returns
  the moved cursor there as well.
- `T` is an arbitrary Dafny type. Copying a value is assignment, and the
  copy constructor and destructor of `T` are not modelled.
- List.Arena.Splice: the precondition requires `pos` to lie outside the run
  when splicing within one list. The C++ code does not check this; as for
  `std::list::splice`, only such a `pos` is a meaningful argument.
- List.Arena.Assign: models `operator=` with the corrected `swap`. The
  as-written `swap` fails when either list is empty; see Findings.

## Findings

| source | as written | input that shows it | evidently intended | confidence | as-written member | corrected member |
|---|---|---|---|---|---|---|
| list.h:52-63 | `swap` exchanges the sentinels' fields and then points the new neighbours back, even when a list is empty | a list holding one value swapped with an empty list: the first sentinel gets the empty sentinel's self-links, and the fix-up links the two sentinels to each other, losing the value | an empty list's sentinel ends up linked to itself, and the lists exchange their contents | not executed | AsWritten.SwapAsWrittenEmptyCounterexample | List.Arena.Swap |
| list.h:244-257 | `splice` rotates the six links even when `first == last` | splicing the whole of an empty list (`first == last ==` its sentinel) before `end()` of a one-value list: the two sentinels end up on one circle | an empty range changes nothing | not executed | AsWritten.SpliceAsWrittenEmptyRangeCounterexample | List.Arena.Splice |
| list.h:244-257 | `splice` rotates the six links even when `pos == last` | splicing [begin, end) of a one-value list to before its `end()`: the sentinel's and the value node's `prev` point at themselves | moving a run to where it already stands changes nothing | not executed | AsWritten.SpliceAsWrittenPosIsLastCounterexample | List.Arena.Splice |
