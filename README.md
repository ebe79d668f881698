# Doubly-linked list

This project models the generic doubly-linked list `LinkedList<T>` of
`src/data_structures/linked_list.rs`. A list holds three fields: a
`length` counter, a handle `start` to the first node and a handle `end`
to the last. Each `Node<T>` holds a value `val` and optional links
`next` and `prev`. The operations are:

- `new`, the empty list;
- `add`, which appends at the tail;
- `remove(index)`, which walks `index` links from the head, splices that
  node out and returns its value;
- `get(index)` and its recursive helper `get_ith_node`;
- the two `Display` impls, which render the values head to tail,
  separated by `", "`.

The model is in `linked_list.dfy`, in module `LinkedLists`:

- Both `Node` and `LinkedList` are Dafny classes with the source's
  fields. `add` and `remove` are methods that update those fields in place.
- Two ghost sequences give each list its meaning. `Nodes` is the chain of
  nodes from head to tail and `Contents` is their values.
- `Valid()` is the representation invariant:
  - `length` equals the number of nodes;
  - the nodes are distinct objects;
  - `start` and `end` are the first and last node, or both absent when
    the list is empty;
  - every `next` link points to the following node and every `prev` link
    to the preceding one.
- `get`, `get_ith_node` and the two `Display` impls are functions that
  recurse over the real `next` links, as the source does. Their contracts
  tie them to `Contents`.
- The rendering is compared with `Join`, an independent reference
  rendering that builds the text from the tail end.

`wrappers.dfy` holds the `Option` type that `get` and `remove` return.
`linked_list_tests.dfy` restates the source's four unit tests and the edge
cases of `remove` as client methods. Their assertions follow from the
contracts alone.

A negative index is not rejected. For `remove`, the loop over `0..index`
(line 61) runs zero times, so the head is removed and returned; the model
follows this (`Target(index)` is the position that is walked to). `get`
never reaches `0` by decrementing a negative index, so it runs off the tail
and returns `None`.

## Model

| member | source | states |
|---|---|---|
| LinkedLists.Node.constructor | src/data_structures/linked_list.rs:10-17 | a new node holds the given value and has no `next` and no `prev` |
| LinkedLists.LinkedList.constructor | src/data_structures/linked_list.rs:27-33 | the new list is valid, with empty contents, `length` 0, and `start` and `end` absent |
| LinkedLists.LinkedList.Add | src/data_structures/linked_list.rs:35-52 | keeps the invariant; contents become the old contents followed by `obj` and `length` goes up by one; the new tail is a fresh node holding `obj` with no successor; on an empty list it is both head and tail, otherwise it is the old tail's `next`, its `prev` is the old tail, and the head is unchanged |
| LinkedLists.LinkedList.Link | src/data_structures/linked_list.rs:39-51 | the relinking of `add` extends the chain from `start` by the new node, which becomes `end`; it links the node to the old tail in both directions, or makes it the head of an empty list |
| LinkedLists.LinkedList.Remove | src/data_structures/linked_list.rs:54-93 | keeps the invariant. When the walked-to position (`index`, or 0 when `index` is negative) is inside the list, it returns the value there, the contents lose exactly that element and `length` drops by one. Otherwise, including on an empty list, it returns `None` and changes nothing. Removing the sole node leaves `start` and `end` absent |
| LinkedLists.LinkedList.Unlink | src/data_structures/linked_list.rs:68-91 | removing the node at position `k` keeps the invariant and deletes position `k` from both the node chain and the contents; it drops that node from the footprint and decrements `length` |
| LinkedLists.LinkedList.Relink | src/data_structures/linked_list.rs:68-89 | after the four-way splice (interior, tail, head, sole node) the remaining nodes form a chain from `start` to `end` that skips the removed node, and `length` is one less |
| LinkedLists.LinkedList.Get | src/data_structures/linked_list.rs:95-97 | returns `Some(contents[index])` exactly when `0 <= index < length`, and `None` otherwise (a negative index, or one at or past the tail); it reads the list without changing it |
| LinkedLists.LinkedList.GetIthNode | src/data_structures/linked_list.rs:99-109 | from the node at position `pos` (absent past the tail), returns the value `index` positions further on when that is inside the list, and `None` otherwise |
| LinkedLists.LinkedList.ToString | src/data_structures/linked_list.rs:112-124 | the list's rendering is the empty text for an empty list and otherwise equals the reference rendering `Join` of its contents |
| LinkedLists.LinkedList.RenderFrom | src/data_structures/linked_list.rs:126-138 | the rendering of the node at position `pos` is the reference rendering of the contents from `pos` to the tail |
| LinkedLists.JoinCons | src/data_structures/linked_list.rs:133 | prefixing one value to a non-empty sequence prefixes its text and `", "` to the reference rendering, so the head-first recursion of `Display for Node` and the reference agree |
| LinkedLists.JoinSnoc | src/data_structures/linked_list.rs:133-134 | appending a value adds exactly one separated item to the rendering, or gives that item alone after an empty sequence |
| LinkedLists.ChainAppend | src/data_structures/linked_list.rs:39-49 | a chain whose last node points forward to a new node, which points back to it and forward to nothing, extends to a chain ending at the new node |
| LinkedLists.ChainDelete | src/data_structures/linked_list.rs:70-87 | when the neighbours of position `k` point past it to each other and the ends are updated as the splice does, the remaining nodes form a chain holding the remaining values |
| LinkedLists.DeleteAt | src/data_structures/linked_list.rs:68-91 | deleting position `k` shortens a sequence by one and shifts later elements down by one |
| LinkedLists.DeleteDistinct | src/data_structures/linked_list.rs:91 | after deleting a node from a repetition-free chain, the rest has no repetitions and no longer contains the removed node |
| LinkedLists.NextInChain | src/data_structures/linked_list.rs:6 | a valid list's node has a successor that is again one of its nodes, or none |
| LinkedLists.PrevInChain | src/data_structures/linked_list.rs:7 | a valid list's node has a predecessor that is again one of its nodes, or none |
| LinkedLists.FollowFrom | src/data_structures/linked_list.rs:61-66 | following `next` `k` times from position `p` reaches position `p + k`, or nothing past the tail |
| LinkedLists.FollowBackFrom | src/data_structures/linked_list.rs:7 | following `prev` `k` times from position `p` reaches position `p - k`, or nothing before the head |
| LinkedLists.ForwardTraversal | src/data_structures/linked_list.rs:20-24 | walking `next` from `start` meets a node at each of the first `length` steps and reaches the absent link after exactly `length` steps: the counter agrees with reachability |
| LinkedLists.BackwardTraversal | src/data_structures/linked_list.rs:20-24 | walking `prev` from `end` meets the nodes in reverse order and reaches the absent link after exactly `length` steps |
| LinkedLists.LinkSymmetry | src/data_structures/linked_list.rs:4-8 | for two nodes of a valid list, `m.next == n` holds exactly when `n.prev == m` |
| LinkedLists.EndsAgree | src/data_structures/linked_list.rs:20-24 | `start` is absent exactly when `end` is, exactly when `length` is 0; the head has no `prev` and the tail no `next` |
| LinkedListTests.RenderABC | src/data_structures/linked_list.rs:155-161 | the list "A", "B", "C" renders as `A, B, C` |

## Left out

- Heap allocation through `Box::new`, `Box::into_raw` and `NonNull` (lines 36 and 42) is not modelled. Nodes are Dafny objects created by `new`.
- Freeing through `Box::from_raw` (line 91) is not modelled, because Dafny has no manual deallocation. The removed node leaves the list's footprint and its value is returned.
- There is no `Drop` impl in the source, so there is no teardown to model.
- The `u32` width of `length` (line 21) is not modelled; it is a `nat`. The `u32` overflow of `length + 1` at line 51 therefore does not arise.
- The `i32` width of `index` is not modelled; it is an `int`. The overflow of `index - 1` at line 105, when a negative index is within `length - 1` of `i32::MIN` (a panic under debug overflow checks, a wrap in release builds), is not modelled; the model returns `None` for such an index.
- The `Formatter` and `write!` plumbing of the `Display` impls is not modelled. The rendering returns a `string`, and the caller supplies the element rendering (`T: Display`) as the `show` function.
- LinkedLists.LinkedList.Get: returns the value rather than a reference with the `'a` lifetime. The source takes `&mut self` but never writes, so the model is a read-only function.
- The `println!` calls in the unit tests are not modelled. The `assert_eq!` checks appear as assertions in `linked_list_tests.dfy`.
- The source's `unsafe` pointer dereferences in `add` and `remove` are modelled as ordinary field reads. The model can do this because `Valid()` guarantees that every reachable pointer refers to a live node of the list.
