# stack_pool in Dafny

A model of `stack_pool` from `exam/stack_pool.hpp`: one growable vector of
`(value, next)` nodes that holds many singly-linked stacks at once. A stack is
named by the handle of its head node. Handles are 1-based positions in the
vector, and handle 0 is the end sentinel shared by every stack. Nodes released
by `pop` and `free_stack` are not deallocated. They are threaded onto a free
list through the same `next` fields, and `push` reuses them before it grows
the vector.

The project has two modules:

- `ArenaModel` (`arena_model.dfy`) is the pool as a value. The datatype
  `Arena` holds the node sequence and the free-list head. `push`, `pop`,
  `move_head` and `free_stack` are functions over it. A stack is described by
  the handles met when following `next` from its head down to 0
  (`IsChain(nodes, h, hs)`). Such a list exists exactly when the chain is
  acyclic and ends at 0. The lemmas say what each operation does to a stack,
  to its values and to the free list.
- `StackPools` (`stack_pool.dfy`) is the object as the C++ has it. The class
  `StackPool` has the fields `nodes` and `freeNodes`, which its methods update
  in place. `SetValue` and `SetNext` are the writes the C++ makes through the
  references returned by `value(x)` and `next(x)`. Each method is proved to
  leave `Abs()` equal to the matching `ArenaModel` function of the old state.
  `free_stack` keeps its `while` loop. The class `Iterator` is `_iterator`: a
  pool and a current handle, with `operator*`, pre-increment, `==` and `!=`.
  `Traverse` is the standard `begin`/`!=`/`++` loop over one stack.

`ArenaModel.Valid` is the pool invariant: the free-list head and every stored
`next` is 0 or a handle of the pool. Callers must respect the C++ contract:
they pass only handles of this pool, they do not create cycles, and no node
is on two stacks at once or on a stack and the free list. The model states
these as preconditions: a handle range on each operation, and `IsChain` and
`Disjoint` on the lemmas.

## Model

| member | source | states |
|---|---|---|
| `ArenaModel.End` | exam/stack_pool.hpp:131 | the end sentinel is below 1, so it never names a node |
| `ArenaModel.NewStack` | exam/stack_pool.hpp:134 | a new stack is empty |
| `ArenaModel.Empty` | exam/stack_pool.hpp:144 | a stack is empty exactly when its head names no node |
| `ArenaModel.EmptyStacks` | exam/stack_pool.hpp:131-144 | `new_stack()` is empty; a handle is empty exactly when it is the end sentinel 0 |
| `ArenaModel.Push` | exam/stack_pool.hpp:88-105 | returns a non-zero handle whose node is `(v, head)`. With an empty free list it appends exactly one node, returns the new size and leaves the free list empty. Otherwise it returns the old free-list head, advances the free list to that node's old `next`, keeps the pool size, and changes no other node |
| `ArenaModel.Pop` | exam/stack_pool.hpp:171-176 | returns the old `next(x)`, sets `next(x)` to the old free-list head, makes `x` the free-list head, keeps `x`'s value and the pool size, and changes no other node |
| `ArenaModel.MoveHead` | exam/stack_pool.hpp:165-170 | returns the old `next(s1)` and sets `next(s1) := s2`; the free list, the pool size and every other node are unchanged |
| `ArenaModel.FreeStack` | exam/stack_pool.hpp:178-185 | freeing the stack whose handles are `hs` keeps the pool size and every value. It changes only nodes of `hs`, and the last node of `hs` becomes the free-list head |
| `ArenaModel.ChainDistinct` | exam/stack_pool.hpp:178-185 | a chain that reaches the end sentinel visits no node twice |
| `ArenaModel.ChainHeads` | exam/stack_pool.hpp:46 | two chains of one pool start at the same handle exactly when they visit the same handles |
| `ArenaModel.PushFreeList` | exam/stack_pool.hpp:92-103 | with a non-empty free list, push returns its head, leaves the rest of the free list intact and keeps the pool size. With an empty free list it appends exactly one node and the free list stays empty |
| `ArenaModel.PushStep` | exam/stack_pool.hpp:88-105 | pushing onto a stack disjoint from the free list puts the new handle in front of that stack; the stack stays acyclic and disjoint from the free list |
| `ArenaModel.PushValues` | exam/stack_pool.hpp:88-105 | after a push, the stack reads `v` followed by its old values |
| `ArenaModel.PushAllLifo` | exam/stack_pool.hpp:157-159 | LIFO: pushing `v1..vk` onto a stack yields a stack whose values are `vk..v1` followed by the old ones, still disjoint from the free list |
| `ArenaModel.PushAllGrowth` | exam/stack_pool.hpp:92-103 | after a run of `k` pushes, the free list is what remains of the old one once its first `min(k, |free list|)` nodes are gone. The pool has grown by exactly `max(0, k - |free list|)` nodes |
| `ArenaModel.PushAllHandles` | exam/stack_pool.hpp:92-103 | in a run of pushes, push number `i` (from 0) returns the `i`-th free-list node while the free list lasts. Only after that does a push append, and the appended handles run on from the old pool size in order |
| `ArenaModel.PopStep` | exam/stack_pool.hpp:171-176 | popping a non-empty stack moves exactly its head node to the front of the free list. The rest of the stack is intact with the same values, and it stays disjoint from the free list |
| `ArenaModel.PopUnlinks` | exam/stack_pool.hpp:181-183 | one round of the `free_stack` loop leaves the rest of the stack as an intact chain, and that rest is what remains to be freed |
| `ArenaModel.FreeStackFreeList` | exam/stack_pool.hpp:178-185 | after `free_stack`, every node of the stack is on the free list, in reverse order, ahead of the old free list |
| `ArenaModel.MoveHeadStep` | exam/stack_pool.hpp:165-170 | `s1` loses its head node, and the rest of `s1` keeps its nodes and values. The old `s1` handle is now the head of `s2`'s new chain, which reads `s1`'s old top value and then `s2`'s values. The free list is untouched. If the two stacks and the free list were pairwise disjoint, the rest of `s1`, the new `s2` chain and the free list still are |
| `ArenaModel.PushFrame` | exam/stack_pool.hpp:88-105 | a push onto one stack leaves any other stack that is disjoint from it and from the free list with the same chain and values. That stack stays off the new free list and off the pushed stack |
| `ArenaModel.PopFrame` | exam/stack_pool.hpp:171-176 | a pop from one stack leaves any other stack that is disjoint from it and from the free list with the same chain and values, and that stack stays off the new free list |
| `ArenaModel.FreeStackFrame` | exam/stack_pool.hpp:178-185 | freeing one stack leaves any other stack that is disjoint from it and from the free list with the same chain and values, and that stack stays off the grown free list |
| `ArenaModel.MoveHeadFrame` | exam/stack_pool.hpp:165-170 | moving the head of `s1` leaves any third stack disjoint from `s1` with the same chain and values |
| `ArenaModel.PopThenPushReuses` | exam/stack_pool.hpp:98-103 | a push right after a pop returns the popped handle, does not grow the pool and restores the free-list head |
| `StackPools.StackPool.constructor` | exam/stack_pool.hpp:109 | a new pool has no nodes and an empty free list |
| `StackPools.StackPool.Reserved` | exam/stack_pool.hpp:111-114 | the capacity-hint constructor also starts with no nodes and an empty free list |
| `StackPools.StackPool.Value` | exam/stack_pool.hpp:147 | `value(x)` reads the node in slot `x - 1` (`node(x)` at line 81) |
| `StackPools.StackPool.Next` | exam/stack_pool.hpp:152 | `next(x)` reads the link of slot `x - 1`, which is 0 or a handle of the pool |
| `StackPools.StackPool.SetValue` | exam/stack_pool.hpp:101 | writing through `value(x)` changes only that node's value |
| `StackPools.StackPool.SetNext` | exam/stack_pool.hpp:102 | writing through `next(x)` changes only that node's link |
| `StackPools.StackPool.Push` | exam/stack_pool.hpp:88-105 | the in-place push leaves the state `ArenaModel.Push` describes, and `value(r) == v`, `next(r) == head`, `r != 0` |
| `StackPools.StackPool.Pop` | exam/stack_pool.hpp:171-176 | the in-place pop leaves the state and returns the handle `ArenaModel.Pop` describes |
| `StackPools.StackPool.MoveHead` | exam/stack_pool.hpp:165-170 | the in-place move_head leaves the state and returns the handle `ArenaModel.MoveHead` describes |
| `StackPools.StackPool.FreeStack` | exam/stack_pool.hpp:178-185 | the loop terminates on an acyclic stack, returns 0 and leaves the state `ArenaModel.FreeStack` describes |
| `StackPools.StackPool.Begin` | exam/stack_pool.hpp:121 | `begin(x)` is a new iterator over this pool at handle `x` |
| `StackPools.StackPool.EndOf` | exam/stack_pool.hpp:122 | `end(x)` is a new iterator over this pool at handle 0, whatever `x` is |
| `StackPools.Iterator.constructor` | exam/stack_pool.hpp:27 | an iterator holds its pool and its current handle |
| `StackPools.Iterator.Get` | exam/stack_pool.hpp:30 | `*it` is the value at the iterator's current handle |
| `StackPools.Iterator.Advance` | exam/stack_pool.hpp:33-36 | `++it` moves to the current node's `next` |
| `StackPools.Iterator.Equals` | exam/stack_pool.hpp:46 | iterators at the same handle are equal, even over different pools, since only handles are compared. An iterator equals an exhausted one exactly when it is exhausted too |
| `StackPools.Iterator.NotEquals` | exam/stack_pool.hpp:49 | compared with an exhausted iterator such as `end(x)`, `!=` holds exactly while the iterator is still on a node; unequal iterators stand at different handles |
| `StackPools.IteratorEquality` | exam/stack_pool.hpp:46-49 | two iterators over one pool are equal exactly when their remaining traversals visit the same nodes; every exhausted iterator equals `end` |
| `StackPools.Traverse` | exam/stack_pool.hpp:30-49 | walking from `begin(x)` with `*` and `++` until `end(x)` yields exactly the stack's values from the head down |
| `StackPools.Scenario` | exam/stack_pool.hpp:157-176 | on a new pool: push 1 then 2 gives handles 1 and 2, and traversal reads `[2, 1]`. The first pop returns handle 1 as the new head, still holding 1, and a second pop empties the stack. A push of 3 then reuses handle 1, and the pool keeps its size of 2 |

## Left out

- `reserve` and `capacity` (lines 138, 141) pass through to `std::vector`, and the capacity they report is implementation-defined. The model has the pool length instead. `StackPools.StackPool.Reserved` ignores its argument because reserving creates no nodes.
- `StackPools.Iterator.Get` only reads. `operator*` returns `T&`, and a write `*it = v` through it is the write `StackPools.StackPool.SetValue(it.node, v)` models.
- Post-increment `operator++(int)` (lines 39-43) returns a reference to a local temporary, so it is not modelled.
- `const_iterator`, the const `begin`/`end`/`cbegin`/`cend` overloads and the const `value`/`next` overloads (lines 83, 119, 124-128, 149, 154) are left out. The const ones only repeat the non-const ones, and the `const_iterator` ones could not be instantiated as written.
- The copy/move distinction between the two `push` overloads (lines 157-159), `std::forward`, `noexcept` and the iterator trait typedefs have no counterpart.
- Handles are unbounded `nat`. With a handle type `N` narrower than `size_t`, `stack_type(pool.size())` at line 94 would wrap; that truncation is not modelled.
- Vector reallocation on growth is not modelled. Handles are positions and stay valid. An iterator here holds the pool object, not raw storage.
- `ArenaModel.Push`: requires `head` to be 0 or a handle of the pool. The C++ accepts any value and stores it unchecked, but an out-of-range head would break the invariant that every stored link names a node. The same holds for `s2` in `ArenaModel.MoveHead` and for the link written by `StackPools.StackPool.SetNext`.
- `ArenaModel.Pop`: requires `1 <= x <= |nodes|`. `pop(0)` or an out-of-range handle indexes outside the vector in the C++ (undefined behaviour), and nothing checks it. The same precondition is on `value`, `next` and `move_head`'s `s1`.
- A node freed twice, or a cycle made through `next(x)`, is not detected by the C++. The lemmas instead require the stack to be an acyclic chain (`IsChain`) and disjoint from the free list (`Disjoint`). `StackPools.StackPool.FreeStack` takes the chain of handles as a ghost argument.
- A stack whose links loop back into themselves (1 -> 2 -> 1) is not an `IsChain` stack. `free_stack` on it still stops in the C++, because each pop rewrites the link it follows, but it leaves a cyclic free list behind. The model does not describe that case.
- `move_head` returns only the new head of `s1`, and the caller must know that the new head of `s2` is the old `s1`. The model follows the code as written and does not return both heads. `ArenaModel.MoveHeadStep` proves that convention.
