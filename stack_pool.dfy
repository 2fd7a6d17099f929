/** The pool object: the node vector and the free-list head as fields updated in
    place, its operations as methods proved against the functions of ArenaModel,
    and the forward iterator that walks one stack. */
module StackPools {
  import opened ArenaModel

  class StackPool<T> {
    /** The pool vector; slot `h - 1` holds the node of handle `h`. */
    var nodes: seq<Node<T>>
    /** Head of the free list, threaded through the same `next` fields. */
    var freeNodes: nat

    /** The pool as a value. */
    function Abs(): Arena<T>
      reads this
    {
      Arena(nodes, freeNodes)
    }

    ghost predicate Valid()
      reads this
    {
      ArenaModel.Valid(Abs())
    }

    /** The default constructor: no nodes and an empty free list. */
    constructor ()
      ensures Valid() && nodes == [] && freeNodes == End()
    {
      nodes := [];
      freeNodes := End();
    }

    /** The capacity-hint constructor: the reservation creates no nodes. */
    constructor Reserved(n: nat)
      ensures Valid() && nodes == [] && freeNodes == End()
    {
      nodes := [];
      freeNodes := End();
    }

    /** `value(x)`, reading node `x` through `node(x)`, i.e. `pool[x - 1]`. */
    function Value(x: nat): (v: T)
      reads this
      requires 1 <= x <= |nodes|
      ensures v == nodes[x - 1].value
    {
      nodes[x - 1].value
    }

    /** `next(x)`, read through `node(x)`. */
    function Next(x: nat): (n: nat)
      reads this
      requires Valid() && 1 <= x <= |nodes|
      ensures n == nodes[x - 1].next && n <= |nodes|
    {
      nodes[x - 1].next
    }

    /** A write through the reference `value(x)` returns. */
    method SetValue(x: nat, v: T)
      requires Valid() && 1 <= x <= |nodes|
      modifies this
      ensures Valid() && freeNodes == old(freeNodes)
      ensures nodes == old(nodes)[x - 1 := Node(v, old(nodes[x - 1].next))]
    {
      nodes := nodes[x - 1 := nodes[x - 1].(value := v)];
    }

    /** A write through the reference `next(x)` returns; `n` must be the end
        sentinel or a handle of this pool. */
    method SetNext(x: nat, n: nat)
      requires Valid() && 1 <= x <= |nodes| && n <= |nodes|
      modifies this
      ensures Valid() && freeNodes == old(freeNodes)
      ensures nodes == old(nodes)[x - 1 := Node(old(nodes[x - 1].value), n)]
    {
      nodes := nodes[x - 1 := nodes[x - 1].(next := n)];
    }

    /** `push` (through `_push`): reuse the free-list head if there is one,
        otherwise append a node; return the new head. */
    method Push(v: T, head: nat) returns (r: nat)
      requires Valid() && head <= |nodes|
      modifies this
      ensures Valid()
      ensures r == ArenaModel.Push(old(Abs()), v, head).handle
      ensures Abs() == ArenaModel.Push(old(Abs()), v, head).arena
      ensures !Empty(r) && 1 <= r <= |nodes| && Value(r) == v && Next(r) == head
    {
      if Empty(freeNodes) {
        nodes := nodes + [Node(v, head)];
        r := |nodes|;
      } else {
        r := freeNodes;
        freeNodes := Next(freeNodes);
        SetValue(r, v);
        SetNext(r, head);
      }
    }

    /** `pop`: unlink node `x` from its stack and push it on the free list;
        return the stack's new head. */
    method Pop(x: nat) returns (r: nat)
      requires Valid() && 1 <= x <= |nodes|
      modifies this
      ensures Valid()
      ensures r == ArenaModel.Pop(old(Abs()), x).handle
      ensures Abs() == ArenaModel.Pop(old(Abs()), x).arena
    {
      r := Next(x);
      SetNext(x, freeNodes);
      freeNodes := x;
    }

    /** `move_head`: relink the head of `s1` in front of `s2` and return the new
        head of `s1`. The C++ also assigns `s1` to its by-value parameter `s2`,
        which the caller never sees; Dafny parameters are immutable, so that
        dead store has no counterpart here. */
    method MoveHead(s1: nat, s2: nat) returns (r: nat)
      requires Valid() && 1 <= s1 <= |nodes| && s2 <= |nodes|
      modifies this
      ensures Valid()
      ensures r == ArenaModel.MoveHead(old(Abs()), s1, s2).handle
      ensures Abs() == ArenaModel.MoveHead(old(Abs()), s1, s2).arena
    {
      r := Next(s1);
      SetNext(s1, s2);
    }

    /** `free_stack`: pop until the stack is empty. It terminates because the
        stack is the acyclic chain `hs`, and it always returns the end sentinel. */
    method FreeStack(x: nat, ghost hs: seq<nat>) returns (r: nat)
      requires Valid() && IsChain(nodes, x, hs)
      modifies this
      ensures Valid() && r == End()
      ensures Abs() == ArenaModel.FreeStack(old(Abs()), hs)
    {
      ghost var rest := hs;
      r := x;
      while !Empty(r)
        invariant Valid() && IsChain(nodes, r, rest)
        invariant ArenaModel.FreeStack(Abs(), rest) == ArenaModel.FreeStack(old(Abs()), hs)
        decreases |rest|
      {
        PopUnlinks(Abs(), r, rest);
        r := Pop(r);
        rest := rest[1..];
      }
    }

    /** `begin(x)`: an iterator positioned at the head of stack `x`. */
    method Begin(x: nat) returns (it: Iterator<T>)
      ensures fresh(it) && it.pool == this && it.node == x
    {
      it := new Iterator(this, x);
    }

    /** `end(x)`: the iterator past the last node of any stack. */
    method EndOf(x: nat) returns (it: Iterator<T>)
      ensures fresh(it) && it.pool == this && it.node == End()
    {
      it := new Iterator(this, End());
    }
  }

  /** `_iterator`: a handle into a pool, advanced along `next`. */
  class Iterator<T> {
    const pool: StackPool<T>
    var node: nat

    constructor (p: StackPool<T>, n: nat)
      ensures pool == p && node == n
    {
      pool := p;
      node := n;
    }

    /** `operator*`: the value at the current node. */
    function Get(): (v: T)
      reads this, pool
      requires 1 <= node <= |pool.nodes|
      ensures v == pool.nodes[node - 1].value
    {
      pool.Value(node)
    }

    /** Pre-increment `operator++`: move to the next node of the stack. */
    method Advance()
      requires pool.Valid() && 1 <= node <= |pool.nodes|
      modifies this
      ensures node == pool.nodes[old(node) - 1].next
    {
      node := pool.Next(node);
    }

    /** `operator==`: iterators at the same handle are equal, whatever pool they
        walk, and an iterator equals `end` exactly when it has run off its stack. */
    predicate Equals(other: Iterator<T>)
      reads this, other
      ensures node == other.node ==> Equals(other)
      ensures Empty(other.node) ==> (Equals(other) <==> Empty(node))
    {
      node == other.node
    }

    /** `operator!=`: compared with `end`, it holds exactly while the iterator is
        still on a node, which is what stops a traversal loop. */
    predicate NotEquals(other: Iterator<T>)
      reads this, other
      ensures Empty(other.node) ==> (NotEquals(other) <==> !Empty(node))
      ensures NotEquals(other) ==> node != other.node
    {
      !Equals(other)
    }
  }

  /** Iterators over the same pool compare equal exactly when the rest of their
      traversals visit the same nodes; in particular every exhausted iterator
      equals `end`, whichever stack it walked. */
  lemma IteratorEquality<T>(p: StackPool<T>, it1: Iterator<T>, it2: Iterator<T>, hs1: seq<nat>, hs2: seq<nat>)
    requires it1.pool == p && it2.pool == p
    requires IsChain(p.nodes, it1.node, hs1) && IsChain(p.nodes, it2.node, hs2)
    ensures it1.Equals(it2) <==> hs1 == hs2
  {
    ChainHeads(p.nodes, it1.node, it2.node, hs1, hs2);
  }

  /** The usual loop over one stack, `for (it = begin(x); it != end(x); ++it)`,
      collecting `*it`: it yields the stack's values from the head down. */
  method Traverse<T>(p: StackPool<T>, x: nat, ghost hs: seq<nat>) returns (vs: seq<T>)
    requires p.Valid() && IsChain(p.nodes, x, hs)
    ensures vs == Values(p.nodes, hs)
  {
    var it := p.Begin(x);
    var last := p.EndOf(x);
    ghost var i := 0;
    vs := [];
    while it.NotEquals(last)
      invariant it.pool == p && last.node == End() && it != last
      invariant i <= |hs| && IsChain(p.nodes, it.node, hs[i..])
      invariant vs + Values(p.nodes, hs[i..]) == Values(p.nodes, hs)
      decreases |hs| - i
    {
      assert hs[i..][1..] == hs[i + 1..];
      vs := vs + [it.Get()];
      it.Advance();
      i := i + 1;
    }
    assert hs[i..] == [];
  }

  /** Two pushes, a traversal, two pops and a push on a fresh pool: the stack
      reads newest first, the first pop exposes the older node with its value in
      place, and the last push reuses the most recently freed node instead of
      growing the pool. */
  method Scenario() returns (h1: nat, h2: nat, order: seq<int>, popped: nat, top: int, emptied: nat,
                             reused: nat, size: nat)
    ensures h1 == 1 && h2 == 2 && order == [2, 1]
    ensures popped == h1 && top == 1 && emptied == End()
    ensures reused == h1 && size == 2
  {
    var p := new StackPool<int>();
    h1 := p.Push(1, NewStack());
    h2 := p.Push(2, h1);
    assert IsChain(p.nodes, 0, []);
    assert IsChain(p.nodes, 1, [1]);
    assert IsChain(p.nodes, 2, [2, 1]);
    order := Traverse(p, h2, [2, 1]);
    popped := p.Pop(h2);
    top := p.Value(popped);
    emptied := p.Pop(popped);
    reused := p.Push(3, emptied);
    size := |p.nodes|;
  }
}
