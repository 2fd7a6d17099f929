/** The state of a stack pool as a value: the node vector and the head of the
    free list, with the pool's operations as functions over it and the facts
    about the stacks threaded through the vector.

    A handle is a 1-based index into `nodes`; handle 0 is the end sentinel and
    never names a node. A stack is described by the list of handles met when
    following `next` from its head until 0 (`IsChain`). */
module ArenaModel {

  datatype Node<T> = Node(value: T, next: nat)

  /** `nodes` is the pool vector, `free` the head of the free list. */
  datatype Arena<T> = Arena(nodes: seq<Node<T>>, free: nat)

  /** What push, pop and move_head produce: the new pool and the handle they return. */
  datatype Updated<T> = Updated(arena: Arena<T>, handle: nat)

  /* ---------- The pure members of stack_pool ---------- */

  /** The end sentinel, shared by every stack. Handles start at 1, so it never
      names a node. */
  function End(): (e: nat)
    ensures e < 1
  {
    0
  }

  /** A new stack is the empty one. */
  function NewStack(): (s: nat)
    ensures Empty(s)
  {
    End()
  }

  /** A stack is empty exactly when its head names no node. */
  function Empty(h: nat): (b: bool)
    ensures b <==> h < 1
  {
    h == End()
  }

  lemma EmptyStacks()
    ensures Empty(NewStack())
    ensures forall h: nat :: Empty(h) <==> h == 0
  {
  }

  /* ---------- Well-formedness ---------- */

  predicate IsHandle<T>(a: Arena<T>, h: nat)
  {
    1 <= h <= |a.nodes|
  }

  /** Every handle stored in the pool, including the free-list head, is the end
      sentinel or names a node. Keeping it is the caller's obligation for the
      handles it passes in. */
  ghost predicate Valid<T>(a: Arena<T>)
  {
    a.free <= |a.nodes| &&
    forall i :: 0 <= i < |a.nodes| ==> a.nodes[i].next <= |a.nodes|
  }

  /* ---------- Chains: stacks as lists of handles ---------- */

  /** Following `next` from `h` visits the handles `hs` in order and then reaches 0.
      A stack (or the free list) is acyclic exactly when such an `hs` exists. */
  ghost predicate IsChain<T>(nodes: seq<Node<T>>, h: nat, hs: seq<nat>)
    ensures IsChain(nodes, h, hs) ==> InRange(nodes, hs)
    decreases |hs|
  {
    if hs == [] then h == 0
    else h == hs[0] && 1 <= h <= |nodes| && IsChain(nodes, nodes[h - 1].next, hs[1..])
  }

  /** Every handle in `hs` names a node. */
  ghost predicate InRange<T>(nodes: seq<Node<T>>, hs: seq<nat>)
  {
    forall i :: 0 <= i < |hs| ==> 1 <= hs[i] <= |nodes|
  }

  /** The values stored at the handles `hs`, in order. */
  ghost function Values<T>(nodes: seq<Node<T>>, hs: seq<nat>): (vs: seq<T>)
    requires InRange(nodes, hs)
    ensures |vs| == |hs|
    decreases |hs|
  {
    if hs == [] then [] else [nodes[hs[0] - 1].value] + Values(nodes, hs[1..])
  }

  ghost function Reverse<X>(s: seq<X>): (r: seq<X>)
    decreases |s|
  {
    if s == [] then [] else Reverse(s[1..]) + [s[0]]
  }

  /** One step of `Reverse`, stated with a tail appended; kept as a lemma so the
      sequence equality stays out of the induction proofs that use it. */
  lemma ReverseStep<X>(s: seq<X>, t: seq<X>)
    requires s != []
    ensures Reverse(s) + t == Reverse(s[1..]) + ([s[0]] + t)
  {
    assert Reverse(s) == Reverse(s[1..]) + [s[0]];
  }

  ghost predicate Disjoint(xs: seq<nat>, ys: seq<nat>)
  {
    forall k :: k in xs ==> k !in ys
  }

  ghost predicate Distinct(hs: seq<nat>)
  {
    forall i, j :: 0 <= i < j < |hs| ==> hs[i] != hs[j]
  }

  /** The handles of a chain are determined by its head. */
  lemma {:induction false} ChainUnique<T>(nodes: seq<Node<T>>, h: nat, hs1: seq<nat>, hs2: seq<nat>)
    requires IsChain(nodes, h, hs1) && IsChain(nodes, h, hs2)
    ensures hs1 == hs2
    decreases |hs1|
  {
    if hs1 != [] && hs2 != [] {
      ChainUnique(nodes, nodes[h - 1].next, hs1[1..], hs2[1..]);
    }
  }

  /** Two chains in the same pool have the same head exactly when they visit
      the same handles. */
  lemma ChainHeads<T>(nodes: seq<Node<T>>, h1: nat, h2: nat, hs1: seq<nat>, hs2: seq<nat>)
    requires IsChain(nodes, h1, hs1) && IsChain(nodes, h2, hs2)
    ensures h1 == h2 <==> hs1 == hs2
  {
    if h1 == h2 {
      ChainUnique(nodes, h1, hs1, hs2);
    }
  }

  /** Every suffix of a chain is the chain of the handle it starts at. */
  lemma {:induction false} ChainSuffix<T>(nodes: seq<Node<T>>, h: nat, hs: seq<nat>, i: nat)
    requires IsChain(nodes, h, hs) && i <= |hs|
    ensures IsChain(nodes, if i == |hs| then 0 else hs[i], hs[i..])
    decreases i
  {
    if i > 0 {
      ChainSuffix(nodes, nodes[h - 1].next, hs[1..], i - 1);
      assert hs[1..][i - 1..] == hs[i..];
    }
  }

  /** A chain that reaches 0 never visits a node twice: reaching 0 rules out a cycle. */
  lemma ChainDistinct<T>(nodes: seq<Node<T>>, h: nat, hs: seq<nat>)
    requires IsChain(nodes, h, hs)
    ensures Distinct(hs)
  {
    forall i, j | 0 <= i < j < |hs| ensures hs[i] != hs[j] {
      if hs[i] == hs[j] {
        ChainSuffix(nodes, h, hs, i);
        ChainSuffix(nodes, h, hs, j);
        ChainUnique(nodes, hs[i], hs[i..], hs[j..]);
        assert false;
      }
    }
  }

  /** A chain survives any change to the nodes it does not visit, including growth. */
  lemma {:induction false} ChainAgree<T>(nodes: seq<Node<T>>, nodes': seq<Node<T>>, h: nat, hs: seq<nat>)
    requires IsChain(nodes, h, hs)
    requires forall i :: 0 <= i < |hs| ==> hs[i] <= |nodes'| && nodes'[hs[i] - 1] == nodes[hs[i] - 1]
    ensures IsChain(nodes', h, hs)
    decreases |hs|
  {
    if hs != [] {
      ChainAgree(nodes, nodes', nodes[h - 1].next, hs[1..]);
    }
  }

  lemma {:induction false} ValuesAgree<T>(nodes: seq<Node<T>>, nodes': seq<Node<T>>, hs: seq<nat>)
    requires InRange(nodes, hs)
    requires forall i :: 0 <= i < |hs| ==> hs[i] <= |nodes'| && nodes'[hs[i] - 1].value == nodes[hs[i] - 1].value
    ensures InRange(nodes', hs) && Values(nodes', hs) == Values(nodes, hs)
    decreases |hs|
  {
    if hs != [] {
      ValuesAgree(nodes, nodes', hs[1..]);
    }
  }

  lemma ValuesCons<T>(nodes: seq<Node<T>>, h: nat, hs: seq<nat>, v: T, rest: seq<T>)
    requires 1 <= h <= |nodes| && InRange(nodes, hs)
    requires nodes[h - 1].value == v && Values(nodes, hs) == rest
    ensures InRange(nodes, [h] + hs)
    ensures Values(nodes, [h] + hs) == [v] + rest
  {
    assert ([h] + hs)[1..] == hs;
  }

  /** Rewriting one node off the chain changes neither the chain nor its values. */
  lemma ChainUpdate<T>(nodes: seq<Node<T>>, h: nat, hs: seq<nat>, p: nat, n: Node<T>)
    requires IsChain(nodes, h, hs) && 1 <= p <= |nodes| && p !in hs
    ensures IsChain(nodes[p - 1 := n], h, hs)
    ensures Values(nodes[p - 1 := n], hs) == Values(nodes, hs)
  {
    ChainAgree(nodes, nodes[p - 1 := n], h, hs);
    ValuesAgree(nodes, nodes[p - 1 := n], hs);
  }

  /** The head of a chain is the end sentinel or names a node. */
  lemma ChainHead<T>(nodes: seq<Node<T>>, h: nat, hs: seq<nat>)
    requires IsChain(nodes, h, hs)
    ensures h <= |nodes|
  {
  }

  /** The head of a chain does not occur again further down. */
  lemma ChainHeadFresh<T>(nodes: seq<Node<T>>, h: nat, hs: seq<nat>)
    requires IsChain(nodes, h, hs) && hs != []
    ensures hs[0] !in hs[1..]
  {
    ChainDistinct(nodes, h, hs);
    forall j | 0 <= j < |hs| - 1 ensures hs[1..][j] != hs[0] {
      assert hs[1..][j] == hs[j + 1];
    }
  }

  /* ---------- The pool operations ---------- */

  /** `push`: take the head of the free list if there is one, else append a node. */
  function Push<T>(a: Arena<T>, v: T, head: nat): (u: Updated<T>)
    requires Valid(a) && head <= |a.nodes|
    ensures Valid(u.arena)
    ensures !Empty(u.handle) && IsHandle(u.arena, u.handle)
    ensures u.arena.nodes[u.handle - 1] == Node(v, head)
    ensures Empty(a.free) ==>
              |u.arena.nodes| == |a.nodes| + 1 && u.arena.nodes[..|a.nodes|] == a.nodes &&
              u.handle == |u.arena.nodes| && Empty(u.arena.free)
    ensures !Empty(a.free) ==>
              u.handle == a.free && u.arena.free == a.nodes[a.free - 1].next &&
              |u.arena.nodes| == |a.nodes| &&
              forall i :: 0 <= i < |a.nodes| && i != a.free - 1 ==> u.arena.nodes[i] == a.nodes[i]
  {
    if Empty(a.free) then
      Updated(Arena(a.nodes + [Node(v, head)], a.free), |a.nodes| + 1)
    else
      var h := a.free;
      Updated(Arena(a.nodes[h - 1 := Node(v, head)], a.nodes[h - 1].next), h)
  }

  /** `pop`: unlink the head node and put it on the free list. */
  function Pop<T>(a: Arena<T>, x: nat): (u: Updated<T>)
    requires Valid(a) && IsHandle(a, x)
    ensures Valid(u.arena)
    ensures u.handle == a.nodes[x - 1].next
    ensures u.arena.free == x && |u.arena.nodes| == |a.nodes|
    ensures u.arena.nodes[x - 1] == Node(a.nodes[x - 1].value, a.free)
    ensures forall i :: 0 <= i < |a.nodes| && i != x - 1 ==> u.arena.nodes[i] == a.nodes[i]
  {
    var n := a.nodes[x - 1];
    Updated(Arena(a.nodes[x - 1 := n.(next := a.free)], x), n.next)
  }

  /** `move_head`: relink the head of `s1` in front of `s2`. */
  function MoveHead<T>(a: Arena<T>, s1: nat, s2: nat): (u: Updated<T>)
    requires Valid(a) && IsHandle(a, s1) && s2 <= |a.nodes|
    ensures Valid(u.arena)
    ensures u.handle == a.nodes[s1 - 1].next
    ensures u.arena.free == a.free && |u.arena.nodes| == |a.nodes|
    ensures u.arena.nodes[s1 - 1] == Node(a.nodes[s1 - 1].value, s2)
    ensures forall i :: 0 <= i < |a.nodes| && i != s1 - 1 ==> u.arena.nodes[i] == a.nodes[i]
  {
    var n := a.nodes[s1 - 1];
    Updated(Arena(a.nodes[s1 - 1 := n.(next := s2)], a.free), n.next)
  }

  /** `free_stack` on the stack whose handles are `hs`: pop them one by one.
      Values are never cleared, only links change, and the last node freed
      becomes the free-list head. */
  function FreeStack<T>(a: Arena<T>, hs: seq<nat>): (r: Arena<T>)
    requires Valid(a) && InRange(a.nodes, hs)
    ensures Valid(r) && |r.nodes| == |a.nodes|
    ensures r.free == if hs == [] then a.free else hs[|hs| - 1]
    ensures forall i :: 0 <= i < |a.nodes| ==> r.nodes[i].value == a.nodes[i].value
    ensures forall i :: 0 <= i < |a.nodes| && i + 1 !in hs ==> r.nodes[i] == a.nodes[i]
    decreases |hs|
  {
    if hs == [] then a
    else
      FreeStack(Pop(a, hs[0]).arena, hs[1..])
  }

  /** `push` applied to `vs` in order, each onto the head the previous one returned. */
  function PushAll<T>(a: Arena<T>, vs: seq<T>, head: nat): (u: Updated<T>)
    requires Valid(a) && head <= |a.nodes|
    ensures Valid(u.arena) && u.handle <= |u.arena.nodes|
    decreases |vs|
  {
    if vs == [] then Updated(a, head)
    else
      var u1 := Push(a, vs[0], head);
      PushAll(u1.arena, vs[1..], u1.handle)
  }

  /* ---------- What the operations do to stacks and the free list ---------- */

  /** One push, seen from the free list: it takes the free-list head if there is
      one, leaving the rest of the free list intact and the pool the same size,
      and otherwise appends exactly one node. */
  lemma PushFreeList<T>(a: Arena<T>, v: T, head: nat, fs: seq<nat>) returns (fs': seq<nat>)
    requires Valid(a) && head <= |a.nodes| && IsChain(a.nodes, a.free, fs)
    ensures var u := Push(a, v, head);
      IsChain(u.arena.nodes, u.arena.free, fs') &&
      (fs == [] ==> fs' == [] && |u.arena.nodes| == |a.nodes| + 1) &&
      (fs != [] ==> fs' == fs[1..] && u.handle == fs[0] && |u.arena.nodes| == |a.nodes|)
  {
    if fs == [] {
      fs' := [];
    } else {
      fs' := fs[1..];
      ChainHeadFresh(a.nodes, a.free, fs);
      ChainUpdate(a.nodes, a.nodes[a.free - 1].next, fs', a.free, Node(v, head));
    }
  }

  /** One push onto a stack disjoint from the free list: the stack gains the new
      handle in front and stays disjoint from the free list. */
  lemma PushStep<T>(a: Arena<T>, v: T, head: nat, hs: seq<nat>, fs: seq<nat>) returns (fs': seq<nat>)
    requires Valid(a) && IsChain(a.nodes, head, hs) && IsChain(a.nodes, a.free, fs) && Disjoint(hs, fs)
    ensures head <= |a.nodes|
    ensures var u := Push(a, v, head);
      IsChain(u.arena.nodes, u.handle, [u.handle] + hs) &&
      IsChain(u.arena.nodes, u.arena.free, fs') && Disjoint([u.handle] + hs, fs')
  {
    ChainHead(a.nodes, head, hs);
    var u := Push(a, v, head);
    fs' := PushFreeList(a, v, head, fs);
    if fs == [] {
      ChainAgree(a.nodes, u.arena.nodes, head, hs);
    } else {
      ChainHeadFresh(a.nodes, a.free, fs);
      assert a.free in fs;
      ChainUpdate(a.nodes, head, hs, a.free, Node(v, head));
    }
    assert ([u.handle] + hs)[1..] == hs;
  }

  /** One push onto a stack disjoint from the free list puts `v` on top of the
      stack's values and leaves the values below it alone. */
  lemma PushValues<T>(a: Arena<T>, v: T, head: nat, hs: seq<nat>, fs: seq<nat>)
    requires Valid(a) && IsChain(a.nodes, head, hs) && IsChain(a.nodes, a.free, fs) && Disjoint(hs, fs)
    ensures head <= |a.nodes|
    ensures var u := Push(a, v, head);
      InRange(u.arena.nodes, [u.handle] + hs) &&
      Values(u.arena.nodes, [u.handle] + hs) == [v] + Values(a.nodes, hs)
  {
    ChainHead(a.nodes, head, hs);
    var u := Push(a, v, head);
    var nodes' := u.arena.nodes;
    if fs == [] {
      ValuesAgree(a.nodes, nodes', hs);
    } else {
      assert a.free in fs;
      ChainUpdate(a.nodes, head, hs, a.free, Node(v, head));
    }
    ValuesCons(nodes', u.handle, hs, v, Values(a.nodes, hs));
  }

  /** LIFO: pushing `vs` in order onto a stack yields a stack that reads `vs`
      backwards and then the old stack, still disjoint from the free list. */
  lemma {:induction false} PushAllLifo<T>(a: Arena<T>, vs: seq<T>, head: nat, hs: seq<nat>, fs: seq<nat>)
    returns (ns: seq<nat>, fs': seq<nat>)
    requires Valid(a) && IsChain(a.nodes, head, hs) && IsChain(a.nodes, a.free, fs) && Disjoint(hs, fs)
    ensures head <= |a.nodes|
    ensures var u := PushAll(a, vs, head);
      |ns| == |vs| &&
      IsChain(u.arena.nodes, u.handle, ns + hs) &&
      Values(u.arena.nodes, ns + hs) == Reverse(vs) + Values(a.nodes, hs) &&
      IsChain(u.arena.nodes, u.arena.free, fs') && Disjoint(ns + hs, fs')
    decreases |vs|
  {
    ChainHead(a.nodes, head, hs);
    if vs == [] {
      ns, fs' := [], fs;
      assert ns + hs == hs;
    } else {
      var u1 := Push(a, vs[0], head);
      var fs1 := PushStep(a, vs[0], head, hs, fs);
      PushValues(a, vs[0], head, hs, fs);
      var ns1;
      ns1, fs' := PushAllLifo(u1.arena, vs[1..], u1.handle, [u1.handle] + hs, fs1);
      ns := ns1 + [u1.handle];
      assert (ns1 + [u1.handle]) + hs == ns1 + ([u1.handle] + hs);
      assert PushAll(a, vs, head) == PushAll(u1.arena, vs[1..], u1.handle);
      ReverseStep(vs, Values(a.nodes, hs));
    }
  }

  /** Recycling: a run of pushes consumes the free list from its head, in order,
      and the pool grows only by the pushes the free list cannot serve. */
  lemma {:induction false} PushAllGrowth<T>(a: Arena<T>, vs: seq<T>, head: nat, fs: seq<nat>)
    requires Valid(a) && head <= |a.nodes| && IsChain(a.nodes, a.free, fs)
    ensures var u := PushAll(a, vs, head);
      IsChain(u.arena.nodes, u.arena.free, fs[if |vs| <= |fs| then |vs| else |fs|..]) &&
      |u.arena.nodes| == |a.nodes| + (if |vs| <= |fs| then 0 else |vs| - |fs|)
    decreases |vs|
  {
    if vs != [] {
      var u1 := Push(a, vs[0], head);
      var fs1 := PushFreeList(a, vs[0], head, fs);
      PushAllGrowth(u1.arena, vs[1..], u1.handle, fs1);
      assert PushAll(a, vs, head) == PushAll(u1.arena, vs[1..], u1.handle);
      if fs != [] {
        assert fs1[if |vs| - 1 <= |fs1| then |vs| - 1 else |fs1|..] ==
               fs[if |vs| <= |fs| then |vs| else |fs|..];
      }
    }
  }

  /** Recycling, push by push: in a run of pushes, the `i`-th push returns the
      `i`-th node of the free list while the free list lasts, and only after it
      is used up does it append, numbering new nodes from the old pool size on. */
  lemma {:induction false} PushAllHandles<T>(a: Arena<T>, vs: seq<T>, head: nat, fs: seq<nat>, i: nat)
    requires Valid(a) && head <= |a.nodes| && IsChain(a.nodes, a.free, fs) && i < |vs|
    ensures PushAll(a, vs[..i + 1], head).handle ==
              if i < |fs| then fs[i] else |a.nodes| + (i - |fs|) + 1
    decreases i
  {
    var u1 := Push(a, vs[0], head);
    var fs1 := PushFreeList(a, vs[0], head, fs);
    assert PushAll(a, vs[..i + 1], head) == PushAll(u1.arena, vs[..i + 1][1..], u1.handle);
    if i == 0 {
      assert vs[..1][1..] == [];
    } else {
      assert vs[..i + 1][1..] == vs[1..][..i];
      PushAllHandles(u1.arena, vs[1..], u1.handle, fs1, i - 1);
    }
  }

  /** `pop` on a non-empty stack disjoint from the free list moves exactly its
      head node from the stack to the front of the free list. */
  lemma PopStep<T>(a: Arena<T>, x: nat, hs: seq<nat>, fs: seq<nat>)
    requires Valid(a) && !Empty(x)
    requires IsChain(a.nodes, x, hs) && IsChain(a.nodes, a.free, fs) && Disjoint(hs, fs)
    ensures IsHandle(a, x) && hs != [] && hs[0] == x
    ensures var u := Pop(a, x);
      IsChain(u.arena.nodes, u.handle, hs[1..]) &&
      Values(u.arena.nodes, hs[1..]) == Values(a.nodes, hs[1..]) &&
      IsChain(u.arena.nodes, u.arena.free, [x] + fs) &&
      Disjoint(hs[1..], [x] + fs)
  {
    var n' := a.nodes[x - 1].(next := a.free);
    var nodes' := a.nodes[x - 1 := n'];
    assert Pop(a, x).arena.nodes == nodes';
    ChainHeadFresh(a.nodes, x, hs);
    assert x in hs;
    ChainUpdate(a.nodes, a.nodes[x - 1].next, hs[1..], x, n');
    assert IsChain(nodes', x, [x] + fs) by {
      ChainUpdate(a.nodes, a.free, fs, x, n');
      assert ([x] + fs)[1..] == fs;
    }
    assert Disjoint(hs[1..], [x] + fs) by {
      forall k | k in hs[1..] ensures k !in [x] + fs {
        assert k in hs;
      }
    }
  }

  /** One round of `free_stack`'s loop: popping the head of an acyclic stack
      leaves the rest of it intact, and the rest is what remains to be freed. */
  lemma PopUnlinks<T>(a: Arena<T>, x: nat, hs: seq<nat>)
    requires Valid(a) && !Empty(x) && IsChain(a.nodes, x, hs)
    ensures IsHandle(a, x) && hs != [] && hs[0] == x && InRange(a.nodes, hs)
    ensures IsChain(Pop(a, x).arena.nodes, Pop(a, x).handle, hs[1..])
    ensures FreeStack(a, hs) == FreeStack(Pop(a, x).arena, hs[1..])
  {
    ChainHeadFresh(a.nodes, x, hs);
    ChainUpdate(a.nodes, a.nodes[x - 1].next, hs[1..], x, a.nodes[x - 1].(next := a.free));
  }

  /** `free_stack` on a stack disjoint from the free list puts every node of the
      stack on the free list, in reverse order, in front of the old free list. */
  lemma {:induction false} FreeStackFreeList<T>(a: Arena<T>, x: nat, hs: seq<nat>, fs: seq<nat>)
    requires Valid(a) && IsChain(a.nodes, x, hs) && IsChain(a.nodes, a.free, fs) && Disjoint(hs, fs)
    ensures InRange(a.nodes, hs)
    ensures IsChain(FreeStack(a, hs).nodes, FreeStack(a, hs).free, Reverse(hs) + fs)
    decreases |hs|
  {
    if hs != [] {
      var u := Pop(a, x);
      assert x == hs[0] && Valid(u.arena) && IsChain(u.arena.nodes, u.handle, hs[1..]) &&
             IsChain(u.arena.nodes, u.arena.free, [x] + fs) && Disjoint(hs[1..], [x] + fs) by {
        PopStep(a, x, hs, fs);
      }
      var r := FreeStack(u.arena, hs[1..]);
      assert IsChain(r.nodes, r.free, Reverse(hs[1..]) + ([x] + fs)) by {
        FreeStackFreeList(u.arena, u.handle, hs[1..], [x] + fs);
      }
      assert FreeStack(a, hs) == r;
      ReverseStep(hs, fs);
    } else {
      assert Reverse(hs) + fs == fs;
    }
  }

  /** `move_head`: the head node of `s1` leaves `s1` and heads `s2`'s chain, so
      the second stack's new head is the old `s1`; the free list is untouched. */
  lemma MoveHeadStep<T>(a: Arena<T>, s1: nat, s2: nat, hs1: seq<nat>, hs2: seq<nat>, fs: seq<nat>)
    requires Valid(a) && !Empty(s1)
    requires IsChain(a.nodes, s1, hs1) && IsChain(a.nodes, s2, hs2) && IsChain(a.nodes, a.free, fs)
    requires Disjoint(hs1, hs2) && Disjoint(hs1, fs) && Disjoint(hs2, fs)
    ensures IsHandle(a, s1) && s2 <= |a.nodes| && hs1 != [] && hs1[0] == s1
    ensures var u := MoveHead(a, s1, s2);
      IsChain(u.arena.nodes, u.handle, hs1[1..]) &&
      Values(u.arena.nodes, hs1[1..]) == Values(a.nodes, hs1[1..]) &&
      IsChain(u.arena.nodes, s1, [s1] + hs2) &&
      Values(u.arena.nodes, [s1] + hs2) == [a.nodes[s1 - 1].value] + Values(a.nodes, hs2) &&
      IsChain(u.arena.nodes, u.arena.free, fs)
    ensures Disjoint(hs1[1..], [s1] + hs2) && Disjoint(hs1[1..], fs) && Disjoint([s1] + hs2, fs)
  {
    ChainHead(a.nodes, s2, hs2);
    var n' := a.nodes[s1 - 1].(next := s2);
    var nodes' := a.nodes[s1 - 1 := n'];
    assert MoveHead(a, s1, s2).arena.nodes == nodes';
    assert hs1[0] == s1 && s1 in hs1 && hs1[0] !in hs1[1..] by {
      ChainHeadFresh(a.nodes, s1, hs1);
    }
    assert IsChain(nodes', a.nodes[s1 - 1].next, hs1[1..]) &&
           Values(nodes', hs1[1..]) == Values(a.nodes, hs1[1..]) by {
      ChainUpdate(a.nodes, a.nodes[s1 - 1].next, hs1[1..], s1, n');
    }
    assert IsChain(nodes', a.free, fs) by {
      ChainUpdate(a.nodes, a.free, fs, s1, n');
    }
    assert IsChain(nodes', s1, [s1] + hs2) &&
           Values(nodes', [s1] + hs2) == [a.nodes[s1 - 1].value] + Values(a.nodes, hs2) by {
      ChainUpdate(a.nodes, s2, hs2, s1, n');
      assert ([s1] + hs2)[1..] == hs2;
      ValuesCons(nodes', s1, hs2, a.nodes[s1 - 1].value, Values(a.nodes, hs2));
    }
    assert Disjoint(hs1[1..], [s1] + hs2) && Disjoint(hs1[1..], fs) && Disjoint([s1] + hs2, fs) by {
      TailDisjoint(hs1, hs2, fs);
    }
  }

  /** Ownership after moving the head of `hs1` in front of `hs2`: the three lists
      stay pairwise disjoint. */
  lemma TailDisjoint(hs1: seq<nat>, hs2: seq<nat>, fs: seq<nat>)
    requires hs1 != [] && hs1[0] !in hs1[1..]
    requires Disjoint(hs1, hs2) && Disjoint(hs1, fs) && Disjoint(hs2, fs)
    ensures Disjoint(hs1[1..], [hs1[0]] + hs2) && Disjoint(hs1[1..], fs) && Disjoint([hs1[0]] + hs2, fs)
  {
    forall k | k in hs1[1..] ensures k !in [hs1[0]] + hs2 && k !in fs {
      assert k in hs1;
    }
    assert hs1[0] in hs1;
  }

  /* ---------- Stacks are independent: an operation on one leaves the others alone ---------- */

  /** `pop` on one stack leaves every other stack (disjoint from it and from the
      free list) with the same nodes and values, still off the free list. */
  lemma PopFrame<T>(a: Arena<T>, x: nat, hs: seq<nat>, fs: seq<nat>, h2: nat, hs2: seq<nat>)
    requires Valid(a) && !Empty(x) && IsChain(a.nodes, x, hs) && IsChain(a.nodes, a.free, fs)
    requires IsChain(a.nodes, h2, hs2) && Disjoint(hs2, hs) && Disjoint(hs2, fs)
    ensures IsHandle(a, x)
    ensures var u := Pop(a, x);
      IsChain(u.arena.nodes, h2, hs2) &&
      Values(u.arena.nodes, hs2) == Values(a.nodes, hs2) &&
      Disjoint(hs2, [x] + fs)
  {
    assert x in hs;
    ChainUpdate(a.nodes, h2, hs2, x, a.nodes[x - 1].(next := a.free));
  }

  /** `push` onto one stack leaves every other stack (disjoint from it and from
      the free list) with the same nodes and values, off the new free list and
      off the pushed stack. */
  lemma PushFrame<T>(a: Arena<T>, v: T, head: nat, hs: seq<nat>, fs: seq<nat>, h2: nat, hs2: seq<nat>)
    returns (fs': seq<nat>)
    requires Valid(a) && IsChain(a.nodes, head, hs) && IsChain(a.nodes, a.free, fs)
    requires IsChain(a.nodes, h2, hs2) && Disjoint(hs2, hs) && Disjoint(hs2, fs)
    ensures head <= |a.nodes|
    ensures var u := Push(a, v, head);
      IsChain(u.arena.nodes, u.arena.free, fs') &&
      IsChain(u.arena.nodes, h2, hs2) &&
      Values(u.arena.nodes, hs2) == Values(a.nodes, hs2) &&
      Disjoint(hs2, [u.handle] + hs) && Disjoint(hs2, fs')
  {
    ChainHead(a.nodes, head, hs);
    var u := Push(a, v, head);
    fs' := PushFreeList(a, v, head, fs);
    if fs == [] {
      ChainAgree(a.nodes, u.arena.nodes, h2, hs2);
      ValuesAgree(a.nodes, u.arena.nodes, hs2);
    } else {
      assert a.free in fs;
      ChainUpdate(a.nodes, h2, hs2, a.free, Node(v, head));
    }
  }

  /** `free_stack` on one stack leaves every other stack (disjoint from it and
      from the free list) with the same nodes and values, off the new free list. */
  lemma {:induction false} FreeStackFrame<T>(a: Arena<T>, x: nat, hs: seq<nat>, fs: seq<nat>, h2: nat, hs2: seq<nat>)
    requires Valid(a) && IsChain(a.nodes, x, hs) && IsChain(a.nodes, a.free, fs) && Disjoint(hs, fs)
    requires IsChain(a.nodes, h2, hs2) && Disjoint(hs2, hs) && Disjoint(hs2, fs)
    ensures InRange(a.nodes, hs)
    ensures var r := FreeStack(a, hs);
      IsChain(r.nodes, h2, hs2) &&
      Values(r.nodes, hs2) == Values(a.nodes, hs2) &&
      Disjoint(hs2, Reverse(hs) + fs)
    decreases |hs|
  {
    if hs != [] {
      var u := Pop(a, x);
      assert Valid(u.arena) && IsChain(u.arena.nodes, u.handle, hs[1..]) &&
             IsChain(u.arena.nodes, u.arena.free, [x] + fs) && Disjoint(hs[1..], [x] + fs) by {
        PopStep(a, x, hs, fs);
      }
      assert IsChain(u.arena.nodes, h2, hs2) && Values(u.arena.nodes, hs2) == Values(a.nodes, hs2) &&
             Disjoint(hs2, [x] + fs) by {
        PopFrame(a, x, hs, fs, h2, hs2);
      }
      assert Disjoint(hs2, hs[1..]);
      var r := FreeStack(u.arena, hs[1..]);
      assert IsChain(r.nodes, h2, hs2) && Values(r.nodes, hs2) == Values(u.arena.nodes, hs2) &&
             Disjoint(hs2, Reverse(hs[1..]) + ([x] + fs)) by {
        FreeStackFrame(u.arena, u.handle, hs[1..], [x] + fs, h2, hs2);
      }
      assert FreeStack(a, hs) == r;
      ReverseStep(hs, fs);
    } else {
      assert Reverse(hs) + fs == fs;
    }
  }

  /** `move_head` from one stack to a second leaves every third stack (disjoint
      from the first) with the same nodes and values. */
  lemma MoveHeadFrame<T>(a: Arena<T>, s1: nat, s2: nat, hs1: seq<nat>, h3: nat, hs3: seq<nat>)
    requires Valid(a) && !Empty(s1) && IsChain(a.nodes, s1, hs1) && s2 <= |a.nodes|
    requires IsChain(a.nodes, h3, hs3) && Disjoint(hs3, hs1)
    ensures IsHandle(a, s1)
    ensures var u := MoveHead(a, s1, s2);
      IsChain(u.arena.nodes, h3, hs3) && Values(u.arena.nodes, hs3) == Values(a.nodes, hs3)
  {
    assert s1 in hs1;
    ChainUpdate(a.nodes, h3, hs3, s1, a.nodes[s1 - 1].(next := s2));
  }

  /** Recycling: a push right after a pop reuses the popped node and allocates nothing. */
  lemma PopThenPushReuses<T>(a: Arena<T>, x: nat, v: T, head: nat)
    requires Valid(a) && IsHandle(a, x) && head <= |a.nodes|
    ensures var p := Pop(a, x).arena;
      var u := Push(p, v, head);
      u.handle == x && |u.arena.nodes| == |a.nodes| && u.arena.free == a.free
  {
  }
}
