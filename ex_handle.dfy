/** The reference-counted expression handle `ex` of ginac/ex.h.  Expression
    nodes live in an arena that maps each live node to its reference
    count; a handle holds the id of one node.  Constructing, copying,
    destroying and assigning handles adjust the counts, and a node is
    deleted (leaves the arena) when its count reaches zero. */
module ExHandles {

  type NodeId = nat

  /** Reference counts of the live nodes. */
  type Counts = map<NodeId, nat>

  /** `++bp->refcount`. */
  function Inc(rc: Counts, n: NodeId): (r: Counts)
    requires n in rc
    ensures r.Keys == rc.Keys
  {
    rc[n := rc[n] + 1]
  }

  /** `if (--bp->refcount == 0) delete bp;`: the node leaves the arena when
      its count drops to zero. */
  function Dec(rc: Counts, n: NodeId): (r: Counts)
    requires n in rc
    ensures r.Keys <= rc.Keys
  {
    if rc[n] <= 1 then rc - {n} else rc[n := rc[n] - 1]
  }

  /** `operator=` from a handle on `from` to one on `to`: the new target is
      incremented before the old one is decremented. */
  function Assigned(rc: Counts, from: NodeId, to: NodeId): (r: Counts)
    requires from in rc && to in rc
  {
    Dec(Inc(rc, to), from)
  }

  /** The counts that a collection of handles, given by the multiset of the
      nodes they point to, induces. */
  function CountsOf(targets: multiset<NodeId>): (r: Counts)
    ensures forall n :: n in r <==> n in targets
  {
    map n | n in targets :: targets[n]
  }

  /** A new handle on a node that has one: one more count on that node. */
  lemma IncCounts(targets: multiset<NodeId>, n: NodeId)
    requires n in targets
    ensures Inc(CountsOf(targets), n) == CountsOf(targets + multiset{n})
  {
    var t := targets + multiset{n};
    assert forall m :: m in t <==> m in targets;
    assert forall m :: m in t ==> t[m] == targets[m] + (if m == n then 1 else 0);
  }

  /** A handle gone: one count less, and the node deleted exactly when no
      handle points to it any more. */
  lemma DecCounts(targets: multiset<NodeId>, n: NodeId)
    requires n in targets
    ensures Dec(CountsOf(targets), n) == CountsOf(targets - multiset{n})
    ensures n in Dec(CountsOf(targets), n) <==> targets[n] > 1
  {
    var t := targets - multiset{n};
    assert forall m :: m != n ==> t[m] == targets[m];
    assert t[n] == targets[n] - 1;
    assert forall m :: m in t <==> m in targets && (m != n || targets[n] > 1);
  }

  /** Assignment moves one handle from `from` to `to`: the counts stay those
      of the handles, self-assignment included. */
  lemma AssignedCounts(targets: multiset<NodeId>, from: NodeId, to: NodeId)
    requires from in targets && to in targets
    ensures Assigned(CountsOf(targets), from, to) == CountsOf(targets + multiset{to} - multiset{from})
  {
    IncCounts(targets, to);
    DecCounts(targets + multiset{to}, from);
  }

  /** Self-assignment changes no count and frees nothing; decrementing
      first instead would delete a node whose only handle is assigned to
      itself. */
  lemma SelfAssignment(rc: Counts, n: NodeId)
    requires n in rc && rc[n] >= 1
    ensures Assigned(rc, n, n) == rc
    ensures rc[n] == 1 ==> n !in Dec(rc, n)
  {
    assert Assigned(rc, n, n) == rc by {
      assert Inc(rc, n)[n] == rc[n] + 1 >= 2;
      assert Dec(Inc(rc, n), n) == Inc(rc, n)[n := rc[n]];
    }
  }

  /** Assignment touches only the two nodes involved, and deletes the old
      target exactly when the handle was its last and it differs from the
      new target. */
  lemma AssignedTouchesTwo(rc: Counts, from: NodeId, to: NodeId)
    requires from in rc && to in rc && forall n :: n in rc ==> rc[n] >= 1
    ensures var r := Assigned(rc, from, to);
      (forall m :: m in rc && m != from && m != to ==> m in r && r[m] == rc[m])
      && to in r && r[to] == (if from == to then rc[to] else rc[to] + 1)
      && (from !in r <==> from != to && rc[from] == 1)
  {
  }

  /** The handles of `holder` that point to `n`. */
  ghost function HoldersOf<H>(holder: map<H, NodeId>, n: NodeId): set<H>
  {
    set h | h in holder && holder[h] == n
  }

  /** The counts are those of the handles: each handle points to a live
      node, and each live node's count is the number of handles on it,
      which is at least one. */
  ghost predicate CountsMatch<H>(holder: map<H, NodeId>, rc: Counts)
  {
    && (forall h :: h in holder ==> holder[h] in rc)
    && (forall n :: n in rc ==> rc[n] == |HoldersOf(holder, n)| && rc[n] >= 1)
  }

  /** The two formulations agree: with `targets` the multiset of the nodes
      the handles of `holder` point to, the counts match the handles exactly
      when they are the counts `CountsOf(targets)`. */
  lemma CountsMatchIsCountsOf<H>(holder: map<H, NodeId>, rc: Counts, targets: multiset<NodeId>)
    requires forall n :: targets[n] == |HoldersOf(holder, n)|
    ensures CountsMatch(holder, rc) <==> rc == CountsOf(targets)
  {
    forall h | h in holder
      ensures holder[h] in targets
    {
      assert h in HoldersOf(holder, holder[h]);
    }
    forall n | n in targets
      ensures exists h :: h in holder && holder[h] == n
    {
      var h :| h in HoldersOf(holder, n);
    }
    if CountsMatch(holder, rc) {
      forall n | n in rc
        ensures n in targets
      {
        assert targets[n] >= 1;
      }
    }
  }

  /** A new handle on a live node keeps the counts matching. */
  lemma AddHandle<H>(holder: map<H, NodeId>, rc: Counts, h: H, n: NodeId)
    requires CountsMatch(holder, rc) && h !in holder && n in rc
    ensures CountsMatch(holder[h := n], Inc(rc, n))
  {
    var holder', rc' := holder[h := n], Inc(rc, n);
    forall k | k in rc'
      ensures rc'[k] == |HoldersOf(holder', k)| && rc'[k] >= 1
    {
      HoldersAfterAdd(holder, h, n, k);
    }
  }

  /** The handles on `k` once the new handle `h` points to `n`. */
  lemma HoldersAfterAdd<H>(holder: map<H, NodeId>, h: H, n: NodeId, k: NodeId)
    requires h !in holder
    ensures |HoldersOf(holder[h := n], k)|
            == |HoldersOf(holder, k)| + (if k == n then 1 else 0)
  {
    if k == n {
      assert HoldersOf(holder[h := n], k) == HoldersOf(holder, k) + {h};
    } else {
      assert HoldersOf(holder[h := n], k) == HoldersOf(holder, k);
    }
  }

  /** Removing a handle, with the deletion of its node when it was the
      last, keeps the counts matching. */
  lemma RemoveHandle<H>(holder: map<H, NodeId>, rc: Counts, h: H)
    requires CountsMatch(holder, rc) && h in holder
    ensures CountsMatch(holder - {h}, Dec(rc, holder[h]))
  {
    var n := holder[h];
    var holder', rc' := holder - {h}, Dec(rc, n);
    assert h in HoldersOf(holder, n);
    if rc[n] == 1 {
      forall g | g in HoldersOf(holder, n)
        ensures g == h
      {
        if g != h {
          assert {g, h} <= HoldersOf(holder, n);
          assert |{g, h}| == 2;
          SubsetSize({g, h}, HoldersOf(holder, n));
        }
      }
      forall g | g in holder'
        ensures holder'[g] != n
      {
        assert holder[g] == n ==> g in HoldersOf(holder, n);
      }
    }
    forall k | k in rc'
      ensures rc'[k] == |HoldersOf(holder', k)|
    {
      if k == n {
        assert HoldersOf(holder', k) == HoldersOf(holder, k) - {h};
      } else {
        assert HoldersOf(holder', k) == HoldersOf(holder, k);
      }
    }
  }

  lemma SubsetSize<H>(a: set<H>, b: set<H>)
    requires a <= b
    ensures |a| <= |b|
  {
    assert b == a + (b - a);
  }

  /** Pointing a handle at another live node, incrementing the new node
      before decrementing the old one, keeps the counts matching. */
  lemma MoveHandle<H>(holder: map<H, NodeId>, rc: Counts, h: H, n: NodeId)
    requires CountsMatch(holder, rc) && h in holder && n in rc
    ensures CountsMatch(holder[h := n], Assigned(rc, holder[h], n))
  {
    var m := holder[h];
    if m == n {
      SelfAssignment(rc, n);
      assert holder[h := n] == holder;
    } else {
      RemoveHandle(holder, rc, h);
      AddHandle(holder - {h}, Dec(rc, m), h, n);
      assert (holder - {h})[h := n] == holder[h := n];
      assert Inc(Dec(rc, m), n) == Dec(Inc(rc, n), m);
    }
  }

  /** The arena of expression nodes, with the node that the static handle
      `exZERO()` holds on to. */
  class Arena {
    var refcount: Counts
    /** The live handles and the node each points to. */
    ghost var holder: map<Ex, NodeId>
    /** The handle returned by `exZERO()`. */
    const zeroHandle: Ex
    /** The node of the number zero. */
    const zero: NodeId

    /** Every live node's count is the number of handles pointing to it,
      which is at least one; every handle points to a live node; the zero
      handle holds the zero node. */
    ghost predicate Valid()
      reads this, holder.Keys
    {
      && zeroHandle in holder && holder[zeroHandle] == zero
      && (forall h :: h in holder ==> h.bp == holder[h])
      && CountsMatch(holder, refcount)
    }

    /** An arena holding only the zero node and its static handle. */
    constructor (z: NodeId)
      ensures Valid() && zero == z && refcount == map[z := 1] && holder.Keys == {zeroHandle}
      ensures fresh(zeroHandle)
    {
      zero := z;
      var h := new Ex.Detached(z);
      zeroHandle := h;
      new;
      refcount := map[z := 1];
      holder := map[h := z];
      assert HoldersOf(holder, z) == {h};
    }
  }

  class Ex {
    /** The node the handle points to. */
    var bp: NodeId

    /** A handle not yet registered with an arena; only the arena builds one,
      for its zero handle. */
    constructor Detached(n: NodeId)
      ensures bp == n
    {
      bp := n;
    }

    /** `ex()`: a handle on the zero node, which gains one count. */
    constructor Default(a: Arena)
      requires a.Valid()
      modifies a
      ensures a.Valid() && bp == a.zero
      ensures a.holder == old(a.holder)[this := a.zero]
      ensures a.refcount == Inc(old(a.refcount), a.zero)
    {
      bp := a.zero;
      new;
      AddHandle(a.holder, a.refcount, this, a.zero);
      a.refcount := Inc(a.refcount, a.zero);
      a.holder := a.holder[this := a.zero];
    }

    /** `ex(other)`: shares the node of `other`, which gains one count. */
    constructor Copy(a: Arena, other: Ex)
      requires a.Valid() && other in a.holder
      modifies a
      ensures a.Valid() && bp == other.bp
      ensures a.holder == old(a.holder)[this := other.bp]
      ensures a.refcount == Inc(old(a.refcount), other.bp)
    {
      bp := other.bp;
      new;
      AddHandle(a.holder, a.refcount, this, bp);
      a.refcount := Inc(a.refcount, bp);
      a.holder := a.holder[this := bp];
    }

    /** `~ex()`: the node loses one count and is deleted when none is left.
      The static zero handle is never destroyed. */
    method Destroy(a: Arena)
      requires a.Valid() && this in a.holder && this != a.zeroHandle
      modifies a
      ensures a.Valid() && a.holder == old(a.holder) - {this}
      ensures a.refcount == Dec(old(a.refcount), bp)
      ensures bp !in a.refcount <==> old(a.refcount)[bp] == 1
    {
      RemoveHandle(a.holder, a.refcount, this);
      a.refcount := Dec(a.refcount, bp);
      a.holder := a.holder - {this};
    }

    /** `operator=`: increments the node of `other`, then decrements (and
      possibly deletes) the old node, then points at the new one.  The
      static zero handle is const and never assigned to. */
    method Assign(a: Arena, other: Ex)
      requires a.Valid() && this in a.holder && other in a.holder && this != a.zeroHandle
      modifies this, a
      ensures a.Valid() && a.holder == old(a.holder)[this := old(other.bp)]
      ensures bp == old(other.bp)
      ensures a.refcount == Assigned(old(a.refcount), old(bp), old(other.bp))
    {
      var target := other.bp;
      MoveHandle(a.holder, a.refcount, this, target);
      a.refcount := Inc(a.refcount, target);
      a.refcount := Dec(a.refcount, bp);
      bp := target;
      a.holder := a.holder[this := target];
    }

    /** `compare`: zero for two handles on one node, without consulting the
      node; otherwise the node order `cmp` (`basic::compare`). */
    function Compare(other: Ex, cmp: (NodeId, NodeId) -> int): (r: int)
      reads this, other
      ensures bp == other.bp ==> r == 0
      ensures bp != other.bp ==> r == cmp(bp, other.bp)
    {
      if bp == other.bp then 0 else cmp(bp, other.bp)
    }

    /** `is_equal`: true for two handles on one node; otherwise the node
      equality `eq` (`basic::is_equal`). */
    function IsEqual(other: Ex, eq: (NodeId, NodeId) -> bool): (r: bool)
      reads this, other
      ensures bp == other.bp ==> r
      ensures bp != other.bp ==> r == eq(bp, other.bp)
    {
      bp == other.bp || eq(bp, other.bp)
    }

    /** `is_zero`: compares equal to the zero handle. */
    function IsZero(a: Arena, cmp: (NodeId, NodeId) -> int): (r: bool)
      reads this, a, a.zeroHandle
      ensures r <==> Compare(a.zeroHandle, cmp) == 0
      ensures bp == a.zeroHandle.bp ==> r
    {
      Compare(a.zeroHandle, cmp) == 0
    }
  }

  /** The shortcut is sound whenever the node order is reflexive: the result
      is the one the node order gives. */
  lemma ShortcutAgrees(x: Ex, y: Ex, cmp: (NodeId, NodeId) -> int, eq: (NodeId, NodeId) -> bool)
    requires forall n :: cmp(n, n) == 0 && eq(n, n)
    ensures x.Compare(y, cmp) == cmp(x.bp, y.bp)
    ensures x.IsEqual(y, eq) == eq(x.bp, y.bp)
  {
  }
}
