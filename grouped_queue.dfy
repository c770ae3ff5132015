/** GroupedQueue: one FIFO sub-queue per group key, a registry of the group
    keys in the order their queues were created, and queue operations whose
    choice of sub-queue is left to a router. */
module Grouped {
  import opened Common

  /** The sub-queue of group `g`, or the empty sequence when `g` has none. */
  function QueueOf(m: map<string, seq<WorkItem>>, g: string): seq<WorkItem> {
    if g in m then m[g] else []
  }

  /** The sum of the lengths of the sub-queues of the listed groups. */
  function SumSizes(gs: seq<string>, m: map<string, seq<WorkItem>>): nat {
    if gs == [] then 0 else SumSizes(gs[..|gs| - 1], m) + |QueueOf(m, gs[|gs| - 1])|
  }

  /** Every item held by the sub-queues of the listed groups. */
  function Items(gs: seq<string>, m: map<string, seq<WorkItem>>): multiset<WorkItem> {
    if gs == [] then multiset{} else Items(gs[..|gs| - 1], m) + multiset(QueueOf(m, gs[|gs| - 1]))
  }

  /** What a tracked sub-queue reports as its oldest item time: the creation
      time of its head, or null when it is empty. */
  function OldestItemTime(q: seq<WorkItem>): Option<long> {
    if q == [] then None else Some(q[0].createdAt)
  }

  /** The oldest item times of the listed groups, in the order listed. */
  function HeadTimes(gs: seq<string>, m: map<string, seq<WorkItem>>): seq<Option<long>> {
    seq(|gs|, i requires 0 <= i < |gs| => OldestItemTime(QueueOf(m, gs[i])))
  }

  lemma {:induction false} SumSizesIsItemCount(gs: seq<string>, m: map<string, seq<WorkItem>>)
    ensures SumSizes(gs, m) == |Items(gs, m)|
  {
    if gs != [] {
      SumSizesIsItemCount(gs[..|gs| - 1], m);
    }
  }

  /** The total is zero exactly when every listed sub-queue is empty. */
  lemma {:induction false} SumSizesZero(gs: seq<string>, m: map<string, seq<WorkItem>>)
    ensures SumSizes(gs, m) == 0 <==> forall i :: 0 <= i < |gs| ==> QueueOf(m, gs[i]) == []
  {
    if gs != [] {
      var init := gs[..|gs| - 1];
      SumSizesZero(init, m);
      assert forall i :: 0 <= i < |init| ==> init[i] == gs[i];
    }
  }

  /** Changing the queue of a group that is not listed changes nothing. */
  lemma {:induction false} ItemsOtherGroup(gs: seq<string>, m: map<string, seq<WorkItem>>, g: string, q: seq<WorkItem>)
    requires g !in gs
    ensures Items(gs, m[g := q]) == Items(gs, m)
  {
    if gs != [] {
      ItemsOtherGroup(gs[..|gs| - 1], m, g, q);
    }
  }

  /** Replacing the queue of a listed group swaps that queue's items for the
      new queue's items and leaves the other groups' items alone. */
  lemma {:induction false} ItemsReplace(gs: seq<string>, m: map<string, seq<WorkItem>>, g: string, q: seq<WorkItem>)
    requires Distinct(gs) && g in gs
    ensures Items(gs, m[g := q]) + multiset(QueueOf(m, g)) == Items(gs, m) + multiset(q)
  {
    var init, last := gs[..|gs| - 1], gs[|gs| - 1];
    assert gs == init + [last];
    if last == g {
      assert g !in init;
      ItemsOtherGroup(init, m, g, q);
    } else {
      assert g in init;
      assert Distinct(init) by {
        forall i, j | 0 <= i < j < |init| ensures init[i] != init[j] {
          assert init[i] == gs[i] && init[j] == gs[j];
        }
      }
      ItemsReplace(init, m, g, q);
      var rest := multiset(QueueOf(m, last));
      assert QueueOf(m[g := q], last) == QueueOf(m, last);
      calc {
        Items(gs, m[g := q]) + multiset(QueueOf(m, g));
        Items(init, m[g := q]) + rest + multiset(QueueOf(m, g));
        (Items(init, m[g := q]) + multiset(QueueOf(m, g))) + rest;
        (Items(init, m) + multiset(q)) + rest;
        Items(init, m) + rest + multiset(q);
        Items(gs, m) + multiset(q);
      }
    }
  }

  /** Registering a group at the end of the list, with an empty queue,
      changes neither the items nor the total size. */
  lemma AppendEmptyGroup(gs: seq<string>, m: map<string, seq<WorkItem>>, g: string)
    requires g !in gs
    ensures Items(gs + [g], m[g := []]) == Items(gs, m)
    ensures SumSizes(gs + [g], m[g := []]) == SumSizes(gs, m)
  {
    assert (gs + [g])[..|gs|] == gs;
    ItemsOtherGroup(gs, m, g, []);
    SumSizesIsItemCount(gs + [g], m[g := []]);
    SumSizesIsItemCount(gs, m);
  }

  /** The shape invariant: each key registered once, the registry lists
      exactly the keys of the map, and every item sits in its group's queue. */
  ghost predicate WellFormed(gs: seq<string>, m: map<string, seq<WorkItem>>) {
    && Distinct(gs)
    && (forall g :: g in m <==> g in gs)
    && (forall g, x :: g in m && x in m[g] ==> x.group == g)
  }

  /** Giving an existing group a queue of its own items keeps the shape. */
  lemma WellFormedReplace(gs: seq<string>, m: map<string, seq<WorkItem>>, g: string, q: seq<WorkItem>)
    requires WellFormed(gs, m) && g in m
    requires forall x :: x in q ==> x.group == g
    ensures WellFormed(gs, m[g := q])
  {
  }

  /** Registering a new group with an empty queue keeps the shape. */
  lemma WellFormedAdd(gs: seq<string>, m: map<string, seq<WorkItem>>, g: string)
    requires WellFormed(gs, m) && g !in m
    ensures WellFormed(gs + [g], m[g := []])
  {
    forall h | h in gs + [g] ensures h in m[g := []] {
      if h != g { assert h in gs; }
    }
  }

  /** Every non-empty registered queue's head time appears among the head times. */
  lemma HeadTimesCover(gs: seq<string>, m: map<string, seq<WorkItem>>, g: string) returns (j: nat)
    requires WellFormed(gs, m) && g in m && m[g] != []
    ensures j < |gs| && gs[j] == g && HeadTimes(gs, m)[j] == Some(m[g][0].createdAt)
  {
    j :| 0 <= j < |gs| && gs[j] == g;
  }

  /** Every head time present is the head time of a non-empty registered queue. */
  lemma HeadTimesSound(gs: seq<string>, m: map<string, seq<WorkItem>>, j: nat)
    requires WellFormed(gs, m) && j < |gs| && HeadTimes(gs, m)[j].Some?
    ensures gs[j] in m && m[gs[j]] != [] && HeadTimes(gs, m)[j].value == m[gs[j]][0].createdAt
  {
  }

  /** The minimum over the head times stays at Long.MAX_VALUE exactly when no
      head is stamped below it; otherwise it is some head's time and no head is
      older. */
  lemma OldestHead(gs: seq<string>, m: map<string, seq<WorkItem>>)
    requires WellFormed(gs, m)
    ensures var t := MinPresent(HeadTimes(gs, m));
      && (t == LONG_MAX <==> forall g :: g in m && m[g] != [] ==> m[g][0].createdAt == LONG_MAX)
      && (t != LONG_MAX ==>
            && (exists g :: g in m && m[g] != [] && m[g][0].createdAt == t)
            && (forall g :: g in m && m[g] != [] ==> t <= m[g][0].createdAt))
  {
    var times := HeadTimes(gs, m);
    var t := MinPresent(times);
    forall g | g in m && m[g] != [] ensures t <= m[g][0].createdAt {
      var j := HeadTimesCover(gs, m, g);
    }
    if t != LONG_MAX {
      var j :| 0 <= j < |times| && times[j] == Some(t);
      HeadTimesSound(gs, m, j);
    } else {
      forall g | g in m && m[g] != [] ensures m[g][0].createdAt == LONG_MAX {
        var j := HeadTimesCover(gs, m, g);
      }
    }
  }

  /** When no head is stamped Long.MAX_VALUE, the minimum stays at
      Long.MAX_VALUE exactly when every queue is empty. */
  lemma OldestHeadAbsentIffEmpty(gs: seq<string>, m: map<string, seq<WorkItem>>)
    requires WellFormed(gs, m)
    requires forall g :: g in m && m[g] != [] ==> m[g][0].createdAt < LONG_MAX
    ensures MinPresent(HeadTimes(gs, m)) == LONG_MAX <==> SumSizes(gs, m) == 0
  {
    var times := HeadTimes(gs, m);
    OldestHead(gs, m);
    SumSizesZero(gs, m);
    if MinPresent(times) != LONG_MAX {
      var g :| g in m && m[g] != [];
      var j := HeadTimesCover(gs, m, g);
    }
  }

  /** The queue's invariant over plain values: the shape holds, and the items
      held plus the items taken out are exactly the items offered. */
  ghost predicate Inv(gs: seq<string>, m: map<string, seq<WorkItem>>, offered: multiset<WorkItem>, removed: multiset<WorkItem>) {
    WellFormed(gs, m) && Items(gs, m) + removed == offered
  }

  /** Every item ever offered is either still queued or was taken out: the
      live size is the number of offers minus the number of removals. */
  lemma SizeAccounts(gs: seq<string>, m: map<string, seq<WorkItem>>, offered: seq<WorkItem>, removed: seq<WorkItem>)
    requires Inv(gs, m, multiset(offered), multiset(removed))
    ensures SumSizes(gs, m) + |removed| == |offered|
  {
    SumSizesIsItemCount(gs, m);
    assert |Items(gs, m) + multiset(removed)| == |Items(gs, m)| + |multiset(removed)|;
  }

  /** Registering a new group with an empty queue keeps the invariant and the size. */
  lemma InvRegister(gs: seq<string>, m: map<string, seq<WorkItem>>, offered: multiset<WorkItem>, removed: multiset<WorkItem>, g: string)
    requires Inv(gs, m, offered, removed) && g !in m
    ensures Inv(gs + [g], m[g := []], offered, removed)
    ensures SumSizes(gs + [g], m[g := []]) == SumSizes(gs, m)
  {
    AppendEmptyGroup(gs, m, g);
    WellFormedAdd(gs, m, g);
  }

  /** Appending an item of group `g` to the queue of `g` keeps the invariant,
      counts the item as offered, and grows the size by one. */
  lemma InvAppend(gs: seq<string>, m: map<string, seq<WorkItem>>, offered: multiset<WorkItem>, removed: multiset<WorkItem>, e: WorkItem)
    requires Inv(gs, m, offered, removed) && e.group in m
    ensures Inv(gs, m[e.group := m[e.group] + [e]], offered + multiset{e}, removed)
    ensures SumSizes(gs, m[e.group := m[e.group] + [e]]) == SumSizes(gs, m) + 1
  {
    var g := e.group;
    var q := m[g];
    var m' := m[g := q + [e]];
    assert forall x :: x in q + [e] ==> x in q || x == e;
    WellFormedReplace(gs, m, g, q + [e]);
    ItemsReplace(gs, m, g, q + [e]);
    assert multiset(q + [e]) == multiset(q) + multiset{e};
    assert Items(gs, m') == Items(gs, m) + multiset{e} by {
      var a, b, p := Items(gs, m'), Items(gs, m), multiset(q);
      assert a + p == b + (p + multiset{e});
      forall x ensures a[x] == (b + multiset{e})[x] {
        assert (a + p)[x] == (b + (p + multiset{e}))[x];
      }
    }
    SumSizesIsItemCount(gs, m);
    SumSizesIsItemCount(gs, m');
  }

  /** Taking the first `n` items of a registered group's queue keeps the
      invariant, counts exactly those items as taken out, and shrinks the size by `n`. */
  lemma InvTake(gs: seq<string>, m: map<string, seq<WorkItem>>, offered: multiset<WorkItem>, removed: multiset<WorkItem>, g: string, n: nat)
    requires Inv(gs, m, offered, removed) && g in m && n <= |m[g]|
    ensures Inv(gs, m[g := m[g][n..]], offered, removed + multiset(m[g][..n]))
    ensures SumSizes(gs, m[g := m[g][n..]]) + n == SumSizes(gs, m)
  {
    var q := m[g];
    var m' := m[g := q[n..]];
    assert forall x :: x in q[n..] ==> x in q;
    WellFormedReplace(gs, m, g, q[n..]);
    assert multiset(q) == multiset(q[..n]) + multiset(q[n..]) by {
      assert q == q[..n] + q[n..];
    }
    ItemsReplace(gs, m, g, q[n..]);
    assert Items(gs, m') + multiset(q[..n]) == Items(gs, m) by {
      var a, b, p, r := Items(gs, m'), Items(gs, m), multiset(q[..n]), multiset(q[n..]);
      assert a + (p + r) == b + r;
      forall x ensures (a + p)[x] == b[x] {
        assert (a + (p + r))[x] == (b + r)[x];
      }
    }
    SumSizesIsItemCount(gs, m);
    SumSizesIsItemCount(gs, m');
  }

  /** The items of `s` that belong to group `g`, in their order in `s`. */
  function Only(s: seq<WorkItem>, g: string): seq<WorkItem> {
    if s == [] then []
    else Only(s[..|s| - 1], g) + (if s[|s| - 1].group == g then [s[|s| - 1]] else [])
  }

  lemma {:induction false} OnlyConcat(s: seq<WorkItem>, t: seq<WorkItem>, g: string)
    ensures Only(s + t, g) == Only(s, g) + Only(t, g)
  {
    if t == [] {
      assert s + t == s;
    } else {
      var init, last := t[..|t| - 1], t[|t| - 1];
      assert (s + t)[..|s + t| - 1] == s + init && (s + t)[|s + t| - 1] == last;
      OnlyConcat(s, init, g);
    }
  }

  /** A single item's part in group `g`. */
  lemma OnlyOne(e: WorkItem, g: string)
    ensures Only([e], g) == if e.group == g then [e] else []
  {
    assert [e][..0] == [];
  }

  /** A queue holding only items of group `g` is its own `g`-part and has no
      part in any other group. */
  lemma {:induction false} OnlyOwnGroup(q: seq<WorkItem>, g: string, h: string)
    requires forall x :: x in q ==> x.group == g
    ensures Only(q, g) == q
    ensures h != g ==> Only(q, h) == []
  {
    if q != [] {
      var init := q[..|q| - 1];
      assert q == init + [q[|q| - 1]];
      OnlyOwnGroup(init, g, h);
    }
  }

  /** Per group, the items taken out followed by the items still queued are
      exactly the items offered, in the order offered: each sub-queue is FIFO. */
  ghost predicate Fifo(m: map<string, seq<WorkItem>>, offered: seq<WorkItem>, removed: seq<WorkItem>) {
    forall g {:trigger Only(offered, g)} :: Only(removed, g) + QueueOf(m, g) == Only(offered, g)
  }

  /** Registering an empty queue for a group that has none keeps the order. */
  lemma FifoRegister(m: map<string, seq<WorkItem>>, offered: seq<WorkItem>, removed: seq<WorkItem>, g: string)
    requires Fifo(m, offered, removed) && g !in m
    ensures Fifo(m[g := []], offered, removed)
  {
    forall h ensures Only(removed, h) + QueueOf(m[g := []], h) == Only(offered, h) {
      assert QueueOf(m[g := []], h) == QueueOf(m, h);
      assert Only(removed, h) + QueueOf(m, h) == Only(offered, h);
    }
  }

  /** Appending an item to its group's queue, and to the offers, keeps the order. */
  lemma FifoAppend(m: map<string, seq<WorkItem>>, offered: seq<WorkItem>, removed: seq<WorkItem>, e: WorkItem)
    requires Fifo(m, offered, removed)
    ensures Fifo(m[e.group := QueueOf(m, e.group) + [e]], offered + [e], removed)
  {
    var m' := m[e.group := QueueOf(m, e.group) + [e]];
    forall g ensures Only(removed, g) + QueueOf(m', g) == Only(offered + [e], g) {
      FifoAppendAt(Only(removed, g), QueueOf(m, g), offered, e, g);
    }
  }

  /** The step of FifoAppend for one group `g`, whose taken-out part is `a`
      and whose queue is `q`. */
  lemma FifoAppendAt(a: seq<WorkItem>, q: seq<WorkItem>, offered: seq<WorkItem>, e: WorkItem, g: string)
    requires a + q == Only(offered, g)
    ensures a + (if e.group == g then q + [e] else q) == Only(offered + [e], g)
  {
    OnlyConcat(offered, [e], g);
    OnlyOne(e, g);
    if e.group == g {
      assert a + (q + [e]) == (a + q) + [e];
    } else {
      assert Only(offered, g) + [] == Only(offered, g);
    }
  }

  /** Taking the first `n` items of a group's queue, and logging them as taken
      out, keeps the order. */
  lemma FifoTake(m: map<string, seq<WorkItem>>, offered: seq<WorkItem>, removed: seq<WorkItem>, g: string, n: nat)
    requires Fifo(m, offered, removed) && g in m && n <= |m[g]|
    requires forall x :: x in m[g] ==> x.group == g
    ensures Fifo(m[g := m[g][n..]], offered, removed + m[g][..n])
  {
    var q := m[g];
    var m' := m[g := q[n..]];
    forall h ensures Only(removed + q[..n], h) + QueueOf(m', h) == Only(offered, h) {
      FifoTakeAt(removed, QueueOf(m, h), Only(offered, h), q, n, g, h);
    }
  }

  /** The step of FifoTake for one group `h`, whose queue is `p` and whose
      offered part is `o`; `q` is the queue of the group `g` taken from. */
  lemma FifoTakeAt(removed: seq<WorkItem>, p: seq<WorkItem>, o: seq<WorkItem>, q: seq<WorkItem>, n: nat, g: string, h: string)
    requires Only(removed, h) + p == o && n <= |q|
    requires forall x :: x in q ==> x.group == g
    requires h == g ==> p == q
    ensures Only(removed + q[..n], h) + (if h == g then q[n..] else p) == o
  {
    var a, pre, post := Only(removed, h), q[..n], q[n..];
    if h == g {
      calc {
        Only(removed + pre, h) + post;
      == { OnlyConcat(removed, pre, h); }
        (a + Only(pre, h)) + post;
      == { assert forall x :: x in pre ==> x in q; OnlyOwnGroup(pre, g, h); }
        (a + pre) + post;
      == { assert q == pre + post; }
        a + q;
      }
    } else {
      calc {
        Only(removed + pre, h);
      == { OnlyConcat(removed, pre, h); }
        a + Only(pre, h);
      == { assert forall x :: x in pre ==> x in q; OnlyOwnGroup(pre, g, h); }
        a + [];
      == 
        a;
      }
    }
  }

  /** The head of a group's queue is the earliest item of that group offered
      and not yet taken out. */
  lemma HeadIsOldestOffered(m: map<string, seq<WorkItem>>, offered: seq<WorkItem>, removed: seq<WorkItem>, g: string)
    requires Fifo(m, offered, removed) && QueueOf(m, g) != []
    ensures |Only(removed, g)| < |Only(offered, g)|
    ensures QueueOf(m, g)[0] == Only(offered, g)[|Only(removed, g)|]
  {
    assert Only(removed, g) + QueueOf(m, g) == Only(offered, g);
  }

  /** Between two states of the same offers, what was taken out of a group in
      the meantime is the front of its old queue, in order, and what it holds
      now is the rest. */
  lemma TakenInOrder(m0: map<string, seq<WorkItem>>, m1: map<string, seq<WorkItem>>, offered: seq<WorkItem>,
                     removed: seq<WorkItem>, taken: seq<WorkItem>, g: string)
    requires Fifo(m0, offered, removed) && Fifo(m1, offered, removed + taken)
    ensures Only(taken, g) + QueueOf(m1, g) == QueueOf(m0, g)
  {
    TakenInOrderAt(Only(removed, g), Only(taken, g), QueueOf(m0, g), QueueOf(m1, g), Only(offered, g)) by {
      OnlyConcat(removed, taken, g);
    }
  }

  /** TakenInOrder for every group at once. */
  lemma TakenInOrderAll(m0: map<string, seq<WorkItem>>, m1: map<string, seq<WorkItem>>, offered: seq<WorkItem>,
                        removed: seq<WorkItem>, taken: seq<WorkItem>)
    requires Fifo(m0, offered, removed) && Fifo(m1, offered, removed + taken)
    ensures forall g :: Only(taken, g) + QueueOf(m1, g) == QueueOf(m0, g)
  {
    forall g ensures Only(taken, g) + QueueOf(m1, g) == QueueOf(m0, g) {
      TakenInOrder(m0, m1, offered, removed, taken, g);
    }
  }

  lemma TakenInOrderAt(a: seq<WorkItem>, t: seq<WorkItem>, q0: seq<WorkItem>, q1: seq<WorkItem>, o: seq<WorkItem>)
    requires a + q0 == o && (a + t) + q1 == o
    ensures t + q1 == q0
  {
    assert t + q1 == (a + (t + q1))[|a|..];
    assert q0 == (a + q0)[|a|..];
  }

  /** The queue's invariant over its state and its two logs: the shape and
      the item count of Inv, and FIFO order within every group. */
  ghost predicate QueueInv(gs: seq<string>, m: map<string, seq<WorkItem>>, offered: seq<WorkItem>, removed: seq<WorkItem>) {
    Inv(gs, m, multiset(offered), multiset(removed)) && Fifo(m, offered, removed)
  }

  /** Registering a new group with an empty queue keeps the invariant and the size. */
  lemma QueueRegister(gs: seq<string>, m: map<string, seq<WorkItem>>, offered: seq<WorkItem>, removed: seq<WorkItem>, g: string)
    requires QueueInv(gs, m, offered, removed) && g !in m
    ensures QueueInv(gs + [g], m[g := []], offered, removed)
    ensures SumSizes(gs + [g], m[g := []]) == SumSizes(gs, m)
  {
    InvRegister(gs, m, multiset(offered), multiset(removed), g);
    FifoRegister(m, offered, removed, g);
  }

  /** Appending an item of a registered group to that group's queue keeps the
      invariant, logs the item as offered, and grows the size by one. */
  lemma QueueAppend(gs: seq<string>, m: map<string, seq<WorkItem>>, offered: seq<WorkItem>, removed: seq<WorkItem>, e: WorkItem)
    requires QueueInv(gs, m, offered, removed) && e.group in m
    ensures QueueInv(gs, m[e.group := m[e.group] + [e]], offered + [e], removed)
    ensures SumSizes(gs, m[e.group := m[e.group] + [e]]) == SumSizes(gs, m) + 1
  {
    var m' := m[e.group := m[e.group] + [e]];
    InvAppend(gs, m, multiset(offered), multiset(removed), e);
    assert multiset(offered + [e]) == multiset(offered) + multiset{e};
    assert Fifo(m', offered + [e], removed) by {
      FifoAppend(m, offered, removed, e);
      assert QueueOf(m, e.group) == m[e.group];
    }
  }

  /** Taking the first `n` items of a registered group's queue keeps the
      invariant, logs exactly those items as taken out, in order, and shrinks
      the size by `n`. */
  lemma QueueTake(gs: seq<string>, m: map<string, seq<WorkItem>>, offered: seq<WorkItem>, removed: seq<WorkItem>, g: string, n: nat)
    requires QueueInv(gs, m, offered, removed) && g in m && n <= |m[g]|
    ensures QueueInv(gs, m[g := m[g][n..]], offered, removed + m[g][..n])
    ensures SumSizes(gs, m[g := m[g][n..]]) + n == SumSizes(gs, m)
  {
    var m' := m[g := m[g][n..]];
    InvTake(gs, m, multiset(offered), multiset(removed), g, n);
    assert multiset(removed + m[g][..n]) == multiset(removed) + multiset(m[g][..n]);
    assert Fifo(m', offered, removed + m[g][..n]) by {
      assert forall x :: x in m[g] ==> x.group == g;
      FifoTake(m, offered, removed, g, n);
    }
  }

  /** Registering an empty queue for a new group and then appending to it
      gives the same map as appending to the group's (possibly absent) queue. */
  lemma RegisterThenAppend(m: map<string, seq<WorkItem>>, e: WorkItem)
    ensures var m1 := if e.group in m then m else m[e.group := []];
            m1[e.group := m1[e.group] + [e]] == m[e.group := QueueOf(m, e.group) + [e]]
  {
  }

  class GroupedQueue {
    /** One sub-queue per group key. */
    var queuesByGroup: map<string, seq<WorkItem>>
    /** The group keys, in the order their queues were created. */
    var groups: seq<string>
    /** Every item ever offered, and every item taken out by a poll or a
        drain, each in the order it happened. */
    ghost var offered: seq<WorkItem>
    ghost var removed: seq<WorkItem>

    /** One queue per key, each key registered exactly once, every item in the
        queue of its own group, no item lost or duplicated, and each group
        served in the order its items were offered. */
    ghost predicate Valid()
      reads this
    {
      QueueInv(groups, queuesByGroup, offered, removed)
    }

    /** The sub-queue of group `g` (empty when there is none). */
    function Queue(g: string): seq<WorkItem>
      reads this
    {
      QueueOf(queuesByGroup, g)
    }

    /** The live sum of the sub-queue sizes. */
    function TotalSize(): nat
      reads this
    {
      SumSizes(groups, queuesByGroup)
    }

    /** The items currently held, over all groups. */
    ghost function Contents(): multiset<WorkItem>
      reads this
    {
      Items(groups, queuesByGroup)
    }

    constructor ()
      ensures Valid()
      ensures queuesByGroup == map[] && groups == []
      ensures offered == [] && removed == []
    {
      queuesByGroup := map[];
      groups := [];
      offered := [];
      removed := [];
    }

    /** The queue of group `g`, created and registered on first use. */
    method GetOrCreateGroupQueue(g: string) returns (q: seq<WorkItem>)
      requires Valid()
      modifies this
      ensures Valid()
      ensures g in old(queuesByGroup) ==> queuesByGroup == old(queuesByGroup) && groups == old(groups)
      ensures g !in old(queuesByGroup) ==> queuesByGroup == old(queuesByGroup)[g := []] && groups == old(groups) + [g]
      ensures q == queuesByGroup[g] && q == old(Queue(g))
      ensures offered == old(offered) && removed == old(removed)
      ensures TotalSize() == old(TotalSize())
    {
      if g !in queuesByGroup {
        QueueRegister(groups, queuesByGroup, offered, removed, g);
        queuesByGroup := queuesByGroup[g := []];
        groups := groups + [g];
      }
      q := queuesByGroup[g];
    }

    /** Appends `e` to the queue of its group. */
    method Offer(e: WorkItem) returns (ok: bool)
      requires Valid()
      modifies this
      ensures Valid() && ok
      ensures queuesByGroup == old(queuesByGroup)[e.group := old(Queue(e.group)) + [e]]
      ensures groups == if e.group in old(queuesByGroup) then old(groups) else old(groups) + [e.group]
      ensures offered == old(offered) + [e] && removed == old(removed)
      ensures TotalSize() == old(TotalSize()) + 1
    {
      ghost var m0 := queuesByGroup;
      // the queue is created or found here; the append itself goes through
      // the map, so the returned copy is not used again
      var q := GetOrCreateGroupQueue(e.group);
      AppendToGroup(e);
      RegisterThenAppend(m0, e);
      ok := true;
    }

    /** Appends `e` to the existing queue of its group. */
    method AppendToGroup(e: WorkItem)
      requires Valid() && e.group in queuesByGroup
      modifies this
      ensures Valid()
      ensures queuesByGroup == old(queuesByGroup)[e.group := old(queuesByGroup)[e.group] + [e]]
      ensures groups == old(groups)
      ensures offered == old(offered) + [e] && removed == old(removed)
      ensures TotalSize() == old(TotalSize()) + 1
    {
      QueueAppend(groups, queuesByGroup, offered, removed, e);
      queuesByGroup := queuesByGroup[e.group := queuesByGroup[e.group] + [e]];
      offered := offered + [e];
    }

    /** The head of the routed-to sub-queue, left in place; null when the
        router yields no queue or that queue is empty. */
    method Peek(route: Option<string>) returns (r: Option<WorkItem>)
      requires Valid()
      requires route.Some? ==> route.value in queuesByGroup
      ensures route.None? ==> r.None?
      ensures route.Some? ==> r == if Queue(route.value) == [] then None else Some(Queue(route.value)[0])
      ensures r.Some? ==> r.value.group == route.value
    {
      if route.Some? {
        var q := queuesByGroup[route.value];
        r := if q == [] then None else Some(q[0]);
      } else {
        r := None;
      }
    }

    /** Removes and returns the head of the routed-to sub-queue; null, with
        nothing changed, when the router yields no queue or that queue is empty. */
    method Poll(route: Option<string>) returns (r: Option<WorkItem>)
      requires Valid()
      requires route.Some? ==> route.value in queuesByGroup
      modifies this
      ensures Valid()
      ensures groups == old(groups) && offered == old(offered)
      ensures r.None? <==> route.None? || old(Queue(route.value)) == []
      ensures r.None? ==> queuesByGroup == old(queuesByGroup) && removed == old(removed)
      ensures r.Some? ==>
                && r.value == old(Queue(route.value))[0] && r.value.group == route.value
                && queuesByGroup == old(queuesByGroup)[route.value := old(Queue(route.value))[1..]]
                && removed == old(removed) + [r.value]
                && r.value == Only(old(offered), route.value)[|Only(old(removed), route.value)|]
      ensures TotalSize() == old(TotalSize()) - (if r.Some? then 1 else 0)
    {
      if route.None? {
        return None;
      }
      var g := route.value;
      var q := queuesByGroup[g];
      if q == [] {
        return None;
      }
      HeadIsOldestOffered(queuesByGroup, offered, removed, g);
      QueueTake(groups, queuesByGroup, offered, removed, g, 1);
      assert q[..1] == [q[0]];
      queuesByGroup := queuesByGroup[g := q[1..]];
      removed := removed + q[..1];
      r := Some(q[0]);
    }

    /** The sum of the sub-queue sizes, accumulated group by group. */
    method Size() returns (size: int)
      requires Valid()
      ensures size == TotalSize() && size == |Contents()|
    {
      size := 0;
      var i := 0;
      while i < |groups|
        invariant 0 <= i <= |groups|
        invariant size == SumSizes(groups[..i], queuesByGroup)
      {
        assert groups[..i + 1][..i] == groups[..i];
        size := size + |queuesByGroup[groups[i]]|;
        i := i + 1;
      }
      assert groups[..i] == groups;
      SumSizesIsItemCount(groups, queuesByGroup);
    }

    /** The smallest creation time among the heads of the non-empty sub-queues;
        null when there is none. A head stamped Long.MAX_VALUE cannot be told
        apart from the accumulator's starting value and so counts as absent. */
    method GetOldestQueueTime() returns (r: Option<long>)
      requires Valid()
      ensures r.None? <==>
                forall g :: g in queuesByGroup && queuesByGroup[g] != [] ==> queuesByGroup[g][0].createdAt == LONG_MAX
      ensures r.Some? ==>
                && (exists g :: g in queuesByGroup && queuesByGroup[g] != [] && queuesByGroup[g][0].createdAt == r.value)
                && (forall g :: g in queuesByGroup && queuesByGroup[g] != [] ==> r.value <= queuesByGroup[g][0].createdAt)
      ensures (forall g :: g in queuesByGroup && queuesByGroup[g] != [] ==> queuesByGroup[g][0].createdAt < LONG_MAX) ==>
                (r.None? <==> TotalSize() == 0)
    {
      var oldestTime: long := LONG_MAX;
      ghost var times := HeadTimes(groups, queuesByGroup);
      var i := 0;
      while i < |groups|
        invariant 0 <= i <= |groups|
        invariant oldestTime == MinPresent(times[..i])
      {
        assert groups[i] in groups;
        var oldest := OldestItemTime(queuesByGroup[groups[i]]);
        assert oldest == times[i];
        MinPresentStep(times, i);
        if oldest.Some? && oldest.value < oldestTime {
          oldestTime := oldest.value;
        }
        i := i + 1;
      }
      assert times[..i] == times;
      OldestHead(groups, queuesByGroup);
      if forall g :: g in queuesByGroup && queuesByGroup[g] != [] ==> queuesByGroup[g][0].createdAt < LONG_MAX {
        OldestHeadAbsentIffEmpty(groups, queuesByGroup);
      }
      r := if oldestTime == LONG_MAX then None else Some(oldestTime);
    }

    /** Moves every item of group `partition`, in FIFO order, to the end of
        `sink`; the group must exist. */
    method DrainTo(partition: string, sink: seq<WorkItem>) returns (num: int, out: seq<WorkItem>)
      requires Valid() && partition in queuesByGroup
      modifies this
      ensures Valid()
      ensures num == |old(queuesByGroup[partition])|
      ensures out == sink + old(queuesByGroup[partition])
      ensures queuesByGroup == old(queuesByGroup)[partition := []]
      ensures groups == old(groups) && offered == old(offered)
      ensures removed == old(removed) + old(queuesByGroup[partition])
    {
      var queue := queuesByGroup[partition];
      var rest;
      num, out, rest := PollAll(queue, sink);
      QueueTake(groups, queuesByGroup, offered, removed, partition, num);
      queuesByGroup := queuesByGroup[partition := rest];
      removed := removed + queue[..num];
    }

    /** Moves at most `max` items of group `partition`, in FIFO order, to the
        end of `sink`; the group must exist. */
    method DrainToAtMost(partition: string, sink: seq<WorkItem>, max: int) returns (num: int, out: seq<WorkItem>)
      requires Valid() && partition in queuesByGroup
      modifies this
      ensures Valid()
      ensures num == if max <= 0 then 0 else Min(max, |old(queuesByGroup[partition])|)
      ensures out == sink + old(queuesByGroup[partition])[..num]
      ensures queuesByGroup == old(queuesByGroup)[partition := old(queuesByGroup[partition])[num..]]
      ensures groups == old(groups) && offered == old(offered)
      ensures removed == old(removed) + old(queuesByGroup[partition])[..num]
    {
      var queue := queuesByGroup[partition];
      var rest;
      num, out, rest := PollAtMost(queue, sink, max);
      QueueTake(groups, queuesByGroup, offered, removed, partition, num);
      queuesByGroup := queuesByGroup[partition := rest];
      removed := removed + queue[..num];
    }

    /** The drain loop: polls `queue` empty, adding each item to the end of
        `sink`, and counts the items moved. */
    static method PollAll(queue: seq<WorkItem>, sink: seq<WorkItem>) returns (num: nat, out: seq<WorkItem>, rest: seq<WorkItem>)
      ensures num == |queue| && rest == [] && rest == queue[num..]
      ensures out == sink + queue
    {
      rest := queue;
      num, out := 0, sink;
      while rest != []
        invariant num <= |queue| && rest == queue[num..]
        invariant out == sink + queue[..num]
      {
        var elem := rest[0];
        rest := rest[1..];
        out := out + [elem];
        num := num + 1;
        assert queue[..num] == queue[..num - 1] + [elem];
      }
      assert queue[..num] == queue;
    }

    /** The bounded drain loop: polls `queue` until it is empty or `max` items
        were moved, adding each item to the end of `sink`. */
    static method PollAtMost(queue: seq<WorkItem>, sink: seq<WorkItem>, max: int) returns (num: nat, out: seq<WorkItem>, rest: seq<WorkItem>)
      ensures num == if max <= 0 then 0 else Min(max, |queue|)
      ensures out == sink + queue[..num] && rest == queue[num..]
    {
      rest := queue;
      num, out := 0, sink;
      while num < max && rest != []
        invariant num <= |queue| && rest == queue[num..]
        invariant max <= 0 ==> num == 0
        invariant max > 0 ==> num <= max
        invariant out == sink + queue[..num]
      {
        var elem := rest[0];
        rest := rest[1..];
        out := out + [elem];
        num := num + 1;
        assert queue[..num] == queue[..num - 1] + [elem];
      }
    }
  }
}
