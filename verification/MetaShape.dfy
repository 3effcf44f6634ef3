/**
  An exact description of acceptance that does not mention the walk: a meta-layer verifies if and
  only if the meta-layers below it form a tree of usable layers.
*/
module MetaShape {
  import opened Common
  import opened Layers
  import opened MetaVerify
  import opened MetaTheory

  /** Component `k` of layer `n` is the meta-layer `c`. */
  ghost predicate Slot(list: seq<Layer>, n: string, k: nat, c: string) {
    Has(list, n) && k < |Get(list, n).components| && Get(list, n).components[k] == c && MetaSlot(list, Get(list, n), k)
  }

  ghost predicate Usable(list: seq<Layer>, n: string, from: nat) {
    Has(list, n) && forall k :: from <= k < |Get(list, n).components| ==> GoodSlot(list, Get(list, n), k)
  }

  /**
    `all` holds `root`, only usable layers and everything they list that is a meta-layer; nothing
    in it lists the root, and no meta-layer is listed twice, be it by two layers or by one.
  */
  ghost predicate IsTree(list: seq<Layer>, root: string, all: set<string>) {
    && root in all
    && all <= Names(list)
    && (forall n :: n in all ==> Usable(list, n, 0))
    && (forall n, k, c :: n in all && Slot(list, n, k, c) ==> c in all && c != root)
    && (forall n, k, n', k', c :: n in all && n' in all && Slot(list, n, k, c) && Slot(list, n', k', c)
                                  ==> n == n' && k == k')
  }

  // ---------------------------------------------------------------- accepted ==> tree

  /** The slots a walk from component `k` of `n` has gone through: those and all slots of `more`. */
  ghost predicate Walked(n: string, k: nat, more: set<string>, x: string, j: nat) {
    x in more || (x == n && j >= k)
  }

  ghost predicate Branches(list: seq<Layer>, n: string, k: nat, more: set<string>) {
    && n !in more
    && Usable(list, n, k)
    && (forall x :: x in more ==> Usable(list, x, 0))
    && (forall x, j, c :: Walked(n, k, more, x, j) && Slot(list, x, j, c) ==> c in more)
    && (forall x, j, x', j', c :: Walked(n, k, more, x, j) && Slot(list, x, j, c)
                                  && Walked(n, k, more, x', j') && Slot(list, x', j', c)
                                  ==> x == x' && j == j')
  }

  lemma JoinBranches(list: seq<Layer>, n: string, k: nat, c: string, first: set<string>, rest: set<string>)
    requires Slot(list, n, k, c) && GoodSlot(list, Get(list, n), k) && n != c && n !in first
    requires Branches(list, c, 0, first) && Branches(list, n, k + 1, rest)
    requires first !! rest && c !in rest
    ensures Branches(list, n, k, first + {c} + rest)
  {
    var all := first + {c} + rest;
    forall x, j | Walked(n, k, all, x, j)
      ensures Walked(c, 0, first, x, j) || (x == n && j == k) || Walked(n, k + 1, rest, x, j)
    {
    }
  }

  lemma WalkSkips(list: seq<Layer>, n: string, k: nat, more: set<string>)
    requires Has(list, n) && k < |Get(list, n).components|
    requires GoodSlot(list, Get(list, n), k) && !MetaSlot(list, Get(list, n), k)
    requires Branches(list, n, k + 1, more)
    ensures Branches(list, n, k, more)
  {
    assert forall x, j :: Walked(n, k, more, x, j) && !(x == n && j == k) ==> Walked(n, k + 1, more, x, j);
  }

  lemma WalkJoins(
    list: seq<Layer>, n: string, k: nat, c: string, seen: set<string>, sub: set<string>, all: set<string>)
    requires Slot(list, n, k, c) && GoodSlot(list, Get(list, n), k)
    requires n in seen && c !in seen && seen + {c} <= sub <= all
    requires Branches(list, c, 0, sub - (seen + {c})) && Branches(list, n, k + 1, all - sub)
    ensures Branches(list, n, k, all - seen)
  {
    JoinBranches(list, n, k, c, sub - (seen + {c}), all - sub);
    assert all - seen == (sub - (seen + {c})) + {c} + (all - sub);
  }

  /** The first step of a walk that succeeds; what is left of the walk has fewer names ahead. */
  lemma WalkOpens(list: seq<Layer>, n: string, k: nat, seen: set<string>)
    requires Has(list, n) && k < |Get(list, n).components| && seen <= Names(list)
    requires TreeFrom(list, n, k, seen).Some?
    ensures GoodSlot(list, Get(list, n), k)
    ensures var c := Get(list, n).components[k];
            && (!Get(list, c).isMeta ==> TreeFrom(list, n, k + 1, seen) == TreeFrom(list, n, k, seen))
            && (Get(list, c).isMeta ==>
                  && c !in seen && seen + {c} <= Names(list) && TreeFrom(list, c, 0, seen + {c}).Some?
                  && |Names(list) - (seen + {c})| < |Names(list) - seen|
                  && var sub := TreeFrom(list, c, 0, seen + {c}).value;
                     && |Names(list) - sub| < |Names(list) - seen|
                     && TreeFrom(list, n, k + 1, sub) == TreeFrom(list, n, k, seen))
  {
    var c := Get(list, n).components[k];
    hide First, Get;
    if Get(list, c).isMeta {
      var sub := Tree(list, c, seen).value;
      SubsetSize(Names(list) - (seen + {c}), Names(list) - seen);
      SubsetSize(Names(list) - sub, Names(list) - seen);
    }
  }

  lemma {:induction false} WalkBranches(list: seq<Layer>, n: string, k: nat, seen: set<string>)
    requires Has(list, n) && k <= |Get(list, n).components| && n in seen && seen <= Names(list)
    requires TreeFrom(list, n, k, seen).Some?
    ensures Branches(list, n, k, TreeFrom(list, n, k, seen).value - seen)
    decreases |Names(list) - seen|, |Get(list, n).components| - k
  {
    var m := Get(list, n);
    if k == |m.components| {
      NoBranches(list, n, k, seen);
    } else {
      hide Branches, TreeFrom, Tree, Names, Has, Get;
      var all := TreeFrom(list, n, k, seen).value;
      var c := m.components[k];
      WalkOpens(list, n, k, seen);
      if !Get(list, c).isMeta {
        WalkBranches(list, n, k + 1, seen);
        WalkSkips(list, n, k, all - seen);
      } else {
        var sub := TreeFrom(list, c, 0, seen + {c}).value;
        WalkBranches(list, c, 0, seen + {c});
        WalkBranches(list, n, k + 1, sub);
        WalkJoins(list, n, k, c, seen, sub, all);
      }
    }
  }

  lemma NoBranches(list: seq<Layer>, n: string, k: nat, seen: set<string>)
    requires Has(list, n) && k == |Get(list, n).components| && seen <= Names(list)
    ensures TreeFrom(list, n, k, seen) == Some(seen) && Branches(list, n, k, seen - seen)
  {
    assert seen - seen == {};
  }

  lemma BranchesAreATree(list: seq<Layer>, n: string, all: set<string>)
    requires n in all && all <= Names(list) && Branches(list, n, 0, all - {n})
    ensures IsTree(list, n, all)
  {
    forall x, k, c | x in all && Slot(list, x, k, c)
      ensures Walked(n, 0, all - {n}, x, k)
    {
    }
    forall x | x in all
      ensures Usable(list, x, 0)
    {
      assert x == n || x in all - {n};
    }
    forall x, k, x', k', c | x in all && x' in all && Slot(list, x, k, c) && Slot(list, x', k', c)
      ensures x == x' && k == k'
    {
      assert Walked(n, 0, all - {n}, x, k) && Walked(n, 0, all - {n}, x', k');
    }
  }

  lemma AcceptedIsTree(list: seq<Layer>, n: string)
    requires Has(list, n) && Verifies(list, n)
    ensures IsTree(list, n, TreeOf(list, n))
  {
    assert {} + {n} == {n};
    WalkBranches(list, n, 0, {n});
    BranchesAreATree(list, n, TreeOf(list, n));
  }

  // ---------------------------------------------------------------- tree ==> accepted

  /** Everything marked so far, the root apart, is listed by something marked so far. */
  ghost predicate Rooted(list: seq<Layer>, root: string, seen: set<string>) {
    forall y :: y in seen && y != root ==> exists p, j :: p in seen && Slot(list, p, j, y)
  }

  ghost predicate Unmarked(list: seq<Layer>, n: string, k: nat, seen: set<string>) {
    forall j, c :: j >= k && Slot(list, n, j, c) ==> c !in seen
  }

  /** Everything marked from component `k` of `n` on is listed there or by something newly marked. */
  ghost predicate Hung(list: seq<Layer>, n: string, k: nat, more: set<string>) {
    forall y :: y in more ==> exists p, j :: Walked(n, k, more, p, j) && Slot(list, p, j, y)
  }

  lemma ChildRooted(list: seq<Layer>, root: string, n: string, k: nat, c: string, seen: set<string>)
    requires n in seen && Rooted(list, root, seen) && Slot(list, n, k, c)
    ensures Rooted(list, root, seen + {c})
  {
    forall y | y in seen + {c} && y != root
      ensures exists p, j :: p in seen + {c} && Slot(list, p, j, y)
    {
      if y == c {
        assert n in seen + {c};
      } else {
        var p, j :| p in seen && Slot(list, p, j, y);
        assert p in seen + {c};
      }
    }
  }

  /** The components of a meta-layer that is not marked yet are not marked either. */
  lemma ChildUnmarked(list: seq<Layer>, root: string, all: set<string>, c: string, seen: set<string>, j: nat, y: string)
    requires IsTree(list, root, all) && seen <= all && Rooted(list, root, seen)
    requires c in all && c !in seen && Slot(list, c, j, y)
    ensures y !in seen + {c}
  {
    assert Usable(list, c, 0) && GoodSlot(list, Get(list, c), j);
    assert y != c && y != root;
  }

  lemma NextUnmarked(
    list: seq<Layer>, root: string, all: set<string>, n: string, k: nat, c: string, seen: set<string>, sub: set<string>)
    requires IsTree(list, root, all) && n in seen && seen <= all && Unmarked(list, n, k, seen)
    requires Slot(list, n, k, c) && seen + {c} <= sub <= all && Hung(list, c, 0, sub - (seen + {c}))
    ensures Unmarked(list, n, k + 1, sub)
  {
    forall j: nat, y | j >= k + 1 && Slot(list, n, j, y)
      ensures y !in sub
    {
      if y in sub - (seen + {c}) {
        assert false;
      }
    }
  }

  lemma HungWidens(
    list: seq<Layer>, n: string, k: nat, less: set<string>, n': string, k': nat, more: set<string>, y: string)
    requires Hung(list, n, k, less) && y in less && less <= more
    requires n in more || (n == n' && k' <= k)
    ensures exists p, j :: Walked(n', k', more, p, j) && Slot(list, p, j, y)
  {
    var p, j :| Walked(n, k, less, p, j) && Slot(list, p, j, y);
    assert Walked(n', k', more, p, j);
  }

  lemma JoinHung(list: seq<Layer>, n: string, k: nat, c: string, first: set<string>, rest: set<string>)
    requires Slot(list, n, k, c) && Hung(list, c, 0, first) && Hung(list, n, k + 1, rest)
    ensures Hung(list, n, k, first + {c} + rest)
  {
    var more := first + {c} + rest;
    forall y | y in more
      ensures exists p, j :: Walked(n, k, more, p, j) && Slot(list, p, j, y)
    {
      if y in first {
        HungWidens(list, c, 0, first, n, k, more, y);
      } else if y in rest {
        HungWidens(list, n, k + 1, rest, n, k, more, y);
      } else {
        assert Walked(n, k, more, n, k);
      }
    }
  }

  lemma HungJoins(
    list: seq<Layer>, n: string, k: nat, c: string, seen: set<string>, sub: set<string>, end: set<string>)
    requires Slot(list, n, k, c) && c !in seen && seen + {c} <= sub <= end
    requires Hung(list, c, 0, sub - (seen + {c})) && Hung(list, n, k + 1, end - sub)
    ensures Hung(list, n, k, end - seen)
  {
    JoinHung(list, n, k, c, sub - (seen + {c}), end - sub);
    assert end - seen == (sub - (seen + {c})) + {c} + (end - sub);
  }

  lemma HungStaysRooted(list: seq<Layer>, root: string, n: string, k: nat, seen: set<string>, end: set<string>)
    requires Rooted(list, root, seen) && n in seen && seen <= end && Hung(list, n, k, end - seen)
    ensures Rooted(list, root, end)
  {
    forall y | y in end && y != root
      ensures exists p, j :: p in end && Slot(list, p, j, y)
    {
      if y in seen {
        var p, j :| p in seen && Slot(list, p, j, y);
        assert p in end;
      } else {
        assert y in end - seen;
        var p, j :| Walked(n, k, end - seen, p, j) && Slot(list, p, j, y);
        assert p in end;
      }
    }
  }

  lemma HungSkips(list: seq<Layer>, n: string, k: nat, more: set<string>)
    requires Hung(list, n, k + 1, more)
    ensures Hung(list, n, k, more)
  {
    assert forall p, j :: Walked(n, k + 1, more, p, j) ==> Walked(n, k, more, p, j);
  }

  lemma {:induction false} TreeWalks(
    list: seq<Layer>, root: string, all: set<string>, n: string, k: nat, seen: set<string>)
    requires IsTree(list, root, all) && n in seen && seen <= all && Rooted(list, root, seen)
    requires Has(list, n) && k <= |Get(list, n).components| && Unmarked(list, n, k, seen)
    ensures TreeFrom(list, n, k, seen).Some?
    ensures TreeFrom(list, n, k, seen).value <= all && Hung(list, n, k, TreeFrom(list, n, k, seen).value - seen)
    decreases |Names(list) - seen|, |Get(list, n).components| - k
  {
    var m := Get(list, n);
    assert Usable(list, n, 0);
    if k < |m.components| {
      var c := m.components[k];
      assert GoodSlot(list, m, k);
      if !Get(list, c).isMeta {
        TreeWalks(list, root, all, n, k + 1, seen);
        HungSkips(list, n, k, TreeFrom(list, n, k + 1, seen).value - seen);
      } else {
        assert Slot(list, n, k, c);
        ChildRooted(list, root, n, k, c, seen);
        assert Unmarked(list, c, 0, seen + {c}) by {
          forall j: nat, y | Slot(list, c, j, y)
            ensures y !in seen + {c}
          {
            ChildUnmarked(list, root, all, c, seen, j, y);
          }
        }
        SubsetSize(Names(list) - (seen + {c}), Names(list) - seen);
        TreeWalks(list, root, all, c, 0, seen + {c});
        TreeWalksOn(list, root, all, n, k, c, seen);
      }
    }
  }

  /** The rest of the walk, once the subtree of component `k` has been accepted. */
  lemma {:induction false} TreeWalksOn(
    list: seq<Layer>, root: string, all: set<string>, n: string, k: nat, c: string, seen: set<string>)
    requires IsTree(list, root, all) && n in seen && seen <= all && Rooted(list, root, seen)
    requires Slot(list, n, k, c) && c !in seen && c in all && Unmarked(list, n, k, seen)
    requires Rooted(list, root, seen + {c}) && Tree(list, c, seen).Some?
    requires Tree(list, c, seen).value <= all && Hung(list, c, 0, Tree(list, c, seen).value - (seen + {c}))
    ensures TreeFrom(list, n, k, seen).Some?
    ensures TreeFrom(list, n, k, seen).value <= all && Hung(list, n, k, TreeFrom(list, n, k, seen).value - seen)
    decreases |Names(list) - seen|, |Get(list, n).components| - k, 0
  {
    var sub := Tree(list, c, seen).value;
    assert Unmarked(list, n, k + 1, sub) by {
      NextUnmarked(list, root, all, n, k, c, seen, sub);
    }
    assert Rooted(list, root, sub) by {
      HungStaysRooted(list, root, c, 0, seen + {c}, sub);
    }
    assert TreeFrom(list, n, k, seen) == TreeFrom(list, n, k + 1, sub) by {
      assert Usable(list, n, 0) && GoodSlot(list, Get(list, n), k);
    }
    SubsetSize(Names(list) - sub, Names(list) - seen);
    TreeWalks(list, root, all, n, k + 1, sub);
    HungJoins(list, n, k, c, seen, sub, TreeFrom(list, n, k + 1, sub).value);
  }

  /** Verification accepts exactly the roots of trees. */
  lemma VerifiesIffTree(list: seq<Layer>, n: string)
    requires Has(list, n)
    ensures Verifies(list, n) <==> exists all :: IsTree(list, n, all)
  {
    if Verifies(list, n) {
      AcceptedIsTree(list, n);
    }
    if exists all :: IsTree(list, n, all) {
      var all :| IsTree(list, n, all);
      assert {} + {n} == {n};
      TreeWalks(list, n, all, n, 0, {n});
    }
  }
}
