/** What acceptance of a meta-layer means, and how it behaves when the list is edited. */
module MetaTheory {
  import opened Common
  import opened Layers
  import opened MetaVerify

  /** The names a successful verification of `n` visits. */
  ghost function TreeOf(list: seq<Layer>, n: string): set<string>
    requires Has(list, n) && Verifies(list, n)
  {
    Tree(list, n, {}).value
  }

  // ---------------------------------------------------------------- independence of the marks

  /** Fewer marks cannot turn acceptance into rejection, and the newly visited names stay the same. */
  lemma {:induction false} TreeFrame(list: seq<Layer>, n: string, seen: set<string>, small: set<string>)
    requires Has(list, n) && n !in seen && small <= seen <= Names(list) && Tree(list, n, seen).Some?
    ensures Tree(list, n, small) == Some(small + (Tree(list, n, seen).value - seen))
    decreases |Names(list) - seen|, 0, 0
  {
    NamesAreLookups(list, n);
    SubsetSize(Names(list) - (seen + {n}), Names(list) - seen);
    TreeFromFrame(list, n, 0, seen + {n}, small + {n});
    GrowthFromOne(small, seen, n, Tree(list, n, seen).value);
  }

  lemma GrowthFromOne<T>(small: set<T>, seen: set<T>, x: T, end: set<T>)
    requires small <= seen && seen + {x} <= end && x !in seen
    ensures small + {x} + (end - (seen + {x})) == small + (end - seen)
  {
  }

  lemma SplitGrowth<T>(small: set<T>, seen: set<T>, mid: set<T>, end: set<T>)
    requires small <= seen <= mid <= end
    ensures small + (mid - seen) + (end - mid) == small + (end - seen)
  {
  }

  lemma {:induction false} TreeFromFrame(list: seq<Layer>, n: string, k: nat, seen: set<string>, small: set<string>)
    requires Has(list, n) && k <= |Get(list, n).components| && small <= seen <= Names(list)
    requires TreeFrom(list, n, k, seen).Some?
    ensures TreeFrom(list, n, k, small) == Some(small + (TreeFrom(list, n, k, seen).value - seen))
    decreases |Names(list) - seen|, 1, |Get(list, n).components| - k
  {
    var m := Get(list, n);
    if k < |m.components| {
      var c := m.components[k];
      if !Get(list, c).isMeta {
        TreeFromFrame(list, n, k + 1, seen, small);
      } else {
        var sub, rest := Tree(list, c, seen).value, TreeFrom(list, n, k, seen).value;
        var small' := small + (sub - seen);
        assert TreeFrom(list, n, k, small) == TreeFrom(list, n, k + 1, small') by {
          TreeFrame(list, c, seen, small);
        }
        assert TreeFrom(list, n, k + 1, small') == Some(small' + (rest - sub)) by {
          SubsetSize(Names(list) - sub, Names(list) - seen);
          TreeFromFrame(list, n, k + 1, sub, small');
        }
        SplitGrowth(small, seen, sub, rest);
      }
    } else {
      assert small + (seen - seen) == small;
    }
  }

  // ---------------------------------------------------------------- components of accepted layers

  lemma {:induction false} LaterSlot(list: seq<Layer>, n: string, k: nat, j: nat, seen: set<string>)
    requires Has(list, n) && k <= j < |Get(list, n).components| && seen <= Names(list)
    requires TreeFrom(list, n, k, seen).Some?
    ensures GoodSlot(list, Get(list, n), j)
    ensures var c := Get(list, n).components[j];
            MetaSlot(list, Get(list, n), j) ==>
              Verifies(list, c) && TreeOf(list, c) <= TreeFrom(list, n, k, seen).value - seen
    decreases |Names(list) - seen|, |Get(list, n).components| - k
  {
    var m := Get(list, n);
    var c := m.components[k];
    if !Get(list, c).isMeta {
      if k < j {
        LaterSlot(list, n, k + 1, j, seen);
      }
    } else {
      var sub := Tree(list, c, seen).value;
      if k < j {
        SubsetSize(Names(list) - sub, Names(list) - seen);
        LaterSlot(list, n, k + 1, j, sub);
      } else {
        TreeFrame(list, c, seen, {});
      }
    }
  }

  /** Each meta-layer component of an accepted meta-layer is accepted, with a strictly smaller tree. */
  lemma ComponentTree(list: seq<Layer>, n: string, j: nat)
    requires Has(list, n) && Verifies(list, n) && j < |Get(list, n).components|
    ensures GoodSlot(list, Get(list, n), j)
    ensures MetaSlot(list, Get(list, n), j) ==>
              var c := Get(list, n).components[j];
              && Verifies(list, c)
              && TreeOf(list, c) < TreeOf(list, n)
              && |TreeOf(list, c)| < |TreeOf(list, n)|
  {
    assert {} + {n} == {n};
    LaterSlot(list, n, 0, j, {n});
    if MetaSlot(list, Get(list, n), j) {
      var c := Get(list, n).components[j];
      assert n in TreeOf(list, n) && n !in TreeOf(list, c);
      SubsetSize(TreeOf(list, c), TreeOf(list, n));
    }
  }

  /** Every name visited below `n` is itself the name of an accepted meta-layer. */
  lemma {:induction false} MembersVerify(list: seq<Layer>, n: string, x: string)
    requires Has(list, n) && Get(list, n).isMeta && Verifies(list, n) && x in TreeOf(list, n)
    ensures Has(list, x) && Get(list, x).isMeta && Verifies(list, x)
    decreases |TreeOf(list, n)|
  {
    if x != n {
      assert {} + {n} == {n};
      var j := MemberSlot(list, n, 0, {n}, x);
      ComponentTree(list, n, j);
      MembersVerify(list, Get(list, n).components[j], x);
    }
  }

  lemma {:induction false} MemberSlot(list: seq<Layer>, n: string, k: nat, seen: set<string>, x: string)
    returns (j: nat)
    requires Has(list, n) && k <= |Get(list, n).components| && seen <= Names(list)
    requires TreeFrom(list, n, k, seen).Some? && x in TreeFrom(list, n, k, seen).value - seen
    ensures k <= j < |Get(list, n).components| && MetaSlot(list, Get(list, n), j)
    ensures var c := Get(list, n).components[j]; Verifies(list, c) && x in TreeOf(list, c)
    decreases |Names(list) - seen|, |Get(list, n).components| - k
  {
    var m := Get(list, n);
    var c := m.components[k];
    if !Get(list, c).isMeta {
      j := MemberSlot(list, n, k + 1, seen, x);
    } else {
      var sub := Tree(list, c, seen).value;
      TreeFrame(list, c, seen, {});
      if x in sub {
        j := k;
      } else {
        SubsetSize(Names(list) - sub, Names(list) - seen);
        j := MemberSlot(list, n, k + 1, sub, x);
      }
    }
  }

  // ---------------------------------------------------------------- deleting one layer

  /** `less` is `list` without the layer called `gone`. */
  ghost predicate Without(list: seq<Layer>, less: seq<Layer>, gone: string) {
    && !Has(less, gone)
    && forall n :: n != gone ==> Has(less, n) == Has(list, n) && (Has(list, n) ==> Get(less, n) == Get(list, n))
  }

  lemma RemoveLooksUp(list: seq<Layer>, f: nat, n: string)
    requires f < |list| && n != list[f].name
    ensures Has(RemoveAt(list, f), n) == Has(list, n)
    ensures Has(list, n) ==> Get(RemoveAt(list, f), n) == Get(list, n)
  {
    var less := RemoveAt(list, f);
    if Has(list, n) {
      var i := First(list, n);
      assert less[if i < f then i else i - 1] == list[i];
    }
    if Has(less, n) {
      var i := First(less, n);
      assert list[if i < f then i else i + 1] == less[i];
    }
  }

  /** After a meta-layer is deleted its name is gone, and every other lookup finds what it found before. */
  lemma RemoveIsWithout(list: seq<Layer>, f: nat)
    requires MetasAlone(list) && f < |list| && list[f].isMeta
    ensures MetasAlone(RemoveAt(list, f)) && Without(list, RemoveAt(list, f), list[f].name)
  {
    var less := RemoveAt(list, f);
    assert forall i :: 0 <= i < |less| ==> less[i] == list[if i < f then i else i + 1];
    forall n | n != list[f].name
      ensures Has(less, n) == Has(list, n) && (Has(list, n) ==> Get(less, n) == Get(list, n))
    {
      RemoveLooksUp(list, f, n);
    }
  }

  lemma NamesAreLookups(list: seq<Layer>, n: string)
    ensures n in Names(list) <==> Has(list, n)
  {
  }

  lemma WithoutNames(list: seq<Layer>, less: seq<Layer>, gone: string)
    requires Without(list, less, gone)
    ensures Names(less) == Names(list) - {gone}
  {
    forall n
      ensures n in Names(less) <==> n in Names(list) - {gone}
    {
      NamesAreLookups(list, n);
      NamesAreLookups(less, n);
    }
  }

  /** A layer accepted by the shorter list was accepted by the longer one, with the same tree. */
  lemma {:induction false} AcceptedBefore(
    list: seq<Layer>, less: seq<Layer>, gone: string, n: string, seen: set<string>)
    requires Without(list, less, gone) && Has(less, n) && n !in seen && seen <= Names(less)
    requires Tree(less, n, seen).Some?
    ensures Has(list, n) && seen <= Names(list) && Tree(list, n, seen) == Tree(less, n, seen)
    decreases |Names(less) - seen|, 0, 0
  {
    NamesAreLookups(less, n);
    WithoutNames(list, less, gone);
    SubsetSize(Names(less) - (seen + {n}), Names(less) - seen);
    AcceptedFromBefore(list, less, gone, n, 0, seen + {n});
  }

  lemma {:induction false} AcceptedFromBefore(
    list: seq<Layer>, less: seq<Layer>, gone: string, n: string, k: nat, seen: set<string>)
    requires Without(list, less, gone) && Has(less, n) && k <= |Get(less, n).components| && seen <= Names(less)
    requires TreeFrom(less, n, k, seen).Some?
    ensures Has(list, n) && Get(list, n) == Get(less, n) && seen <= Names(list)
    ensures TreeFrom(list, n, k, seen) == TreeFrom(less, n, k, seen)
    decreases |Names(less) - seen|, 1, |Get(less, n).components| - k
  {
    WithoutNames(list, less, gone);
    var m := Get(less, n);
    if k < |m.components| {
      var c := m.components[k];
      if !Get(less, c).isMeta {
        AcceptedFromBefore(list, less, gone, n, k + 1, seen);
      } else {
        AcceptedBefore(list, less, gone, c, seen);
        var sub := Tree(less, c, seen).value;
        SubsetSize(Names(less) - sub, Names(less) - seen);
        AcceptedFromBefore(list, less, gone, n, k + 1, sub);
      }
    }
  }

  /** A layer whose tree avoids the deleted meta-layer stays accepted, with the same tree. */
  lemma {:induction false} AcceptedAfter(list: seq<Layer>, less: seq<Layer>, gone: string, n: string, seen: set<string>)
    requires Without(list, less, gone) && Has(list, gone) && Get(list, gone).isMeta
    requires Has(list, n) && n !in seen && seen <= Names(list) && Tree(list, n, seen).Some?
    requires gone !in Tree(list, n, seen).value
    ensures Has(less, n) && seen <= Names(less) && Tree(less, n, seen) == Tree(list, n, seen)
    decreases |Names(list) - seen|, 0, 0
  {
    NamesAreLookups(list, n);
    WithoutNames(list, less, gone);
    SubsetSize(Names(list) - (seen + {n}), Names(list) - seen);
    AcceptedFromAfter(list, less, gone, n, 0, seen + {n});
  }

  lemma {:induction false} AcceptedFromAfter(
    list: seq<Layer>, less: seq<Layer>, gone: string, n: string, k: nat, seen: set<string>)
    requires Without(list, less, gone) && Has(list, gone) && Get(list, gone).isMeta && n != gone
    requires Has(list, n) && k <= |Get(list, n).components| && seen <= Names(list) && TreeFrom(list, n, k, seen).Some?
    requires gone !in TreeFrom(list, n, k, seen).value
    ensures Has(less, n) && Get(less, n) == Get(list, n) && seen <= Names(less)
    ensures TreeFrom(less, n, k, seen) == TreeFrom(list, n, k, seen)
    decreases |Names(list) - seen|, 1, |Get(list, n).components| - k
  {
    WithoutNames(list, less, gone);
    var m := Get(list, n);
    if k < |m.components| {
      var c := m.components[k];
      if !Get(list, c).isMeta {
        AcceptedFromAfter(list, less, gone, n, k + 1, seen);
      } else {
        var sub := Tree(list, c, seen).value;
        SubsetSize(Names(list) - sub, Names(list) - seen);
        AcceptedFromAfter(list, less, gone, n, k + 1, sub);
        AcceptedAfter(list, less, gone, c, seen);
      }
    }
  }

  /** Deleting a rejected meta-layer changes the verdict on no other meta-layer. */
  lemma VerdictSurvives(list: seq<Layer>, f: nat, n: string)
    requires MetasAlone(list) && f < |list| && list[f].isMeta
    requires Has(list, list[f].name) && !Verifies(list, list[f].name)
    requires n != list[f].name && Has(list, n) && Get(list, n).isMeta
    ensures Has(RemoveAt(list, f), n) && Get(RemoveAt(list, f), n) == Get(list, n)
    ensures Verifies(RemoveAt(list, f), n) <==> Verifies(list, n)
  {
    var less, gone := RemoveAt(list, f), list[f].name;
    AloneIsTheOne(list, f);
    RemoveIsWithout(list, f);
    if Verifies(list, n) {
      if gone in TreeOf(list, n) {
        MembersVerify(list, n, gone);
      }
      AcceptedAfter(list, less, gone, n, {});
    }
    if Verifies(less, n) {
      AcceptedBefore(list, less, gone, n, {});
    }
  }
}
