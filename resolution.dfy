/**
 * Equivalence resolution over the `connection` dict: `connect_segmentation` grows every listed key's
 * list to everything reachable from it, and `images_composed` merges overlapping entries pairwise and
 * keeps the non-empty ones.
 */
module Resolution {
  import opened Wrappers
  import opened Seqs
  import opened Dicts

  // ---------------------------------------------------------------------------------------------
  // Reachability, the reference for connect_segmentation

  /** Every label that occurs in the dict, as a key or inside a list. */
  ghost function Universe(lists: Lists): set<int> {
    lists.Keys + (set k, m | k in lists && m in lists[k] :: m)
  }

  lemma ListInUniverse(lists: Lists, k: int)
    requires k in lists
    ensures Elems(lists[k]) <= Universe(lists)
  {
    forall m | m in Elems(lists[k]) ensures m in Universe(lists) {
      assert m in lists[k];
    }
  }

  /** Every member of every list is a key: looking any of them up cannot raise `KeyError`. */
  ghost predicate Closed(lists: Lists) {
    forall k, m :: k in lists && m in lists[k] ==> m in lists
  }

  lemma ClosedUniverse(lists: Lists)
    requires Closed(lists)
    ensures Universe(lists) == lists.Keys
  {
  }

  /** `t` contains the list of every key in it. */
  ghost predicate ClosedUnder(lists: Lists, t: set<int>) {
    forall k, m :: k in t && k in lists && m in lists[k] ==> m in t
  }

  /** `s` together with the lists of its keys. */
  ghost function Next(lists: Lists, s: set<int>): set<int> {
    s + (set k, m | k in s && k in lists && m in lists[k] :: m)
  }

  lemma StrictSubsetCard(a: set<int>, b: set<int>, x: int)
    requires a <= b && x in b && x !in a
    ensures |a| < |b|
  {
    assert a <= b - {x};
    SubsetCard(a, b - {x});
    assert b == (b - {x}) + {x};
  }

  /** The labels reachable from `s` by following lists: the least set above `s` closed under them. */
  ghost function Close(lists: Lists, s: set<int>): (r: set<int>)
    requires s <= Universe(lists)
    decreases |Universe(lists) - s|
    ensures s <= r <= Universe(lists) && ClosedUnder(lists, r)
  {
    var s' := Next(lists, s);
    assert s' <= Universe(lists) by {
      forall m | m in s' ensures m in Universe(lists) {
        if m !in s {
          var k :| k in s && k in lists && m in lists[k];
        }
      }
    }
    if s' <= s then s
    else
      var m :| m in s' && m !in s;
      StrictSubsetCard(Universe(lists) - s', Universe(lists) - s, m);
      Close(lists, s')
  }

  /** The labels reachable from key `k`. */
  ghost function Reach(lists: Lists, k: int): (r: set<int>)
    requires k in lists
    ensures Elems(lists[k]) <= r <= Universe(lists) && ClosedUnder(lists, r)
  {
    ListInUniverse(lists, k);
    Close(lists, Elems(lists[k]))
  }

  /** Any set above `s` that is closed under the lists contains everything reachable from `s`. */
  lemma {:induction false} CloseLeast(lists: Lists, s: set<int>, t: set<int>)
    requires s <= Universe(lists) && s <= t && ClosedUnder(lists, t)
    decreases |Universe(lists) - s|
    ensures Close(lists, s) <= t
  {
    var s' := Next(lists, s);
    if !(s' <= s) {
      assert s' <= t;
      assert s' <= Universe(lists) by {
        forall m | m in s' ensures m in Universe(lists) {
          if m !in s {
            var k :| k in s && k in lists && m in lists[k];
          }
        }
      }
      var m :| m in s' && m !in s;
      StrictSubsetCard(Universe(lists) - s', Universe(lists) - s, m);
      CloseLeast(lists, s', t);
    }
  }

  /** What a key reaches lies inside any set that holds its list and is closed under the lists. */
  lemma ReachLeast(lists: Lists, k: int, t: set<int>)
    requires k in lists && Elems(lists[k]) <= t && ClosedUnder(lists, t)
    ensures Reach(lists, k) <= t
  {
    ListInUniverse(lists, k);
    CloseLeast(lists, Elems(lists[k]), t);
  }

  /** A key reachable from `s` reaches nothing that `s` does not. */
  lemma ReachMono(lists: Lists, k: int, m: int)
    requires k in lists && m in lists && m in Reach(lists, k)
    ensures Reach(lists, m) <= Reach(lists, k)
  {
    ListInUniverse(lists, m);
    forall z | z in Elems(lists[m]) ensures z in Reach(lists, k) {
      assert z in lists[m];
    }
    CloseLeast(lists, Elems(lists[m]), Reach(lists, k));
  }

  // ---------------------------------------------------------------------------------------------
  // connect_segmentation

  /** Every list of `lists` lies between the key's list in `l0` and what the key reaches in `l0`. */
  ghost predicate Bounded(l0: Lists, lists: Lists) {
    && lists.Keys == l0.Keys
    && forall k :: k in lists ==> Elems(l0[k]) <= Elems(lists[k]) <= Reach(l0, k)
  }

  /** `list` holds each label once, and holds the original list of each of its members. */
  ghost predicate Saturated(l0: Lists, list: seq<int>) {
    && Distinct(list)
    && forall m :: m in list ==> m in l0 && Elems(l0[m]) <= Elems(list)
  }

  /**
   * `connect_segmentation(connect, list_connections)`. Keys are visited in reverse order; each
   * visited key's list is deduplicated, then walked with `count`, absorbing the list of every member
   * it reaches. A label that is not a key raises `KeyError`, which escapes (only `IndexError`, which
   * `count < len` rules out, is caught).
   */
  method ConnectSegmentation(connect: Dict, keys: seq<int>) returns (r: Outcome<Dict>)
    requires connect.Valid()
    ensures r.Fail? ==> r.err == KeyError
    ensures r.Ok? ==> r.value.Valid() && r.value.order == connect.order && r.value.lists.Keys == connect.lists.Keys
    // keys that are not visited keep their lists
    ensures r.Ok? ==> forall k :: k in connect.lists && k !in keys ==> r.value.lists[k] == connect.lists[k]
    // every visited key ends with exactly the labels reachable from it, each once
    ensures r.Ok? ==> forall x :: x in keys ==>
      && x in connect.lists
      && Elems(connect.lists[x]) <= connect.lists.Keys
      && Distinct(r.value.lists[x])
      && Elems(r.value.lists[x]) == Reach(connect.lists, x)
    // `KeyError` escapes exactly when a visited label is not a key or reaches a label that is not
    ensures r.Ok? <==> forall x :: x in keys ==> x in connect.lists && Reach(connect.lists, x) <= connect.lists.Keys
    // the dict built by the scan never raises
    ensures (forall x :: x in keys ==> x in connect.lists) && Closed(connect.lists) ==> r.Ok?
  {
    ghost var l0 := connect.lists;
    var lists := connect.lists;
    var t := |keys|;
    ghost var done: set<int> := {};
    while t > 0
      invariant 0 <= t <= |keys|
      invariant Bounded(l0, lists)
      invariant forall i :: t <= i < |keys| ==> keys[i] in done
      invariant forall x :: x in done ==> x in keys && x in lists && Saturated(l0, lists[x])
      invariant forall k :: k in lists && k !in done ==> lists[k] == l0[k]
    {
      t := t - 1;
      var x := keys[t];
      if x !in lists {
        assert x in keys;
        r := Fail(KeyError);
        return;
      }
      var grown := GrowList(l0, lists, x);
      if grown.Fail? {
        assert x in keys;
        if Closed(l0) { ClosedUniverse(l0); }
        r := Fail(KeyError);
        return;
      }
      lists := lists[x := grown.value];
      done := done + {x};
    }
    forall x | x in keys
      ensures x in l0 && Elems(l0[x]) <= l0.Keys && Elems(lists[x]) == Reach(l0, x) && Reach(l0, x) <= l0.Keys
    {
      assert x in done;
      SaturatedReach(l0, lists, x);
      forall m | m in Reach(l0, x) ensures m in l0 {
        assert m in Elems(lists[x]);
      }
    }
    r := Ok(Dict(connect.order, lists));
  }

  /** A saturated list within its bounds holds exactly what its key reaches. */
  lemma SaturatedReach(l0: Lists, lists: Lists, x: int)
    requires Bounded(l0, lists) && x in lists && Saturated(l0, lists[x])
    ensures x in l0 && Elems(l0[x]) <= l0.Keys && Elems(lists[x]) == Reach(l0, x)
  {
    ListInUniverse(l0, x);
    CloseLeast(l0, Elems(l0[x]), Elems(lists[x]));
  }

  /**
   * The body of the outer loop of `connect_segmentation` for key `x`: deduplicate its list, then walk
   * it with `count`, appending the (current) list of each member reached and deduplicating again.
   * `l0` is the dict before the first key was visited. The result is the new list of `x`.
   */
  method GrowList(ghost l0: Lists, lists: Lists, x: int) returns (r: Outcome<seq<int>>)
    requires x in lists && Bounded(l0, lists)
    ensures r.Fail? ==> r.err == KeyError && exists m :: m in Reach(l0, x) && m !in l0
    ensures r.Ok? ==> Bounded(l0, lists[x := r.value]) && Saturated(l0, r.value)
  {
    ghost var u := Universe(l0);
    var cur := Dedup(lists[x]);
    var count := 0;
    while count < |cur|
      invariant Distinct(cur) && 0 <= count <= |cur|
      invariant Elems(l0[x]) <= Elems(cur) <= Reach(l0, x)
      invariant forall c :: 0 <= c < count ==> cur[c] in l0 && Elems(l0[cur[c]]) <= Elems(cur)
      decreases |u| - count
    {
      DistinctBound(cur, u);
      var m := cur[count];
      if m !in lists {
        assert m in Elems(cur);
        r := Fail(KeyError);
        return;
      }
      var absorbed := if m == x then cur else lists[m];
      if m != x { ReachMono(l0, x, m); }
      GrowStep(l0, x, cur, count, absorbed);
      cur := Dedup(cur + absorbed);
      count := count + 1;
    }
    forall m | m in cur ensures m in l0 && Elems(l0[m]) <= Elems(cur) {
      var c :| 0 <= c < |cur| && cur[c] == m;
    }
    r := Ok(cur);
  }

  /** One absorption of the walk keeps the walked prefix and every bound of the loop. */
  lemma GrowStep(l0: Lists, x: int, cur: seq<int>, count: int, absorbed: seq<int>)
    requires x in l0 && Distinct(cur) && 0 <= count < |cur| && cur[count] in l0
    requires Elems(l0[x]) <= Elems(cur) <= Reach(l0, x)
    requires Elems(l0[cur[count]]) <= Elems(absorbed) <= Reach(l0, x)
    requires forall c :: 0 <= c < count ==> cur[c] in l0 && Elems(l0[cur[c]]) <= Elems(cur)
    ensures var g := Dedup(cur + absorbed);
      && Distinct(g) && |cur| <= |g| && g[..|cur|] == cur
      && Elems(l0[x]) <= Elems(g) <= Reach(l0, x)
      && forall c :: 0 <= c <= count ==> g[c] in l0 && Elems(l0[g[c]]) <= Elems(g)
  {
    var g := Dedup(cur + absorbed);
    DedupPrefix(cur, absorbed);
    assert Elems(g) == Elems(cur) + Elems(absorbed);
    forall c | 0 <= c <= count ensures g[c] in l0 && Elems(l0[g[c]]) <= Elems(g) {
      assert g[c] == cur[c];
    }
  }

  /**
   * The dict of the doc comment of `connect_segmentation`: 1: [2, 3, 4], 2: [5, 6], 3: [7, 8, 9],
   * and the labels 4 to 9 mapped to `[]`.
   */
  ghost predicate IsDocCommentDict(l: Lists) {
    && l.Keys == {1, 2, 3, 4, 5, 6, 7, 8, 9}
    && l[1] == [2, 3, 4] && l[2] == [5, 6] && l[3] == [7, 8, 9]
    && forall k :: k in l && k > 3 ==> l[k] == []
  }

  /** In that example the dict is closed, and key 1 reaches exactly 2 to 9, which it ends up holding. */
  lemma DocCommentExample(l: Lists)
    requires IsDocCommentDict(l)
    ensures Closed(l)
    ensures Reach(l, 1) == {2, 3, 4, 5, 6, 7, 8, 9}
  {
    var t := {2, 3, 4, 5, 6, 7, 8, 9};
    forall k, m | k in l && m in l[k] ensures m in t {
      if k > 3 {
      } else if k == 1 {
      } else if k == 2 {
      } else {
      }
    }
    ReachLeast(l, 1, t);
    var r := Reach(l, 1);
    assert 2 in l[1] && 3 in l[1] && 4 in l[1];
    assert 2 in r && 3 in r;
    assert 5 in l[2] && 6 in l[2] && 7 in l[3] && 8 in l[3] && 9 in l[3];
  }
}
