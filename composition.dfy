/**
 * `images_composed`: a pairwise merge over the captured key list, in which an earlier key absorbs
 * every later key whose entry overlaps its own, followed by a filter that keeps the non-empty entries.
 */
module Composition {
  import opened Wrappers
  import opened Seqs
  import opened Dicts

  // ---------------------------------------------------------------------------------------------
  // One absorption and the pairwise merge

  /** `any(x in connect[key] for x in connect[key2] + [key2])`. */
  predicate Absorbs(lists: Lists, key: int, key2: int)
    requires key in lists && key2 in lists
    // an empty list overlaps nothing; a list already holding key2 always overlaps
    ensures lists[key] == [] ==> !Absorbs(lists, key, key2)
    ensures key2 in lists[key] ==> Absorbs(lists, key, key2)
  {
    exists x :: x in lists[key2] + [key2] && x in lists[key]
  }

  /**
   * The body of the inner loop once both lookups succeed: on an overlap, `connect[key]` becomes the
   * deduplicated union of its list, `connect[key2]` and `key2`, and `connect[key2]` is cleared.
   */
  function Absorb(lists: Lists, key: int, key2: int): (r: Lists)
    requires key in lists && key2 in lists
    ensures r.Keys == lists.Keys
    ensures forall k :: k in lists && k != key && k != key2 ==> r[k] == lists[k]
    // an entry with an empty list never absorbs anything
    ensures lists[key] == [] ==> r == lists
    ensures !Absorbs(lists, key, key2) ==> r == lists
    ensures Absorbs(lists, key, key2) && key != key2 ==>
      && r[key2] == [] && Distinct(r[key])
      && Elems(r[key]) == Elems(lists[key]) + Elems(lists[key2]) + {key2}
  {
    if Absorbs(lists, key, key2) then
      var newList := lists[key2] + [key2];
      lists[key := Dedup(lists[key] + newList)][key2 := []]
    else
      lists
  }

  /** One pass of the inner loop, `key2` at index `j`: a missing key raises `KeyError`. */
  function AbsorbAt(lists: Lists, keys: seq<int>, i: int, j: int): (r: Outcome<Lists>)
    requires 0 <= i < j < |keys|
    ensures r.Fail? <==> keys[j] !in lists || keys[i] !in lists
    ensures r.Fail? ==> r.err == KeyError
    ensures r.Ok? ==> r.value == Absorb(lists, keys[i], keys[j])
  {
    if keys[j] !in lists || keys[i] !in lists then Fail(KeyError)
    else Ok(Absorb(lists, keys[i], keys[j]))
  }

  /** The inner loop for `key = keys[i]`, from `key2 = keys[j]` to the end. */
  function MergeInner(lists: Lists, keys: seq<int>, i: int, j: int): (r: Outcome<Lists>)
    requires 0 <= i < j <= |keys|
    decreases |keys| - j
    ensures r.Fail? <==> (exists t :: j <= t < |keys| && keys[t] !in lists) || (j < |keys| && keys[i] !in lists)
    ensures r.Fail? ==> r.err == KeyError
    ensures r.Ok? ==> r.value.Keys == lists.Keys
  {
    if j == |keys| then Ok(lists)
    else
      match AbsorbAt(lists, keys, i, j)
      case Fail(e) => Fail(e)
      case Ok(l) => MergeInner(l, keys, i, j + 1)
  }

  /** The outer loop from `key = keys[i]`; like `keys[:-1]`, it never starts from the last key. */
  function MergeOuter(lists: Lists, keys: seq<int>, i: nat): (r: Outcome<Lists>)
    decreases |keys| - i
    ensures r.Fail? <==> i < |keys| - 1 && exists t :: i <= t < |keys| && keys[t] !in lists
    ensures r.Fail? ==> r.err == KeyError
    ensures r.Ok? ==> r.value.Keys == lists.Keys
  {
    if i >= |keys| - 1 then Ok(lists)
    else
      match MergeInner(lists, keys, i, i + 1)
      case Fail(e) => Fail(e)
      case Ok(l) => MergeOuter(l, keys, i + 1)
  }

  // ---------------------------------------------------------------------------------------------
  // The final filter

  /** The keys of `order` whose lists are non-empty, in the same order. */
  function NonEmptyKeys(order: seq<int>, lists: Lists): (r: seq<int>)
    requires forall k :: k in order ==> k in lists
    ensures forall k :: k in r <==> k in order && lists[k] != []
  {
    if order == [] then []
    else
      var head := order[0];
      assert head in order && order == [head] + order[1..];
      var rest := NonEmptyKeys(order[1..], lists);
      if lists[head] != [] then [head] + rest else rest
  }

  /** Filtering keeps the keys distinct. */
  lemma {:induction false} NonEmptyKeysDistinct(order: seq<int>, lists: Lists)
    requires (forall k :: k in order ==> k in lists) && Distinct(order)
    ensures Distinct(NonEmptyKeys(order, lists))
  {
    if order != [] {
      var tail := order[1..];
      assert order == [order[0]] + tail;
      assert Distinct(tail) by {
        forall a, b | 0 <= a < b < |tail| ensures tail[a] != tail[b] {
          assert tail[a] == order[a + 1] && tail[b] == order[b + 1];
        }
      }
      NonEmptyKeysDistinct(tail, lists);
      assert order[0] !in tail by {
        forall t | 0 <= t < |tail| ensures tail[t] != order[0] {
          assert tail[t] == order[t + 1];
        }
      }
    }
  }

  /** Filtering keeps increasing keys increasing: the result follows the order of the input. */
  lemma {:induction false} NonEmptyKeysIncreasing(order: seq<int>, lists: Lists)
    requires (forall k :: k in order ==> k in lists) && Increasing(order)
    ensures Increasing(NonEmptyKeys(order, lists))
  {
    if order != [] {
      var tail := order[1..];
      assert order == [order[0]] + tail;
      assert Increasing(tail) by {
        forall a, b | 0 <= a < b < |tail| ensures tail[a] < tail[b] {
          assert tail[a] == order[a + 1] && tail[b] == order[b + 1];
        }
      }
      NonEmptyKeysIncreasing(tail, lists);
      var rest := NonEmptyKeys(tail, lists);
      var r := NonEmptyKeys(order, lists);
      if lists[order[0]] != [] {
        forall a, b | 0 <= a < b < |r| ensures r[a] < r[b] {
          assert r[b] == rest[b - 1] && r[b] in rest;
          if a > 0 {
            assert r[a] == rest[a - 1];
          } else {
            var t :| 0 <= t < |tail| && tail[t] == r[b];
            assert order[t + 1] == r[b];
          }
        }
      }
    }
  }

  /** `r` is `s` with some elements left out: the rest keep their relative order. */
  predicate Subsequence(r: seq<int>, s: seq<int>)
    decreases |s|
  {
    r == [] || (s != [] && ((r[0] == s[0] && Subsequence(r[1..], s[1..])) || Subsequence(r, s[1..])))
  }

  /** Filtering keeps the relative order of the surviving keys. */
  lemma {:induction false} NonEmptyKeysSubsequence(order: seq<int>, lists: Lists)
    requires forall k :: k in order ==> k in lists
    ensures Subsequence(NonEmptyKeys(order, lists), order)
  {
    if order != [] {
      var head, tail := order[0], order[1..];
      assert order == [head] + tail;
      assert head in lists;
      NonEmptyKeysSubsequence(tail, lists);
      var rest := NonEmptyKeys(tail, lists);
      if lists[head] != [] {
        SubsequenceKeep(head, rest, tail);
      } else {
        SubsequenceDrop(head, rest, tail);
      }
    }
  }

  lemma SubsequenceKeep(h: int, r: seq<int>, s: seq<int>)
    requires Subsequence(r, s)
    ensures Subsequence([h] + r, [h] + s)
  {
    assert ([h] + r)[1..] == r && ([h] + s)[1..] == s;
  }

  lemma SubsequenceDrop(h: int, r: seq<int>, s: seq<int>)
    requires Subsequence(r, s)
    ensures Subsequence(r, [h] + s)
  {
    assert ([h] + s)[1..] == s;
  }

  /** `{k: v for k, v in connect.items() if v}`: the non-empty entries, in the dict's key order. */
  function Compact(d: Dict): (r: Dict)
    requires d.Valid()
    ensures r.Valid()
    ensures forall k :: k in r.lists <==> k in d.lists && d.lists[k] != []
    ensures forall k :: k in r.lists ==> r.lists[k] == d.lists[k]
    ensures Increasing(d.order) ==> Increasing(r.order)
    // the surviving keys keep their relative order
    ensures Subsequence(r.order, d.order)
  {
    NonEmptyKeysDistinct(d.order, d.lists);
    NonEmptyKeysSubsequence(d.order, d.lists);
    assert Increasing(d.order) ==> Increasing(NonEmptyKeys(d.order, d.lists)) by {
      if Increasing(d.order) { NonEmptyKeysIncreasing(d.order, d.lists); }
    }
    Dict(NonEmptyKeys(d.order, d.lists), map k | k in d.lists && d.lists[k] != [] :: d.lists[k])
  }

  /** The whole of `images_composed(connect, keys)`. */
  function Composed(connect: Dict, keys: seq<int>): (r: Outcome<Dict>)
    requires connect.Valid()
    ensures r.Fail? ==> r.err == KeyError
    // the comprehension keeps only non-empty entries of existing keys, in the dict's insertion order
    ensures r.Ok? ==>
      && r.value.Valid() && Subsequence(r.value.order, connect.order)
      && forall k :: k in r.value.lists ==> k in connect.lists && r.value.lists[k] != []
  {
    match MergeOuter(connect.lists, keys, 0)
    case Fail(e) => Fail(e)
    case Ok(l) => Ok(Compact(Dict(connect.order, l)))
  }

  /**
   * `images_composed(connect, list_connections)`, on the dict as a value. `connect[key2]` is looked
   * up before `connect[key]`; both lookups raise `KeyError` on a missing key.
   */
  method ImagesComposed(connect: Dict, keys: seq<int>) returns (r: Outcome<Dict>)
    requires connect.Valid()
    ensures r == Composed(connect, keys)
  {
    var lists := connect.lists;
    var i := 0;
    while i < |keys| - 1
      invariant 0 <= i
      invariant MergeOuter(connect.lists, keys, 0) == MergeOuter(lists, keys, i)
    {
      var key := keys[i];
      ghost var start := lists;
      var j := i + 1;
      while j < |keys|
        invariant i < j <= |keys|
        invariant MergeInner(start, keys, i, i + 1) == MergeInner(lists, keys, i, j)
      {
        var key2 := keys[j];
        if key2 !in lists {
          r := Fail(KeyError);
          return;
        }
        var newList := lists[key2] + [key2];
        if key !in lists {
          r := Fail(KeyError);
          return;
        }
        if exists x :: x in newList && x in lists[key] {
          lists := lists[key := Dedup(lists[key] + newList)];
          lists := lists[key2 := []];
        }
        j := j + 1;
      }
      i := i + 1;
    }
    r := Ok(Compact(Dict(connect.order, lists)));
  }

  // ---------------------------------------------------------------------------------------------
  // Properties

  /** `images_composed` raises exactly when there are two keys or more and one of them is missing. */
  lemma ComposedFails(connect: Dict, keys: seq<int>)
    requires connect.Valid()
    ensures Composed(connect, keys).Fail? <==> |keys| >= 2 && exists k :: k in keys && k !in connect.lists
    ensures Composed(connect, keys).Fail? ==> Composed(connect, keys).err == KeyError
  {
    var r := MergeOuter(connect.lists, keys, 0);
    if exists k :: k in keys && k !in connect.lists {
      var k :| k in keys && k !in connect.lists;
      var t :| 0 <= t < |keys| && keys[t] == k;
    }
  }

  /** Label `m` is covered: it is the key, or a member, of an entry whose list is non-empty. */
  ghost predicate Covered(lists: Lists, m: int) {
    exists k :: k in lists && lists[k] != [] && (m == k || m in lists[k])
  }

  /** Absorbing one entry into another never loses a covered label, nor covers a new one. */
  lemma AbsorbCovers(lists: Lists, key: int, key2: int, m: int)
    requires key in lists && key2 in lists && key != key2
    ensures Covered(Absorb(lists, key, key2), m) <==> Covered(lists, m)
  {
    var r := Absorb(lists, key, key2);
    if Absorbs(lists, key, key2) {
      var x :| x in lists[key2] + [key2] && x in lists[key];
      assert lists[key] != [];
      assert x in Elems(r[key]);
      if Covered(lists, m) {
        var k :| k in lists && lists[k] != [] && (m == k || m in lists[k]);
        if k == key2 {
          assert m in Elems(r[key]);
        } else if k == key {
          assert m == key || m in Elems(r[key]);
        } else {
          assert r[k] == lists[k];
        }
      }
      if Covered(r, m) {
        var k :| k in r && r[k] != [] && (m == k || m in r[k]);
        if k == key {
          if m == key {
          } else if m in lists[key] {
          } else if m in lists[key2] {
            assert lists[key2] != [];
          } else {
            assert m in Elems(r[key]);
            assert m == key2 && lists[key2] != [];
          }
        } else {
          assert k != key2 && r[k] == lists[k];
        }
      }
    }
  }

  lemma {:induction false} MergeInnerCovers(lists: Lists, keys: seq<int>, i: int, j: int, m: int)
    requires Distinct(keys) && 0 <= i < j <= |keys|
    requires MergeInner(lists, keys, i, j).Ok?
    decreases |keys| - j
    ensures Covered(MergeInner(lists, keys, i, j).value, m) <==> Covered(lists, m)
  {
    if j < |keys| {
      var l := AbsorbAt(lists, keys, i, j).value;
      AbsorbCovers(lists, keys[i], keys[j], m);
      MergeInnerCovers(l, keys, i, j + 1, m);
    }
  }

  lemma {:induction false} MergeOuterCovers(lists: Lists, keys: seq<int>, i: nat, m: int)
    requires Distinct(keys)
    requires MergeOuter(lists, keys, i).Ok?
    decreases |keys| - i
    ensures Covered(MergeOuter(lists, keys, i).value, m) <==> Covered(lists, m)
  {
    if i < |keys| - 1 {
      var l := MergeInner(lists, keys, i, i + 1).value;
      MergeInnerCovers(lists, keys, i, i + 1, m);
      MergeOuterCovers(l, keys, i + 1, m);
    }
  }

  /**
   * A merge never loses a label: over distinct keys, a label is covered by a non-empty entry of the
   * result exactly when it was covered by a non-empty entry of the input.
   */
  lemma ComposedCovers(connect: Dict, keys: seq<int>, m: int)
    requires connect.Valid() && Distinct(keys) && Composed(connect, keys).Ok?
    ensures Covered(Composed(connect, keys).value.lists, m) <==> Covered(connect.lists, m)
  {
    MergeOuterCovers(connect.lists, keys, 0, m);
    var l := MergeOuter(connect.lists, keys, 0).value;
    var c := Compact(Dict(connect.order, l));
    if Covered(l, m) {
      var k :| k in l && l[k] != [] && (m == k || m in l[k]);
      assert k in c.lists;
    }
    if Covered(c.lists, m) {
      var k :| k in c.lists && c.lists[k] != [] && (m == k || m in c.lists[k]);
      assert k in l;
    }
  }

  /** The result keeps only non-empty entries, and keeps the key order of the input when it increases. */
  lemma ComposedShape(connect: Dict, keys: seq<int>)
    requires connect.Valid() && Composed(connect, keys).Ok?
    ensures var d := Composed(connect, keys).value;
      && d.Valid()
      && (forall k :: k in d.lists ==> k in connect.lists && d.lists[k] != [])
      && (Increasing(connect.order) ==> Increasing(d.order))
  {
  }

  /** Every member of every list lies in `s`. */
  ghost predicate MembersIn(lists: Lists, s: set<int>) {
    forall k, m :: k in lists && m in lists[k] ==> m in s
  }

  lemma {:induction false} MergeInnerMembers(lists: Lists, keys: seq<int>, i: int, j: int, s: set<int>)
    requires 0 <= i < j <= |keys| && MergeInner(lists, keys, i, j).Ok?
    requires MembersIn(lists, s) && forall t :: 0 <= t < |keys| ==> keys[t] in s
    decreases |keys| - j
    ensures MembersIn(MergeInner(lists, keys, i, j).value, s)
  {
    if j < |keys| {
      var l := AbsorbAt(lists, keys, i, j).value;
      var key, key2 := keys[i], keys[j];
      forall k, m | k in l && m in l[k] ensures m in s {
        if Absorbs(lists, key, key2) && k == key && k != key2 {
          assert m in Elems(l[key]);
        } else if Absorbs(lists, key, key2) && k == key2 {
        } else {
          assert l[k] == lists[k];
        }
      }
      MergeInnerMembers(l, keys, i, j + 1, s);
    }
  }

  lemma {:induction false} MergeOuterMembers(lists: Lists, keys: seq<int>, i: nat, s: set<int>)
    requires MergeOuter(lists, keys, i).Ok?
    requires MembersIn(lists, s) && forall t :: 0 <= t < |keys| ==> keys[t] in s
    decreases |keys| - i
    ensures MembersIn(MergeOuter(lists, keys, i).value, s)
  {
    if i < |keys| - 1 {
      MergeInnerMembers(lists, keys, i, i + 1, s);
      MergeOuterMembers(MergeInner(lists, keys, i, i + 1).value, keys, i + 1, s);
    }
  }

  /** The merge only moves labels around: members stay among the old members and the keys. */
  lemma ComposedMembers(connect: Dict, keys: seq<int>, s: set<int>)
    requires connect.Valid() && Composed(connect, keys).Ok?
    requires MembersIn(connect.lists, s) && forall t :: 0 <= t < |keys| ==> keys[t] in s
    ensures MembersIn(Composed(connect, keys).value.lists, s)
  {
    assert MergeOuter(connect.lists, keys, 0).Ok?;
    MergeOuterMembers(connect.lists, keys, 0, s);
  }
}
