/** The `connection` dictionary: labels mapped to lists of labels, with Python's insertion order. */
module Dicts {
  import opened Seqs

  /** The values of the dict: each label's list of labels. */
  type Lists = map<int, seq<int>>

  /** `order` lists the keys in insertion order; `lists` holds the value of every key. */
  datatype Dict = Dict(order: seq<int>, lists: Lists) {

    /** What every Python dict satisfies: each key occurs once in the iteration order. */
    ghost predicate Valid() {
      Distinct(order) && forall k :: k in lists <==> k in order
    }

    /** `d[k] = v`: an existing key keeps its position, a new key goes to the end. */
    function Put(k: int, v: seq<int>): (d: Dict)
      requires Valid()
      ensures d.Valid() && d.lists == lists[k := v]
      ensures d.order == if k in lists then order else order + [k]
    {
      if k in lists then Dict(order, lists[k := v]) else Dict(order + [k], lists[k := v])
    }

    /** `d[k].append(m)` on a key that exists. */
    function Append(k: int, m: int): (d: Dict)
      requires Valid() && k in lists
      ensures d.Valid() && d.order == order
      ensures d.lists.Keys == lists.Keys && d.lists[k] == lists[k] + [m]
      ensures forall k' :: k' in lists && k' != k ==> d.lists[k'] == lists[k']
    {
      Dict(order, lists[k := lists[k] + [m]])
    }
  }

  function Empty(): (d: Dict)
    ensures d.Valid() && d.order == [] && d.lists == map[]
  {
    Dict([], map[])
  }
}
