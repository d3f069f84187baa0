/**
 * The meaning of the LINQ operators the aggregation needs defined: `GroupBy`
 * (groups in order of the first element of each key, elements in input order)
 * and the stable sorts `OrderBy` / `OrderByDescending`. `Where`, `FirstIndex`
 * and `SumOf` are not operators the analyzer calls: they name a group's
 * contents, the position of a key's first occurrence and a total in the
 * specifications. Keys of the sorts are integers, as every sort key of the
 * analyzer is.
 */
module Linq {

  /** One group of `GroupBy`: its key and the elements with that key, in input order. */
  datatype Grouping<K, T> = Grouping(key: K, elements: seq<T>)

  /** `s.Where(x => key(x) == k)`. */
  function Where<T, K(==)>(s: seq<T>, key: T -> K, k: K): (r: seq<T>)
    ensures |r| <= |s|
    ensures forall i :: 0 <= i < |r| ==> r[i] in s && key(r[i]) == k
    ensures forall i :: 0 <= i < |s| && key(s[i]) == k ==> s[i] in r
    decreases |s|
  {
    if s == [] then []
    else
      assert s == s[..|s| - 1] + [s[|s| - 1]];
      Where(s[..|s| - 1], key, k) + (if key(s[|s| - 1]) == k then [s[|s| - 1]] else [])
  }

  lemma {:induction false} WhereNone<T, K>(s: seq<T>, key: T -> K, k: K)
    requires forall x :: x in s ==> key(x) != k
    ensures Where(s, key, k) == []
  {
    if s != [] {
      assert forall x :: x in s[..|s| - 1] ==> x in s;
      WhereNone(s[..|s| - 1], key, k);
    }
  }

  /** The index of the first element whose key is `k`, or `|s|` when there is none. */
  function FirstIndex<T, K(==)>(s: seq<T>, key: T -> K, k: K): (i: nat)
    ensures i <= |s|
    ensures i < |s| ==> key(s[i]) == k
    ensures forall j :: 0 <= j < i ==> key(s[j]) != k
  {
    if s == [] then 0
    else if key(s[0]) == k then 0
    else 1 + FirstIndex(s[1..], key, k)
  }

  /** `s.Sum(f)`, with unbounded integers. */
  function SumOf<T>(s: seq<T>, f: T -> int): int
  {
    if s == [] then 0 else f(s[0]) + SumOf(s[1..], f)
  }

  /** The number of elements of a group, `g.Count()`. */
  function Size<K, T>(g: Grouping<K, T>): int
  {
    |g.elements|
  }

  /** The keys of a sequence of groups, in order. */
  function Keys<K, T>(gs: seq<Grouping<K, T>>): (ks: seq<K>)
    ensures |ks| == |gs|
    ensures forall i :: 0 <= i < |gs| ==> ks[i] == gs[i].key
  {
    seq(|gs|, i requires 0 <= i < |gs| => gs[i].key)
  }

  ghost predicate DistinctKeys<K, T>(gs: seq<Grouping<K, T>>)
  {
    forall i, j :: 0 <= i < j < |gs| ==> gs[i].key != gs[j].key
  }

  /** One step of `GroupBy`: `x`, whose key is `k`, joins the group for `k`, or opens a new last group. */
  function AddToGroups<K(==), T>(gs: seq<Grouping<K, T>>, k: K, x: T): seq<Grouping<K, T>>
  {
    if gs == [] then [Grouping(k, [x])]
    else if gs[0].key == k then [Grouping(k, gs[0].elements + [x])] + gs[1..]
    else [gs[0]] + AddToGroups(gs[1..], k, x)
  }

  /** `s.GroupBy(key)`, built element by element in input order. */
  function GroupBy<T, K(==)>(s: seq<T>, key: T -> K): seq<Grouping<K, T>>
  {
    if s == [] then []
    else AddToGroups(GroupBy(s[..|s| - 1], key), key(s[|s| - 1]), s[|s| - 1])
  }

  lemma {:induction false} AddToGroupsExisting<K, T>(gs: seq<Grouping<K, T>>, k: K, x: T)
    requires DistinctKeys(gs)
    requires k in Keys(gs)
    ensures var r := AddToGroups(gs, k, x);
      && |r| == |gs|
      && (forall i :: 0 <= i < |gs| ==> r[i].key == gs[i].key)
      && (forall i :: 0 <= i < |gs| ==>
            r[i].elements == if gs[i].key == k then gs[i].elements + [x] else gs[i].elements)
  {
    if gs[0].key != k {
      assert k in Keys(gs[1..]) by {
        var i :| 0 <= i < |gs| && Keys(gs)[i] == k;
        assert i != 0;
        assert Keys(gs[1..])[i - 1] == k;
      }
      AddToGroupsExisting(gs[1..], k, x);
    }
  }

  lemma AddToGroupsNew<K, T>(gs: seq<Grouping<K, T>>, k: K, x: T)
    requires k !in Keys(gs)
    ensures AddToGroups(gs, k, x) == gs + [Grouping(k, [x])]
  {
    if gs != [] {
      assert gs[0].key == Keys(gs)[0];
      assert forall i :: 0 <= i < |gs| - 1 ==> Keys(gs[1..])[i] == Keys(gs)[i + 1];
      AddToGroupsNew(gs[1..], k, x);
    }
  }

  lemma {:induction false} AddToGroupsSize<K, T>(gs: seq<Grouping<K, T>>, k: K, x: T)
    ensures SumOf(AddToGroups(gs, k, x), Size) == SumOf(gs, Size) + 1
  {
    if gs != [] && gs[0].key != k {
      AddToGroupsSize(gs[1..], k, x);
    }
  }

  lemma FirstIndexSnoc<T, K>(s: seq<T>, key: T -> K, k: K)
    requires s != []
    ensures var p := s[..|s| - 1];
      FirstIndex(s, key, k) ==
        if FirstIndex(p, key, k) < |p| then FirstIndex(p, key, k)
        else if key(s[|s| - 1]) == k then |p| else |s|
  {
    var p := s[..|s| - 1];
    var ip := FirstIndex(p, key, k);
    if ip < |p| {
      assert s[ip] == p[ip];
    }
  }

  lemma {:induction false} GroupByDistinct<T, K>(s: seq<T>, key: T -> K)
    ensures DistinctKeys(GroupBy(s, key))
  {
    if s != [] {
      var p, x := s[..|s| - 1], s[|s| - 1];
      var gp := GroupBy(p, key);
      GroupByDistinct(p, key);
      if key(x) in Keys(gp) {
        AddToGroupsExisting(gp, key(x), x);
      } else {
        AddToGroupsNew(gp, key(x), x);
        assert forall i :: 0 <= i < |gp| ==> gp[i].key == Keys(gp)[i];
      }
    }
  }

  /** Each group holds exactly the elements of `s` with its key, in order. */
  ghost predicate GroupsOf<T, K>(s: seq<T>, key: T -> K, gs: seq<Grouping<K, T>>)
  {
    forall i :: 0 <= i < |gs| ==> gs[i].elements == Where(s, key, gs[i].key)
  }

  lemma {:induction false} GroupByElements<T, K>(s: seq<T>, key: T -> K)
    ensures GroupsOf(s, key, GroupBy(s, key))
  {
    if s != [] {
      var p, x := s[..|s| - 1], s[|s| - 1];
      var gp, gs := GroupBy(p, key), GroupBy(s, key);
      GroupByDistinct(p, key);
      GroupByElements(p, key);
      assert GroupsOf(p, key, gp);
      if key(x) in Keys(gp) {
        AddToGroupsExisting(gp, key(x), x);
        assert gs == AddToGroups(gp, key(x), x);
        forall i | 0 <= i < |gs| ensures gs[i].elements == Where(s, key, gs[i].key) {
          assert gs[i].key == gp[i].key;
          assert Where(s, key, gp[i].key)
              == Where(p, key, gp[i].key) + (if key(x) == gp[i].key then [x] else []);
        }
      } else {
        AddToGroupsNew(gp, key(x), x);
        assert Where(p, key, key(x)) == [] by {
          GroupByCovers(p, key);
          WhereNone(p, key, key(x));
        }
        forall i | 0 <= i < |gs| ensures gs[i].elements == Where(s, key, gs[i].key) {
          if i < |gp| {
            assert gp[i].key == Keys(gp)[i];
            assert Where(s, key, gp[i].key) == Where(p, key, gp[i].key);
          } else {
            assert Where(s, key, key(x)) == [x];
          }
        }
      }
    }
  }

  lemma {:induction false} GroupByCovers<T, K>(s: seq<T>, key: T -> K)
    ensures var gs := GroupBy(s, key);
      forall x :: x in s ==> key(x) in Keys(gs)
  {
    if s != [] {
      var p, x := s[..|s| - 1], s[|s| - 1];
      assert s == p + [x];
      var gp := GroupBy(p, key);
      var gs := GroupBy(s, key);
      GroupByDistinct(p, key);
      GroupByCovers(p, key);
      if key(x) in Keys(gp) {
        AddToGroupsExisting(gp, key(x), x);
        assert Keys(gs) == Keys(gp);
      } else {
        AddToGroupsNew(gp, key(x), x);
        assert Keys(gs) == Keys(gp) + [key(x)];
      }
    }
  }

  /** The groups' keys all occur in `s`, in the order of their first occurrences. */
  ghost predicate InFirstOccurrenceOrder<T, K>(s: seq<T>, key: T -> K, gs: seq<Grouping<K, T>>)
  {
    && (forall i :: 0 <= i < |gs| ==> FirstIndex(s, key, gs[i].key) < |s|)
    && (forall i, j :: 0 <= i < j < |gs| ==>
          FirstIndex(s, key, gs[i].key) < FirstIndex(s, key, gs[j].key))
  }

  lemma {:induction false} GroupByOrder<T, K>(s: seq<T>, key: T -> K)
    ensures InFirstOccurrenceOrder(s, key, GroupBy(s, key))
  {
    if s != [] {
      var p, x := s[..|s| - 1], s[|s| - 1];
      var gp, gs := GroupBy(p, key), GroupBy(s, key);
      GroupByDistinct(p, key);
      GroupByOrder(p, key);
      assert InFirstOccurrenceOrder(p, key, gp);
      forall i | 0 <= i < |gp| ensures FirstIndex(s, key, gp[i].key) == FirstIndex(p, key, gp[i].key) {
        FirstIndexSnoc(s, key, gp[i].key);
      }
      if key(x) in Keys(gp) {
        AddToGroupsExisting(gp, key(x), x);
      } else {
        AddToGroupsNew(gp, key(x), x);
        FirstIndexSnoc(s, key, key(x));
        GroupByCovers(p, key);
        assert FirstIndex(p, key, key(x)) == |p|;
        assert forall i :: 0 <= i < |gp| ==> gp[i].key == Keys(gp)[i];
      }
    }
  }

  lemma {:induction false} GroupBySize<T, K>(s: seq<T>, key: T -> K)
    ensures SumOf(GroupBy(s, key), Size) == |s|
  {
    if s != [] {
      GroupBySize(s[..|s| - 1], key);
      AddToGroupsSize(GroupBy(s[..|s| - 1], key), key(s[|s| - 1]), s[|s| - 1]);
    }
  }

  /**
   * What `GroupBy` yields: one group per distinct key of the input, the groups
   * ordered by where their key first occurs, each holding exactly the elements
   * with its key in input order; the group sizes add up to the input length.
   */
  lemma GroupByFacts<T, K>(s: seq<T>, key: T -> K)
    ensures var gs := GroupBy(s, key);
      && DistinctKeys(gs)
      && GroupsOf(s, key, gs)
      && InFirstOccurrenceOrder(s, key, gs)
      && (forall i :: 0 <= i < |gs| ==> gs[i].elements != [])
      && (forall x :: x in s ==> key(x) in Keys(gs))
      && SumOf(gs, Size) == |s|
  {
    var gs := GroupBy(s, key);
    GroupByDistinct(s, key);
    GroupByElements(s, key);
    GroupByOrder(s, key);
    GroupByCovers(s, key);
    GroupBySize(s, key);
    forall i | 0 <= i < |gs| ensures gs[i].elements != [] {
      var f := FirstIndex(s, key, gs[i].key);
      assert f < |s|;
      assert s[f] in Where(s, key, gs[i].key);
    }
  }

  /** The keys of a sequence of groups, as a set. */
  ghost function KeyValues<K, T>(gs: seq<Grouping<K, T>>): set<K>
  {
    set g | g in gs :: g.key
  }

  lemma KeyValuesCons<K, T>(gs: seq<Grouping<K, T>>)
    requires gs != []
    ensures KeyValues(gs) == KeyValues(gs[1..]) + {gs[0].key}
  {
  }

  lemma DistinctKeysTail<K, T>(gs: seq<Grouping<K, T>>)
    requires gs != [] && DistinctKeys(gs)
    ensures DistinctKeys(gs[1..])
    ensures gs[0].key !in KeyValues(gs[1..])
  {
  }

  /** Groups with distinct keys have as many keys as groups. */
  lemma {:induction false} DistinctKeysCard<K, T>(gs: seq<Grouping<K, T>>)
    requires DistinctKeys(gs)
    ensures |KeyValues(gs)| == |gs|
  {
    if gs != [] {
      DistinctKeysTail(gs);
      DistinctKeysCard(gs[1..]);
      KeyValuesCons(gs);
    }
  }

  /** The distinct keys of `s`. */
  ghost function KeySet<T, K>(s: seq<T>, key: T -> K): set<K>
  {
    set x | x in s :: key(x)
  }

  /** `GroupBy` makes one group per distinct key of the input. */
  lemma GroupByCount<T, K>(s: seq<T>, key: T -> K)
    ensures |GroupBy(s, key)| == |KeySet(s, key)|
  {
    var gs := GroupBy(s, key);
    GroupByFacts(s, key);
    DistinctKeysCard(gs);
    var ks := KeyValues(gs);
    forall k | k in ks ensures k in KeySet(s, key) {
      var g :| g in gs && g.key == k;
      var i :| 0 <= i < |gs| && gs[i] == g;
      assert GroupsOf(s, key, gs);
      assert g.elements[0] in s;
    }
    forall x | x in s ensures key(x) in ks {
      var i :| 0 <= i < |gs| && Keys(gs)[i] == key(x);
      assert gs[i] in gs;
    }
    assert ks == KeySet(s, key);
  }

  /** Stable insertion: `x` goes after every element whose key is at most its own. */
  function Insert<T>(x: T, r: seq<T>, key: T -> int): (t: seq<T>)
    ensures |t| == |r| + 1
    ensures multiset(t) == multiset(r) + multiset{x}
  {
    if r == [] then [x]
    else if key(x) < key(r[0]) then [x] + r
    else
      assert r == [r[0]] + r[1..];
      [r[0]] + Insert(x, r[1..], key)
  }

  /** `s.OrderBy(key)`: a stable sort, ascending by `key`. */
  function OrderBy<T>(s: seq<T>, key: T -> int): (r: seq<T>)
    ensures |r| == |s|
    ensures multiset(r) == multiset(s)
  {
    if s == [] then []
    else
      assert s == s[..|s| - 1] + [s[|s| - 1]];
      Insert(s[|s| - 1], OrderBy(s[..|s| - 1], key), key)
  }

  /** The opposite key: ascending by it is descending by `key`. */
  function Negated<T>(key: T -> int): T -> int
  {
    x => -key(x)
  }

  /** `s.OrderByDescending(key)`: a stable sort, descending by `key`. */
  function OrderByDescending<T>(s: seq<T>, key: T -> int): (r: seq<T>)
    ensures |r| == |s|
    ensures multiset(r) == multiset(s)
  {
    OrderBy(s, Negated(key))
  }

  /** `a` comes before `b` when its key is smaller, or equal with a smaller rank. */
  ghost predicate Precedes<T>(a: T, b: T, key: T -> int, rank: T -> int)
  {
    key(a) < key(b) || (key(a) == key(b) && rank(a) < rank(b))
  }

  /** Sorted by `key`, ties ordered by `rank`. */
  ghost predicate SortedBy<T>(s: seq<T>, key: T -> int, rank: T -> int)
  {
    forall i, j :: 0 <= i < j < |s| ==> Precedes(s[i], s[j], key, rank)
  }

  /** `rank` grows strictly along `s`: it numbers the elements in input order. */
  ghost predicate Increasing<T>(s: seq<T>, rank: T -> int)
  {
    forall i, j :: 0 <= i < j < |s| ==> rank(s[i]) < rank(s[j])
  }

  lemma {:induction false} InsertSorted<T>(x: T, r: seq<T>, key: T -> int, rank: T -> int)
    requires SortedBy(r, key, rank)
    requires forall y :: y in r ==> rank(y) < rank(x)
    ensures SortedBy(Insert(x, r, key), key, rank)
  {
    if r != [] && key(x) >= key(r[0]) {
      var t := Insert(x, r[1..], key);
      InsertSorted(x, r[1..], key, rank);
      assert Insert(x, r, key) == [r[0]] + t;
      forall j | 0 <= j < |t| ensures Precedes(r[0], t[j], key, rank) {
        assert t[j] in multiset(t);
        if t[j] != x {
          assert t[j] in r[1..];
          var m :| 0 <= m < |r[1..]| && r[1..][m] == t[j];
          assert r[m + 1] == t[j];
        }
      }
    }
  }

  /**
   * Stability of `OrderBy`: when `rank` numbers the input in order, the result is
   * sorted by key and elements with equal keys keep their input order.
   */
  lemma {:induction false} OrderByStable<T>(s: seq<T>, key: T -> int, rank: T -> int)
    requires Increasing(s, rank)
    ensures SortedBy(OrderBy(s, key), key, rank)
  {
    if s != [] {
      var p, x := s[..|s| - 1], s[|s| - 1];
      OrderByStable(p, key, rank);
      forall y | y in OrderBy(p, key) ensures rank(y) < rank(x) {
        assert y in multiset(OrderBy(p, key));
        var m :| 0 <= m < |p| && p[m] == y;
        assert s[m] == y;
      }
      InsertSorted(x, OrderBy(p, key), key, rank);
    }
  }

  /**
   * Stability of `OrderByDescending`: keys do not increase along the result, and
   * elements with equal keys keep their input order.
   */
  lemma OrderByDescendingStable<T>(s: seq<T>, key: T -> int, rank: T -> int)
    requires Increasing(s, rank)
    ensures var r := OrderByDescending(s, key);
      forall i, j :: 0 <= i < j < |r| ==>
        key(r[i]) > key(r[j]) || (key(r[i]) == key(r[j]) && rank(r[i]) < rank(r[j]))
  {
    var neg := Negated(key);
    OrderByStable(s, neg, rank);
    var r := OrderBy(s, neg);
    forall i, j | 0 <= i < j < |r|
      ensures key(r[i]) > key(r[j]) || (key(r[i]) == key(r[j]) && rank(r[i]) < rank(r[j]))
    {
      assert Precedes(r[i], r[j], neg, rank);
    }
  }

  lemma {:induction false} InsertSum<T>(x: T, r: seq<T>, key: T -> int, f: T -> int)
    ensures SumOf(Insert(x, r, key), f) == f(x) + SumOf(r, f)
  {
    if r != [] && key(x) >= key(r[0]) {
      InsertSum(x, r[1..], key, f);
    }
  }

  lemma {:induction false} SumOfSnoc<T>(s: seq<T>, x: T, f: T -> int)
    ensures SumOf(s + [x], f) == SumOf(s, f) + f(x)
  {
    if s != [] {
      assert (s + [x])[1..] == s[1..] + [x];
      SumOfSnoc(s[1..], x, f);
    }
  }

  lemma SumOfLast<T>(s: seq<T>, f: T -> int)
    requires s != []
    ensures SumOf(s, f) == SumOf(s[..|s| - 1], f) + f(s[|s| - 1])
  {
    assert s == s[..|s| - 1] + [s[|s| - 1]];
    SumOfSnoc(s[..|s| - 1], s[|s| - 1], f);
  }

  /** Sorting does not change a sum over the elements. */
  lemma {:induction false} OrderBySum<T>(s: seq<T>, key: T -> int, f: T -> int)
    ensures SumOf(OrderBy(s, key), f) == SumOf(s, f)
  {
    if s != [] {
      var p, x := s[..|s| - 1], s[|s| - 1];
      assert OrderBy(s, key) == Insert(x, OrderBy(p, key), key);
      OrderBySum(p, key, f);
      InsertSum(x, OrderBy(p, key), key, f);
      SumOfLast(s, f);
    }
  }

  /** Sorting descending does not change a sum over the elements either. */
  lemma OrderByDescendingSum<T>(s: seq<T>, key: T -> int, f: T -> int)
    ensures SumOf(OrderByDescending(s, key), f) == SumOf(s, f)
  {
    OrderBySum(s, Negated(key), f);
  }

  /** Two sums agree when their terms agree position by position. */
  lemma {:induction false} SumOfPointwise<T, U>(a: seq<T>, f: T -> int, b: seq<U>, g: U -> int)
    requires |a| == |b|
    requires forall i :: 0 <= i < |a| ==> f(a[i]) == g(b[i])
    ensures SumOf(a, f) == SumOf(b, g)
  {
    if a != [] {
      SumOfPointwise(a[1..], f, b[1..], g);
    }
  }
}
