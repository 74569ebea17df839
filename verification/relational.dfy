/** The relational operations the data layer's queries are made of: joins on
    a key column (`JOIN ... ON a.x = b.id`), `WHERE` and the select list.

    A joined row is built by `put`, which extends the left row with the matching
    right row, or with NULL when an outer join finds none. A NULL left key
    matches nothing, as `NULL = id` is never true. */
module Relational {
  import opened Nullable
  import opened Schema

  datatype JoinKind = Inner | LeftOuter

  /** The rows of `right` whose key is `k`, in order. */
  function Matching<R>(right: seq<R>, key: R -> int, k: Option<int>): (ms: seq<R>)
    ensures forall i :: 0 <= i < |ms| ==> ms[i] in right && k == Some(key(ms[i]))
    ensures ms == [] <==> forall i :: 0 <= i < |right| ==> k != Some(key(right[i]))
  {
    if right == [] then []
    else (if k == Some(key(right[0])) then [right[0]] else []) + Matching(right[1..], key, k)
  }

  /** One joined row per match. */
  function Extend<L, R>(l: L, ms: seq<R>, put: (L, Option<R>) -> L): (rows: seq<L>)
    ensures |rows| == |ms|
  {
    if ms == [] then [] else [put(l, Some(ms[0]))] + Extend(l, ms[1..], put)
  }

  /** The rows one left row contributes: one per match, or, for an outer join
      without a match, the left row extended with NULL. */
  function JoinOne<L, R>(kind: JoinKind, l: L, right: seq<R>, lkey: L -> Option<int>, rkey: R -> int,
                         put: (L, Option<R>) -> L): seq<L>
  {
    var ms := Matching(right, rkey, lkey(l));
    if ms == [] then (if kind == LeftOuter then [put(l, None)] else [])
    else Extend(l, ms, put)
  }

  /** `left [LEFT] JOIN right ON lkey(left) = rkey(right)`. */
  function Join<L, R>(kind: JoinKind, left: seq<L>, right: seq<R>, lkey: L -> Option<int>, rkey: R -> int,
                      put: (L, Option<R>) -> L): seq<L>
  {
    if left == [] then []
    else JoinOne(kind, left[0], right, lkey, rkey, put) + Join(kind, left[1..], right, lkey, rkey, put)
  }

  lemma KeysUniqueTail<R>(right: seq<R>, key: R -> int)
    requires |right| > 0 && KeysUnique(right, key)
    ensures KeysUnique(right[1..], key)
  {
    forall a, b | 0 <= a < b < |right[1..]|
      ensures key(right[1..][a]) != key(right[1..][b])
    {
      assert right[1..][a] == right[a + 1] && right[1..][b] == right[b + 1];
    }
  }

  /** On a key column, a join finds at most one row: the one `Find` finds. */
  lemma {:induction false} MatchingUnique<R>(right: seq<R>, key: R -> int, k: Option<int>)
    requires KeysUnique(right, key)
    ensures Matching(right, key, k) == (match Find(right, key, k) case None => [] case Some(r) => [r])
  {
    if right != [] {
      KeysUniqueTail(right, key);
      MatchingUnique(right[1..], key, k);
      if k == Some(key(right[0])) {
        forall i | 0 <= i < |right[1..]|
          ensures k != Some(key(right[1..][i]))
        {
          assert right[1..][i] == right[i + 1];
        }
        assert Matching(right[1..], key, k) == [];
      }
    }
  }

  /** A left row meets at most one row of a unique key, or NULL. */
  lemma LeftJoinOne<L, R>(l: L, right: seq<R>, lkey: L -> Option<int>, rkey: R -> int, put: (L, Option<R>) -> L)
    requires KeysUnique(right, rkey)
    ensures JoinOne(LeftOuter, l, right, lkey, rkey, put) == [put(l, Find(right, rkey, lkey(l)))]
  {
    MatchingUnique(right, rkey, lkey(l));
  }

  /** A left outer join on a unique key keeps every left row exactly once, in
      place, extended with the row that has its key or with NULL. */
  lemma {:induction false} LeftJoinOnKey<L, R>(left: seq<L>, right: seq<R>, lkey: L -> Option<int>, rkey: R -> int,
                                              put: (L, Option<R>) -> L)
    requires KeysUnique(right, rkey)
    ensures |Join(LeftOuter, left, right, lkey, rkey, put)| == |left|
    ensures forall i :: 0 <= i < |left| ==>
              Join(LeftOuter, left, right, lkey, rkey, put)[i] == put(left[i], Find(right, rkey, lkey(left[i])))
  {
    if left != [] {
      var head := put(left[0], Find(right, rkey, lkey(left[0])));
      LeftJoinOne(left[0], right, lkey, rkey, put);
      var tail := Join(LeftOuter, left[1..], right, lkey, rkey, put);
      LeftJoinOnKey(left[1..], right, lkey, rkey, put);
      assert Join(LeftOuter, left, right, lkey, rkey, put) == [head] + tail;
      forall i | 1 <= i < |left|
        ensures ([head] + tail)[i] == put(left[i], Find(right, rkey, lkey(left[i])))
      {
        assert left[1..][i - 1] == left[i];
      }
    }
  }

  /** The left rows whose key is found, each extended with the row found. */
  function InnerOnKey<L, R>(left: seq<L>, right: seq<R>, lkey: L -> Option<int>, rkey: R -> int,
                            put: (L, Option<R>) -> L): seq<L>
  {
    if left == [] then []
    else
      var found := Find(right, rkey, lkey(left[0]));
      (if found.Some? then [put(left[0], found)] else []) + InnerOnKey(left[1..], right, lkey, rkey, put)
  }

  /** An inner join on a unique key keeps exactly the left rows whose key is
      found, in order, each once, extended with the row found. */
  lemma {:induction false} InnerJoinOnKey<L, R>(left: seq<L>, right: seq<R>, lkey: L -> Option<int>, rkey: R -> int,
                                               put: (L, Option<R>) -> L)
    requires KeysUnique(right, rkey)
    ensures Join(Inner, left, right, lkey, rkey, put) == InnerOnKey(left, right, lkey, rkey, put)
  {
    if left != [] {
      MatchingUnique(right, rkey, lkey(left[0]));
      InnerJoinOnKey(left[1..], right, lkey, rkey, put);
    }
  }

  // ------------------------------------------------------ WHERE and SELECT

  /** `WHERE p`: the rows satisfying `p`, in order. */
  function Where<T>(rows: seq<T>, p: T -> bool): (r: seq<T>)
    ensures |r| <= |rows|
    ensures forall i :: 0 <= i < |r| ==> r[i] in rows && p(r[i])
    ensures forall i :: 0 <= i < |rows| && p(rows[i]) ==> rows[i] in r
  {
    if rows == [] then []
    else (if p(rows[0]) then [rows[0]] else []) + Where(rows[1..], p)
  }

  /** The select list: one output row per input row. */
  function Select<A, B>(rows: seq<A>, f: A -> B): (r: seq<B>)
    ensures |r| == |rows|
    ensures forall i :: 0 <= i < |rows| ==> r[i] == f(rows[i])
  {
    if rows == [] then [] else [f(rows[0])] + Select(rows[1..], f)
  }

  /** Filtering rows after a row-wise map is filtering by the composed test
      before it. */
  lemma {:induction false} WhereSelect<A, B>(rows: seq<A>, f: A -> B, p: B -> bool, q: A -> bool)
    requires forall x :: x in rows ==> q(x) == p(f(x))
    ensures Where(Select(rows, f), p) == Select(Where(rows, q), f)
  {
    if rows != [] {
      WhereSelect(rows[1..], f, p, q);
      assert Select(rows, f) == [f(rows[0])] + Select(rows[1..], f);
    }
  }

  /** Two tests that agree on every row select the same rows. */
  lemma {:induction false} WhereAgree<T>(rows: seq<T>, p: T -> bool, q: T -> bool)
    requires forall x :: x in rows ==> p(x) == q(x)
    ensures Where(rows, p) == Where(rows, q)
  {
    if rows != [] {
      WhereAgree(rows[1..], p, q);
    }
  }

  /** Two successive select lists are one. */
  lemma SelectSelect<A, B, C>(rows: seq<A>, f: A -> B, g: B -> C, h: A -> C)
    requires forall x :: x in rows ==> h(x) == g(f(x))
    ensures Select(Select(rows, f), g) == Select(rows, h)
  {
    assert |Select(Select(rows, f), g)| == |Select(rows, h)|;
  }
}
