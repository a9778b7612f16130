/** The order in which a table scan yields rows: ascending primary key. */
module KeyOrder {
  import opened Entities

  /** A sequence of keys in strictly increasing order. */
  ghost predicate Increasing(ks: seq<Key>)
  {
    forall i, j :: 0 <= i < j < |ks| ==> ks[i] < ks[j]
  }

  /** A finite non-empty set of keys has a least element. */
  lemma {:induction false} LeastExists(s: set<Key>)
    requires s != {}
    ensures exists m :: m in s && forall x :: x in s ==> m <= x
    decreases |s|
  {
    var y := PickOne(s);
    if s == {y} {
      assert forall x :: x in s ==> y <= x;
    } else {
      var rest := s - {y};
      assert rest != {} by {
        if rest == {} {
          assert false;
        }
      }
      LeastExists(rest);
      var m :| m in rest && forall x :: x in rest ==> m <= x;
      var least := if y < m then y else m;
      assert forall x :: x in s ==> x == y || x in rest;
      assert least in s && forall x :: x in s ==> least <= x;
    }
  }

  /** Some element of a non-empty set. */
  lemma PickOne<T>(s: set<T>) returns (y: T)
    requires s != {}
    ensures y in s
  {
    if forall x :: x !in s {
      assert false;
    }
    y :| y in s;
  }

  /** The least key of a non-empty set. */
  function Least(s: set<Key>): (m: Key)
    requires s != {}
    ensures m in s && forall x :: x in s ==> m <= x
  {
    LeastExists(s);
    var m :| m in s && forall x :: x in s ==> m <= x;
    m
  }

  /** The keys of the table in ascending order: the order a table scan yields its rows. */
  function SortedKeys(s: set<Key>): (ks: seq<Key>)
    ensures forall k :: k in ks <==> k in s
    ensures Increasing(ks)
    decreases |s|
  {
    if s == {} then [] else [Least(s)] + SortedKeys(s - {Least(s)})
  }

  /** Each key of the set appears exactly once. */
  lemma {:induction false} SortedKeysLength(s: set<Key>)
    ensures |SortedKeys(s)| == |s|
    decreases |s|
  {
    if s != {} {
      SortedKeysLength(s - {Least(s)});
    }
  }

  /** The position of `k` in `ks`. */
  function IndexOf(ks: seq<Key>, k: Key): (i: nat)
    requires k in ks
    ensures i < |ks| && ks[i] == k
  {
    if ks[0] == k then 0 else 1 + IndexOf(ks[1..], k)
  }

  lemma SubsetCard(a: set<Key>, b: set<Key>)
    requires a <= b
    ensures |a| <= |b|
  {
    assert b == a + (b - a);
  }
}
