/** The order in which `Object.values` lists a plain object whose keys are all
    array indices: ascending numeric order, whatever the insertion order. */
module ObjectKeys {

  /** An array index: a key below 2^32 - 1, which objects list before any other
      key, in ascending numeric order. */
  type Index = k: nat | k < 0xFFFF_FFFF

  predicate StrictlyAscending(ks: seq<Index>) {
    forall i, j :: 0 <= i < j < |ks| ==> ks[i] < ks[j]
  }

  /** Every non-empty set of naturals has a least element. */
  lemma {:induction false} LeastExists(s: set<nat>)
    requires s != {}
    ensures exists m :: m in s && forall x :: x in s ==> m <= x
  {
    var y :| y in s;
    if s - {y} == {} {
      forall x | x in s ensures y <= x {
        assert x !in s - {y};
      }
      assert y in s && forall x :: x in s ==> y <= x;
    } else {
      LeastExists(s - {y});
      var m :| m in s - {y} && forall x :: x in s - {y} ==> m <= x;
      var least := if y < m then y else m;
      forall x | x in s ensures least <= x {
        if x != y {
          assert x in s - {y};
        }
      }
      assert least in s && forall x :: x in s ==> least <= x;
    }
  }

  /** The least element of a non-empty set of array indices. */
  function Least(s: set<Index>): (m: Index)
    requires s != {}
    ensures m in s && forall x :: x in s ==> m <= x
  {
    LeastExists(s);
    var m :| m in s && forall x :: x in s ==> m <= x;
    m
  }

  /** The keys of an object in the order `Object.values` visits them. */
  function SortedKeys(s: set<Index>): (ks: seq<Index>)
    ensures StrictlyAscending(ks)
    ensures forall k :: k in ks <==> k in s
    ensures |ks| == |s|
    decreases |s|
  {
    if s == {} then []
    else
      var m := Least(s);
      [m] + SortedKeys(s - {m})
  }

  /** Two strictly ascending sequences with the same elements are equal. */
  lemma {:induction false} AscendingUnique(a: seq<Index>, b: seq<Index>)
    requires StrictlyAscending(a) && StrictlyAscending(b)
    requires forall k :: k in a <==> k in b
    ensures a == b
  {
    assert a != [] ==> a[0] in b;
    assert b != [] ==> b[0] in a;
    if a != [] && b != [] {
      assert a[0] == b[0];
      forall k
        ensures k in a[1..] <==> k in b[1..]
      {
        if k in a[1..] {
          assert k in a && k != a[0];
        }
        if k in b[1..] {
          assert k in b && k != b[0];
        }
      }
      AscendingUnique(a[1..], b[1..]);
    }
  }

  /** `Object.values(m)` for an object whose keys are the array indices in `m`. */
  function ObjectValues<V>(m: map<Index, V>): seq<V> {
    var ks := SortedKeys(m.Keys);
    seq(|ks|, i requires 0 <= i < |ks| => m[ks[i]])
  }
}
