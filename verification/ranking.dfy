/** The order getTopStudents produces. Array.prototype.sort is stable (ECMA-262,
    2019 edition onward), so sorting by descending average with the comparator
    b - a puts a higher average first and keeps list order among equal averages.
    The model ranks list positions: position i goes before position j when its
    key is higher, or equal and i < j. */
module Ranking {

  /** Position i is placed before position j. */
  predicate Precedes(keys: seq<real>, i: nat, j: nat)
    requires i < |keys| && j < |keys|
  {
    keys[i] > keys[j] || (keys[i] == keys[j] && i < j)
  }

  /** Every entry of r is a position of keys. */
  predicate InRange(keys: seq<real>, r: seq<nat>)
  {
    forall a :: 0 <= a < |r| ==> r[a] < |keys|
  }

  /** r lists positions in the order the stable sort leaves them. */
  predicate RankedBy(keys: seq<real>, r: seq<nat>)
    requires InRange(keys, r)
  {
    forall a, b :: 0 <= a < b < |r| ==> Precedes(keys, r[a], r[b])
  }

  /** r holds each position of keys exactly once. */
  predicate IsArrangement(keys: seq<real>, r: seq<nat>)
  {
    && |r| == |keys|
    && InRange(keys, r)
    && (forall x :: 0 <= x < |keys| ==> x in r)
  }

  /** One step of insertion: place position i into a ranked list. */
  function Insert(keys: seq<real>, i: nat, ranked: seq<nat>): (r: seq<nat>)
    requires i < |keys| && InRange(keys, ranked) && RankedBy(keys, ranked) && i !in ranked
    ensures |r| == |ranked| + 1
    ensures forall x :: x in r <==> x == i || x in ranked
    ensures InRange(keys, r) && RankedBy(keys, r)
  {
    if ranked == [] then [i]
    else if Precedes(keys, i, ranked[0]) then [i] + ranked
    else
      var tail := Insert(keys, i, ranked[1..]);
      assert forall b :: 0 <= b < |tail| ==> Precedes(keys, ranked[0], tail[b]) by {
        forall b | 0 <= b < |tail| ensures Precedes(keys, ranked[0], tail[b]) {
          assert tail[b] in tail;
          if tail[b] != i {
            var c :| 0 <= c < |ranked[1..]| && ranked[1..][c] == tail[b];
            assert ranked[c + 1] == tail[b];
          }
        }
      }
      [ranked[0]] + tail
  }

  /** The positions 0 .. k-1 in ranked order. */
  function RankPrefix(keys: seq<real>, k: nat): (r: seq<nat>)
    requires k <= |keys|
    ensures |r| == k && InRange(keys, r) && RankedBy(keys, r)
    ensures forall x: nat :: x in r <==> x < k
  {
    if k == 0 then []
    else Insert(keys, k - 1, RankPrefix(keys, k - 1))
  }

  /** The stable descending sort of all positions. */
  function Rank(keys: seq<real>): (r: seq<nat>)
    ensures IsArrangement(keys, r) && RankedBy(keys, r)
  {
    RankPrefix(keys, |keys|)
  }

  /** Two ranked lists over the same positions are the same list. */
  lemma {:induction false} RankedUnique(keys: seq<real>, r: seq<nat>, s: seq<nat>)
    requires InRange(keys, r) && RankedBy(keys, r)
    requires InRange(keys, s) && RankedBy(keys, s)
    requires |r| == |s| && forall x :: x in r <==> x in s
    ensures r == s
    decreases |r|
  {
    if r != [] {
      assert r[0] in s && s[0] in r;
      assert r[0] == s[0];
      forall x ensures x in r[1..] <==> x in s[1..] {
        if x in r[1..] {
          var a :| 1 <= a < |r| && r[a] == x;
          assert Precedes(keys, r[0], r[a]);
          assert x in s;
          var b :| 0 <= b < |s| && s[b] == x;
          assert b != 0;
          assert s[1..][b - 1] == x;
        }
        if x in s[1..] {
          var b :| 1 <= b < |s| && s[b] == x;
          assert Precedes(keys, s[0], s[b]);
          assert x in r;
          var a :| 0 <= a < |r| && r[a] == x;
          assert a != 0;
          assert r[1..][a - 1] == x;
        }
      }
      RankedUnique(keys, r[1..], s[1..]);
    }
  }

  /** The ranking is characterised by its two properties: any arrangement of the
      positions that respects the order is exactly Rank(keys). */
  lemma {:induction false} RankUnique(keys: seq<real>, r: seq<nat>)
    requires IsArrangement(keys, r) && RankedBy(keys, r)
    ensures r == Rank(keys)
  {
    var s := Rank(keys);
    forall x ensures x in r <==> x in s {
      if x in r {
        var a :| 0 <= a < |r| && r[a] == x;
      }
      if x in s {
        var b :| 0 <= b < |s| && s[b] == x;
      }
    }
    RankedUnique(keys, r, s);
  }

  /** Array.prototype.slice(0, n) on a list of length len: where it stops.
      A negative n counts back from the end. */
  function SliceEnd(n: int, len: nat): (e: nat)
    ensures e <= len
    ensures 0 <= n ==> e == if n < len then n else len
    ensures n < 0 ==> e == if len + n < 0 then 0 else len + n
  {
    if n < 0 then (if len + n < 0 then 0 else len + n)
    else if n < len then n
    else len
  }

  /** The positions getTopStudents(n) returns: the first entries of the ranking. */
  function Top(keys: seq<real>, n: int): (r: seq<nat>)
    ensures |r| == SliceEnd(n, |keys|) && InRange(keys, r) && RankedBy(keys, r)
    ensures r == Rank(keys)[..|r|]
  {
    Rank(keys)[..SliceEnd(n, |keys|)]
  }

  /** Every position Top leaves out is outranked by every position it takes:
      a higher key, or an equal key and a later position. */
  lemma {:induction false} TopOutranksRest(keys: seq<real>, n: int, a: nat, j: nat)
    requires a < |Top(keys, n)| && j < |keys| && j !in Top(keys, n)
    ensures Precedes(keys, Top(keys, n)[a], j)
  {
    var full := Rank(keys);
    var t := Top(keys, n);
    assert j in full;
    var p :| 0 <= p < |full| && full[p] == j;
    assert p >= |t|;
    assert t[a] == full[a];
  }

  /** Averages 50, 90, 90, 70, 30 (students A to E in list order): the top three
      are B, C, D, with the tie between B and C kept in list order. */
  lemma TopThreeExample()
    ensures Top([50.0, 90.0, 90.0, 70.0, 30.0], 3) == [1, 2, 3]
  {
    var keys := [50.0, 90.0, 90.0, 70.0, 30.0];
    var r: seq<nat> := [1, 2, 3, 0, 4];
    assert forall x :: 0 <= x < 5 ==> x in r by {
      assert r[0] == 1 && r[1] == 2 && r[2] == 3 && r[3] == 0 && r[4] == 4;
    }
    RankUnique(keys, r);
    assert r[..3] == [1, 2, 3];
  }
}
