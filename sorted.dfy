/** Strictly ascending integer sequences: the shape of an in-order traversal of a
    duplicate-free binary search tree. */
module SortedSeqs {

  /** Every element is smaller than every later one. */
  ghost predicate Increasing(s: seq<int>) {
    forall i, j :: 0 <= i < j < |s| ==> s[i] < s[j]
  }

  /** The set of elements of a sequence. */
  ghost function Elems(s: seq<int>): set<int> {
    set x | x in s
  }

  /** Placing `e` between a prefix of smaller and a suffix of larger elements keeps
      the sequence ascending, and adds exactly `e` to its elements. */
  lemma InsertKeepsIncreasing(p: seq<int>, e: int, s: seq<int>)
    requires Increasing(p + s)
    requires forall x :: x in p ==> x < e
    requires forall x :: x in s ==> e < x
    ensures Increasing(p + [e] + s)
    ensures Elems(p + [e] + s) == Elems(p + s) + {e}
    ensures e !in Elems(p + s)
  {
    var t := p + [e] + s;
    forall i, j | 0 <= i < j < |t| ensures t[i] < t[j] {
      if j < |p| {
        assert t[i] == (p + s)[i] && t[j] == (p + s)[j];
      } else if j == |p| {
        assert t[i] in p;
      } else if i > |p| {
        assert t[i] == (p + s)[i - 1] && t[j] == (p + s)[j - 1];
      } else if i == |p| {
        assert t[j] in s;
      } else {
        assert t[i] in p && t[j] in s;
      }
    }
    assert Elems(t) == Elems(p + s) + {e};
  }

  /** Removing one element from an ascending sequence keeps it ascending; that element
      occurs nowhere else, so exactly it leaves the set of elements. */
  lemma RemoveKeepsIncreasing(p: seq<int>, e: int, s: seq<int>)
    requires Increasing(p + [e] + s)
    ensures Increasing(p + s)
    ensures Elems(p + s) == Elems(p + [e] + s) - {e}
    ensures |p + s| == |p + [e] + s| - 1
  {
    var t := p + [e] + s;
    forall i, j | 0 <= i < j < |p + s| ensures (p + s)[i] < (p + s)[j] {
      var i' := if i < |p| then i else i + 1;
      var j' := if j < |p| then j else j + 1;
      assert (p + s)[i] == t[i'] && (p + s)[j] == t[j'];
    }
    forall x | x in p ensures x < e {
      var k :| 0 <= k < |p| && p[k] == x;
      assert t[k] == x && t[|p|] == e;
    }
    forall x | x in s ensures e < x {
      var k :| 0 <= k < |s| && s[k] == x;
      assert t[|p| + 1 + k] == x && t[|p|] == e;
    }
    assert Elems(p + s) == Elems(t) - {e};
  }

  /** In an ascending sequence, what comes before an element is smaller and what comes
      after it is larger. */
  lemma OrderAround(p: seq<int>, x: int, q: seq<int>)
    requires Increasing(p + [x] + q)
    ensures forall y :: y in p ==> y < x
    ensures forall y :: y in q ==> x < y
  {
    var t := p + [x] + q;
    forall y | y in p ensures y < x {
      var k :| 0 <= k < |p| && p[k] == y;
      assert t[k] == y && t[|p|] == x;
    }
    forall y | y in q ensures x < y {
      var k :| 0 <= k < |q| && q[k] == y;
      assert t[|p| + 1 + k] == y && t[|p|] == x;
    }
  }

  /** Two ascending sequences with the same elements are the same sequence. */
  lemma {:induction false} IncreasingUnique(s: seq<int>, t: seq<int>)
    requires Increasing(s) && Increasing(t)
    requires Elems(s) == Elems(t)
    ensures s == t
  {
    if s != [] {
      assert s[0] in Elems(t);
    }
    if t != [] {
      assert t[0] in Elems(s);
    }
    if s != [] && t != [] {
      var a :| 0 <= a < |t| && t[a] == s[0];
      var b :| 0 <= b < |s| && s[b] == t[0];
      assert s[0] == t[0];
      assert s == [s[0]] + s[1..] && t == [t[0]] + t[1..];
      forall x | x in s[1..] ensures x in t[1..] {
        var k :| 1 <= k < |s| && s[k] == x;
        assert x in Elems(t);
        var m :| 0 <= m < |t| && t[m] == x;
        assert m != 0;
      }
      forall x | x in t[1..] ensures x in s[1..] {
        var k :| 1 <= k < |t| && t[k] == x;
        assert x in Elems(s);
        var m :| 0 <= m < |s| && s[m] == x;
        assert m != 0;
      }
      assert Elems(s[1..]) == Elems(t[1..]);
      IncreasingUnique(s[1..], t[1..]);
    }
  }

  /** Dropping a prefix that ends inside the first part of a concatenation. */
  lemma DropInFirst(p: seq<int>, s: seq<int>, k: int)
    requires 0 <= k <= |p|
    ensures (p + s)[k..] == p[k..] + s
  {
  }

  /** Dropping a prefix that covers the whole first part of a concatenation. */
  lemma DropPastFirst(p: seq<int>, s: seq<int>, k: int)
    requires |p| <= k <= |p| + |s|
    ensures (p + s)[k..] == s[k - |p|..]
  {
  }

  /** Regrouping the parts around an element taken out of the middle. */
  lemma Regroup(a: seq<int>, b: seq<int>, x: int, c: seq<int>, d: seq<int>)
    ensures a + (b + [x] + c) + d == ((a + b) + [x]) + (c + d)
    ensures a + b + c + d == (a + b) + (c + d)
  {
  }

  /** The in-order sequences before and after a double rotation agree: the three nodes
      and four subtrees keep their left-to-right order. */
  lemma DoubleRotationOrder(p: seq<int>, x: int, q: seq<int>, y: int, r: seq<int>, z: int, t: seq<int>)
    ensures (p + [x] + (q + [y] + r)) + [z] + t == (p + [x] + q) + [y] + (r + [z] + t)
    ensures p + [x] + ((q + [y] + r) + [z] + t) == (p + [x] + q) + [y] + (r + [z] + t)
  {
  }

  lemma Assoc(a: seq<int>, b: seq<int>, c: seq<int>)
    ensures a + b + c == a + (b + c)
  {
  }
}
