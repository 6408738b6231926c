/** Sequences as listings of sets: the model of iterating a Java set, whose order is unspecified. */
module Seqs {

  /** No element occurs twice. */
  predicate NoDups<T(==)>(s: seq<T>) {
    forall i, j | 0 <= i < j < |s| :: s[i] != s[j]
  }

  /** `s` enumerates the set `c`: every member exactly once, nothing else. */
  predicate Lists<T(==)>(s: seq<T>, c: set<T>) {
    NoDups(s) && (forall x | x in s :: x in c) && (forall x | x in c :: x in s)
  }

  /** A listing has as many positions as the set has members. */
  lemma {:induction false} ListsLength<T>(s: seq<T>, c: set<T>)
    requires Lists(s, c)
    ensures |s| == |c|
  {
    if s != [] {
      var t := s[1..];
      assert Lists(t, c - {s[0]}) by {
        forall x | x in t ensures x in c - {s[0]} {
          var k :| 1 <= k < |s| && s[k] == x;
        }
        forall x | x in c - {s[0]} ensures x in t {
          var k :| 0 <= k < |s| && s[k] == x;
        }
      }
      ListsLength(t, c - {s[0]});
    }
  }

  /** Dropping the last entry of a duplicate-free sequence leaves one without it. */
  lemma NoDupsDropLast<T>(t: seq<T>)
    requires NoDups(t) && t != []
    ensures NoDups(t[..|t| - 1]) && t[|t| - 1] !in t[..|t| - 1]
  {
    var u := t[..|t| - 1];
    forall i | 0 <= i < |u| ensures u[i] != t[|t| - 1] {
      assert u[i] == t[i];
    }
  }

  /** Adding a new element at either end keeps a sequence duplicate-free. */
  lemma NoDupsExtend<T>(s: seq<T>, x: T)
    requires NoDups(s) && x !in s
    ensures NoDups(s + [x]) && NoDups([x] + s)
  {
    forall i, j | 0 <= i < j < |s| + 1 ensures (s + [x])[i] != (s + [x])[j] && ([x] + s)[i] != ([x] + s)[j] {
      if j < |s| {
        assert (s + [x])[i] == s[i] && (s + [x])[j] == s[j];
      }
      if i > 0 {
        assert ([x] + s)[i] == s[i - 1];
      }
      assert ([x] + s)[j] == s[j - 1];
    }
  }

  /** Two duplicate-free sequences with no common element concatenate to a duplicate-free one. */
  lemma NoDupsConcat<T>(s: seq<T>, t: seq<T>)
    requires NoDups(s) && NoDups(t) && forall x | x in s :: x !in t
    ensures NoDups(s + t)
  {
    forall i, j | 0 <= i < j < |s + t| ensures (s + t)[i] != (s + t)[j] {
      if j < |s| {
        assert (s + t)[i] == s[i] && (s + t)[j] == s[j];
      } else if i < |s| {
        assert (s + t)[i] == s[i] && (s + t)[j] == t[j - |s|];
        assert s[i] in s;
      } else {
        assert (s + t)[i] == t[i - |s|] && (s + t)[j] == t[j - |s|];
      }
    }
  }

  /** Listings of disjoint sets concatenate to a listing of their union. */
  lemma ListsConcat<T>(s: seq<T>, a: set<T>, t: seq<T>, b: set<T>)
    requires Lists(s, a) && Lists(t, b) && a !! b
    ensures Lists(s + t, a + b)
  {
    NoDupsConcat(s, t);
  }

  /** `s` back to front. */
  function Reverse<T>(s: seq<T>): seq<T> {
    if s == [] then [] else [s[|s| - 1]] + Reverse(s[..|s| - 1])
  }

  /** Position `i` of the reversal holds position |s| - 1 - i of `s`. */
  lemma {:induction false} ReverseIndex<T>(s: seq<T>)
    ensures |Reverse(s)| == |s|
    ensures forall i | 0 <= i < |s| :: Reverse(s)[i] == s[|s| - 1 - i]
    decreases |s|
  {
    if s != [] {
      ReverseIndex(s[..|s| - 1]);
    }
  }

  /** Handing out one more vertex puts it at the head of the reversal. */
  lemma ReverseSnoc<T>(s: seq<T>, x: T)
    ensures Reverse(s + [x]) == [x] + Reverse(s)
  {
    assert (s + [x])[..|s|] == s;
  }

  /** An element at the front ends up at the back of the reversal. */
  lemma ReverseCons<T>(x: T, s: seq<T>)
    ensures Reverse([x] + s) == Reverse(s) + [x]
  {
    ReverseIndex([x] + s);
    ReverseIndex(s);
    assert forall i | 0 <= i < |s| + 1 :: Reverse([x] + s)[i] == (Reverse(s) + [x])[i];
  }

  /** Read back to front, a listing still lists the same set. */
  lemma ReverseLists<T>(s: seq<T>, c: set<T>)
    requires Lists(s, c)
    ensures Lists(Reverse(s), c)
  {
    var r := Reverse(s);
    ReverseIndex(s);
    forall x | x in c ensures x in r {
      var i :| 0 <= i < |s| && s[i] == x;
      assert r[|s| - 1 - i] == x;
    }
  }

  /** The prefix one longer is the prefix with the next entry added. */
  lemma PrefixSnoc<T>(s: seq<T>, k: nat)
    requires k < |s|
    ensures s[..k] + [s[k]] == s[..k + 1] && s[..k + 1][..k] == s[..k]
  {
  }
  /** Appending nothing leaves a sequence as it is. */
  lemma AppendNothing<T>(s: seq<T>, t: seq<T>)
    requires t == []
    ensures s + t == s
  {
  }

  /** Growing a prefix of `s` by one behind a fixed head. */
  lemma HeadPrefixSnoc<T>(a: seq<T>, s: seq<T>, k: nat)
    requires k < |s|
    ensures (a + s[..k]) + [s[k]] == a + s[..k + 1]
  {
    PrefixSnoc(s, k);
  }


  /** The listing from `j` on, with its first entry taken off, lists the rest of the set. */
  lemma ListsSuffix<T>(s: seq<T>, j: nat, c: set<T>)
    requires j < |s| && Lists(s[j..], c)
    ensures s[j] in c && Lists(s[j + 1..], c - {s[j]})
  {
    var t, u := s[j..], s[j + 1..];
    assert t[0] == s[j];
    forall i | 0 <= i < |u| ensures u[i] == t[i + 1] && u[i] != s[j] {
      assert t[i + 1] == s[j + 1 + i];
    }
    forall x | x in c - {s[j]} ensures x in u {
      var k :| 0 <= k < |t| && t[k] == x;
      assert k != 0 && u[k - 1] == x;
    }
  }

  /** Listing one more element. */
  lemma ListsSnoc<T>(s: seq<T>, c: set<T>, x: T)
    requires Lists(s, c) && x !in c
    ensures Lists(s + [x], c + {x})
  {
    NoDupsExtend(s, x);
  }

  /** Every finite set has a listing. */
  lemma {:induction false} ListingExists<T>(c: set<T>)
    ensures exists s :: Lists(s, c)
    decreases c
  {
    if c == {} {
      assert Lists([], c);
    } else {
      var x :| x in c;
      ListingExists(c - {x});
      var s :| Lists(s, c - {x});
      assert Lists([x] + s, c) by {
        forall i, j | 0 <= i < j < |[x] + s| ensures ([x] + s)[i] != ([x] + s)[j] {
          if i > 0 {
            assert ([x] + s)[i] == s[i - 1];
          }
          assert ([x] + s)[j] == s[j - 1];
        }
      }
    }
  }

  /** Some fixed listing of `c`, for specifications that need one. */
  ghost function Listing<T>(c: set<T>): (s: seq<T>)
    ensures Lists(s, c)
  {
    ListingExists(c);
    var s :| Lists(s, c);
    s
  }

  /** Enumerates `c` in some order; the order is the one thing a caller may not rely on. */
  method ListOf<T(==)>(c: set<T>) returns (s: seq<T>)
    ensures Lists(s, c)
  {
    s := [];
    var rest := c;
    while rest != {}
      invariant rest <= c
      invariant NoDups(s)
      invariant forall x | x in s :: x in c && x !in rest
      invariant forall x | x in c :: x in s || x in rest
      decreases rest
    {
      var x :| x in rest;
      s := s + [x];
      rest := rest - {x};
    }
  }
}
