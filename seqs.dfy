/**
 * Generic sequence vocabulary used by the codec and the peer registry:
 * splitting on a one-element separator (Go's bytes.Split / strings.Split),
 * joining with a separator, order-preserving deletion and first-occurrence
 * deduplication.
 */
module Seqs {

  /** Number of occurrences of x in s. */
  function Count<T(==)>(s: seq<T>, x: T): (n: nat)
    ensures n <= |s|
    ensures n == 0 <==> x !in s
  {
    if s == [] then 0 else (if s[0] == x then 1 else 0) + Count(s[1..], x)
  }

  lemma {:induction false} CountAppend<T>(a: seq<T>, b: seq<T>, x: T)
    ensures Count(a + b, x) == Count(a, x) + Count(b, x)
  {
    if a != [] {
      assert (a + b)[1..] == a[1..] + b;
      CountAppend(a[1..], b, x);
    } else {
      assert a + b == b;
    }
  }

  /** Index of the first occurrence of x in s. */
  function IndexOf<T(==)>(s: seq<T>, x: T): (i: nat)
    requires x in s
    ensures i < |s| && s[i] == x && x !in s[..i]
  {
    if s[0] == x then 0 else 1 + IndexOf(s[1..], x)
  }

  /**
   * The pieces of s between occurrences of sep, in order; a sequence with k
   * separators has k + 1 pieces, and the empty sequence has one empty piece.
   */
  function Split<T(==)>(s: seq<T>, sep: T): (parts: seq<seq<T>>)
    ensures |parts| >= 1
    decreases |s|
  {
    if sep !in s then [s]
    else
      var i := IndexOf(s, sep);
      [s[..i]] + Split(s[i + 1..], sep)
  }

  /** The parts in order with one separator between neighbours and none at either end. */
  function Join<T>(parts: seq<seq<T>>, sep: T): seq<T>
  {
    if |parts| == 0 then []
    else if |parts| == 1 then parts[0]
    else parts[0] + [sep] + Join(parts[1..], sep)
  }

  /** No part contains the separator. */
  ghost predicate SeparatorFree<T>(parts: seq<seq<T>>, sep: T)
  {
    forall k :: 0 <= k < |parts| ==> sep !in parts[k]
  }

  lemma {:induction false} SplitPiecesAreSeparatorFree<T>(s: seq<T>, sep: T)
    ensures SeparatorFree(Split(s, sep), sep)
    decreases |s|
  {
    if sep in s {
      var i := IndexOf(s, sep);
      SplitPiecesAreSeparatorFree(s[i + 1..], sep);
    }
  }

  /** Splitting yields exactly one more piece than there are separators. */
  lemma {:induction false} SplitLength<T>(s: seq<T>, sep: T)
    ensures |Split(s, sep)| == Count(s, sep) + 1
    decreases |s|
  {
    if sep in s {
      var i := IndexOf(s, sep);
      assert s == s[..i] + ([sep] + s[i + 1..]);
      CountAppend(s[..i], [sep] + s[i + 1..], sep);
      CountAppend([sep], s[i + 1..], sep);
      SplitLength(s[i + 1..], sep);
    }
  }

  /** A separator-free head followed by one separator splits off as the first piece. */
  lemma SplitHead<T>(a: seq<T>, b: seq<T>, sep: T)
    requires sep !in a
    ensures Split(a + [sep] + b, sep) == [a] + Split(b, sep)
  {
    var s := a + [sep] + b;
    assert s[|a|] == sep;
    assert s[..|a|] == a;
    assert IndexOf(s, sep) == |a|;
    assert s[|a| + 1..] == b;
  }

  /** Joining separator-free parts and splitting again gives the parts back. */
  lemma {:induction false} SplitJoin<T>(parts: seq<seq<T>>, sep: T)
    requires |parts| >= 1
    requires SeparatorFree(parts, sep)
    ensures Split(Join(parts, sep), sep) == parts
  {
    if |parts| == 1 {
      assert sep !in parts[0];
    } else {
      assert sep !in parts[0];
      assert SeparatorFree(parts[1..], sep);
      SplitHead(parts[0], Join(parts[1..], sep), sep);
      SplitJoin(parts[1..], sep);
      assert parts == [parts[0]] + parts[1..];
    }
  }

  /** Splitting and joining again gives the original sequence. */
  lemma {:induction false} JoinSplit<T>(s: seq<T>, sep: T)
    ensures Join(Split(s, sep), sep) == s
    decreases |s|
  {
    if sep in s {
      var i := IndexOf(s, sep);
      JoinSplit(s[i + 1..], sep);
      var parts := Split(s, sep);
      assert parts[1..] == Split(s[i + 1..], sep);
      assert s == s[..i] + [sep] + s[i + 1..];
    }
  }

  /** The number of separators in a join of separator-free parts. */
  lemma {:induction false} JoinCount<T>(parts: seq<seq<T>>, sep: T)
    requires |parts| >= 1
    requires SeparatorFree(parts, sep)
    ensures Count(Join(parts, sep), sep) == |parts| - 1
  {
    SplitJoin(parts, sep);
    SplitLength(Join(parts, sep), sep);
  }

  /** Appending one more part adds one separator and the part at the end. */
  lemma {:induction false} JoinSnoc<T>(parts: seq<seq<T>>, p: seq<T>, sep: T)
    requires |parts| >= 1
    ensures Join(parts + [p], sep) == Join(parts, sep) + [sep] + p
  {
    if |parts| == 1 {
      assert parts + [p] == [parts[0], p];
    } else {
      assert (parts + [p])[1..] == parts[1..] + [p];
      JoinSnoc(parts[1..], p, sep);
    }
  }

  /** s with the element at index j deleted. */
  function Delete<T>(s: seq<T>, j: nat): (r: seq<T>)
    requires j < |s|
    ensures |r| == |s| - 1
    ensures forall k :: 0 <= k < j ==> r[k] == s[k]
    ensures forall k :: j <= k < |r| ==> r[k] == s[k + 1]
  {
    s[..j] + s[j + 1..]
  }

  /** r is obtained from s by deleting zero or more elements, keeping the order of the rest. */
  predicate Subseq<T(==)>(r: seq<T>, s: seq<T>)
    decreases |s|
  {
    if r == [] then true
    else if s == [] then false
    else (r[0] == s[0] && Subseq(r[1..], s[1..])) || Subseq(r, s[1..])
  }

  lemma {:induction false} SubseqRefl<T>(s: seq<T>)
    ensures Subseq(s, s)
  {
    if s != [] {
      SubseqRefl(s[1..]);
    }
  }

  /** Deleting one more element from a subsequence keeps it a subsequence. */
  lemma {:induction false} SubseqDelete<T>(r: seq<T>, s: seq<T>, j: nat)
    requires j < |r|
    requires Subseq(r, s)
    ensures Subseq(Delete(r, j), s)
    decreases |s|
  {
    var d := Delete(r, j);
    if d != [] {
      if r[0] == s[0] && Subseq(r[1..], s[1..]) {
        if j == 0 {
          assert d == r[1..];
        } else {
          SubseqDelete(r[1..], s[1..], j - 1);
          assert d[0] == r[0];
          assert d[1..] == Delete(r[1..], j - 1);
        }
      } else {
        SubseqDelete(r, s[1..], j);
      }
    }
  }

  /** Appending one element to s, and optionally to r, keeps r a subsequence of s. */
  lemma {:induction false} SubseqSnoc<T>(r: seq<T>, s: seq<T>, x: T, both: bool)
    requires Subseq(r, s)
    ensures Subseq(if both then r + [x] else r, s + [x])
    decreases |s|
  {
    var r' := if both then r + [x] else r;
    if s == [] {
      if both {
        assert r' == [x] && r'[1..] == [];
      }
    } else if r != [] && r[0] == s[0] && Subseq(r[1..], s[1..]) {
      SubseqSnoc(r[1..], s[1..], x, both);
      assert (s + [x])[1..] == s[1..] + [x];
      assert r'[1..] == if both then r[1..] + [x] else r[1..];
    } else if r == [] {
      if both {
        SubseqSnoc([], s[1..], x, true);
        assert (s + [x])[1..] == s[1..] + [x];
        assert r' == [] + [x];
      }
    } else {
      SubseqSnoc(r, s[1..], x, both);
      assert (s + [x])[1..] == s[1..] + [x];
    }
  }

  /** No element occurs twice. */
  predicate Distinct<T(==)>(s: seq<T>)
  {
    forall a, b :: 0 <= a < b < |s| ==> s[a] != s[b]
  }

  /** The first occurrence of every element, in order of first occurrence. */
  function Dedup<T(==)>(s: seq<T>): (r: seq<T>)
    ensures |r| <= |s|
  {
    if s == [] then []
    else
      var d := Dedup(s[..|s| - 1]);
      if s[|s| - 1] in s[..|s| - 1] then d else d + [s[|s| - 1]]
  }

  /** Dedup keeps every element and only those, each once. */
  lemma {:induction false} DedupSpec<T>(s: seq<T>)
    ensures forall x :: x in Dedup(s) <==> x in s
    ensures Distinct(Dedup(s))
  {
    if s != [] {
      var n := |s| - 1;
      DedupSpec(s[..n]);
      assert s == s[..n] + [s[n]];
    }
  }

  /** Whatever Dedup lists comes from s. */
  lemma DedupMember<T>(s: seq<T>, x: T)
    requires x in Dedup(s)
    ensures x in s
  {
    DedupSpec(s);
  }

  /** Dedup only drops elements: what is left keeps its order in s. */
  lemma {:induction false} DedupSubseq<T>(s: seq<T>)
    ensures Subseq(Dedup(s), s)
  {
    if s == [] {
      SubseqRefl(s);
    } else {
      var n := |s| - 1;
      DedupSubseq(s[..n]);
      SubseqSnoc(Dedup(s[..n]), s[..n], s[n], s[n] !in s[..n]);
      assert s == s[..n] + [s[n]];
    }
  }

  /**
   * Dedup lists elements in order of first occurrence: whatever it lists
   * before an element already occurs in s before every occurrence of it.
   */
  lemma {:induction false} DedupFirstOccurrence<T>(s: seq<T>)
    ensures forall a, b, i :: 0 <= a < b < |Dedup(s)| && 0 <= i < |s| && s[i] == Dedup(s)[b] ==> Dedup(s)[a] in s[..i]
  {
    if s != [] {
      var n := |s| - 1;
      var front := s[..n];
      var d := Dedup(front);
      DedupFirstOccurrence(front);
      forall a, b, i | 0 <= a < b < |Dedup(s)| && 0 <= i < |s| && s[i] == Dedup(s)[b]
        ensures Dedup(s)[a] in s[..i]
      {
        assert Dedup(s)[a] == d[a];
        DedupMember(front, d[a]);
        if i < n {
          assert front[i] == s[i] && front[..i] == s[..i];
          if b < |d| {
            assert Dedup(s)[b] == d[b];
          }
        } else {
          assert s[..i] == front;
        }
      }
    }
  }

  /** Deleting a later copy of an element leaves the same elements present. */
  lemma DeleteLaterCopyKeepsMembers<T>(s: seq<T>, j: nat, x: T)
    requires j < |s| && s[j] in s[..j]
    ensures x in Delete(s, j) <==> x in s
  {
    var t := Delete(s, j);
    if x in s {
      var k :| 0 <= k < |s| && s[k] == x;
      if k < j {
        assert t[k] == x;
      } else if k == j {
        var k' :| 0 <= k' < j && s[k'] == x;
        assert t[k'] == x;
      } else {
        assert t[k - 1] == x;
      }
    }
  }

  /** Deleting a later copy of an element does not change the first occurrences. */
  lemma {:induction false} DedupDeleteLaterCopy<T>(s: seq<T>, j: nat)
    requires j < |s| && s[j] in s[..j]
    ensures Dedup(Delete(s, j)) == Dedup(s)
    decreases |s|
  {
    var t := Delete(s, j);
    var n := |s| - 1;
    if j == n {
      assert t == s[..n];
    } else {
      var front := s[..n];
      assert t[..n - 1] == Delete(front, j);
      assert front[..j] == s[..j];
      DedupDeleteLaterCopy(front, j);
      assert t[n - 1] == s[n];
      DeleteLaterCopyKeepsMembers(front, j, s[n]);
    }
  }

  /** Deduplicating a sequence without duplicates changes nothing. */
  lemma {:induction false} DedupOfDistinct<T>(s: seq<T>)
    requires Distinct(s)
    ensures Dedup(s) == s
  {
    if s != [] {
      DedupOfDistinct(s[..|s| - 1]);
    }
  }
}
