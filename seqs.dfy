/** Sequence helpers shared by the lister and the mirror pipeline: concatenation of a list of
    lists, the sum of their lengths, and "keep first occurrences only". */
module Seqs {

  /** The concatenation of `ss[0]`, `ss[1]`, ... in order. */
  function Flatten<T>(ss: seq<seq<T>>): seq<T>
  {
    if ss == [] then [] else ss[0] + Flatten(ss[1..])
  }

  /** The sum of the lengths of the lists in `ss`. */
  function SumLengths<T>(ss: seq<seq<T>>): nat
  {
    if ss == [] then 0 else |ss[0]| + SumLengths(ss[1..])
  }

  /** No element occurs twice. */
  predicate NoDuplicates<T(==)>(s: seq<T>)
  {
    forall i, j :: 0 <= i < j < |s| ==> s[i] != s[j]
  }

  /** The elements of `s` in the order of their first occurrence, each once. */
  function Dedup<T(==)>(s: seq<T>): seq<T>
  {
    if s == [] then []
    else
      var init := s[..|s| - 1];
      if s[|s| - 1] in init then Dedup(init) else Dedup(init) + [s[|s| - 1]]
  }

  lemma {:induction false} FlattenAppend<T>(a: seq<seq<T>>, b: seq<seq<T>>)
    ensures Flatten(a + b) == Flatten(a) + Flatten(b)
  {
    if a == [] {
      assert a + b == b;
    } else {
      assert (a + b)[0] == a[0];
      assert (a + b)[1..] == a[1..] + b;
      FlattenAppend(a[1..], b);
    }
  }

  lemma {:induction false} SumLengthsAppend<T>(a: seq<seq<T>>, b: seq<seq<T>>)
    ensures SumLengths(a + b) == SumLengths(a) + SumLengths(b)
  {
    if a == [] {
      assert a + b == b;
    } else {
      assert (a + b)[0] == a[0];
      assert (a + b)[1..] == a[1..] + b;
      SumLengthsAppend(a[1..], b);
    }
  }

  /** The length of a concatenation is the sum of the lengths. */
  lemma {:induction false} FlattenLength<T>(ss: seq<seq<T>>)
    ensures |Flatten(ss)| == SumLengths(ss)
  {
    if ss != [] {
      FlattenLength(ss[1..]);
    }
  }

  /** Element `j` of list `p` sits in the concatenation right after the lists before `p`. */
  lemma {:induction false} FlattenIndex<T>(ss: seq<seq<T>>, p: nat, j: nat)
    requires p < |ss| && j < |ss[p]|
    ensures SumLengths(ss[..p]) + j < |Flatten(ss)|
    ensures Flatten(ss)[SumLengths(ss[..p]) + j] == ss[p][j]
  {
    FlattenLength(ss);
    assert ss == ss[..p] + ss[p..];
    FlattenAppend(ss[..p], ss[p..]);
    FlattenLength(ss[..p]);
    assert Flatten(ss[p..]) == ss[p] + Flatten(ss[p + 1..]) by {
      assert ss[p..][0] == ss[p];
      assert ss[p..][1..] == ss[p + 1..];
    }
  }

  /** Something is in the concatenation exactly when it is in one of the lists. */
  lemma {:induction false} FlattenMember<T>(ss: seq<seq<T>>, x: T)
    ensures x in Flatten(ss) <==> exists p :: 0 <= p < |ss| && x in ss[p]
  {
    if ss != [] {
      FlattenMember(ss[1..], x);
      if exists p :: 0 <= p < |ss[1..]| && x in ss[1..][p] {
        var p :| 0 <= p < |ss[1..]| && x in ss[1..][p];
        assert x in ss[p + 1];
      }
      if exists p :: 0 <= p < |ss| && x in ss[p] {
        var p :| 0 <= p < |ss| && x in ss[p];
        if p > 0 {
          assert x in ss[1..][p - 1];
        }
      }
    }
  }

  /** Dedup keeps exactly the elements of its input. */
  lemma {:induction false} DedupMembers<T>(s: seq<T>, x: T)
    ensures x in Dedup(s) <==> x in s
  {
    if s != [] {
      var init := s[..|s| - 1];
      assert s == init + [s[|s| - 1]];
      DedupMembers(init, x);
    }
  }

  /** Dedup never repeats an element. */
  lemma {:induction false} DedupNoDuplicates<T>(s: seq<T>)
    ensures NoDuplicates(Dedup(s))
  {
    if s != [] {
      var init := s[..|s| - 1];
      var last := s[|s| - 1];
      DedupNoDuplicates(init);
      DedupMembers(init, last);
    }
  }

  /** Appending one element to the input: it is kept exactly when it was not seen before. */
  lemma DedupSnoc<T>(s: seq<T>, x: T)
    ensures Dedup(s + [x]) == if x in s then Dedup(s) else Dedup(s) + [x]
  {
    assert (s + [x])[..|s + [x]| - 1] == s;
  }
}
