/** Facts about sequences shared by the list-processing code. */
module Seqs {

  /** r is obtained from s by deleting elements; the rest keep their order. */
  predicate Subseq<T(==)>(r: seq<T>, s: seq<T>)
    decreases |s|
  {
    r == [] || (s != [] && ((r[0] == s[0] && Subseq(r[1..], s[1..])) || Subseq(r, s[1..])))
  }

  lemma {:induction false} SubseqRefl<T>(s: seq<T>)
    ensures Subseq(s, s)
    decreases |s|
  {
    if s != [] {
      SubseqRefl(s[1..]);
    }
  }

  /** A subsequence stays one when the longer sequence grows at the end. */
  lemma {:induction false} SubseqExtend<T>(r: seq<T>, s: seq<T>, x: T)
    requires Subseq(r, s)
    ensures Subseq(r, s + [x])
    decreases |s|
  {
    if r != [] {
      assert (s + [x])[1..] == s[1..] + [x];
      if r[0] == s[0] && Subseq(r[1..], s[1..]) {
        SubseqExtend(r[1..], s[1..], x);
      } else {
        SubseqExtend(r, s[1..], x);
      }
    }
  }

  /** Appending the same element to both sides keeps a subsequence. */
  lemma {:induction false} SubseqSnoc<T>(r: seq<T>, s: seq<T>, x: T)
    requires Subseq(r, s)
    ensures Subseq(r + [x], s + [x])
    decreases |s|
  {
    if s == [] {
      assert r == [] && r + [x] == [x] == s + [x];
      SubseqRefl([x]);
      return;
    }
    assert (s + [x])[1..] == s[1..] + [x];
    if r == [] {
      SubseqSnoc(r, s[1..], x);
    } else if r[0] == s[0] && Subseq(r[1..], s[1..]) {
      SubseqSnoc(r[1..], s[1..], x);
      assert (r + [x])[1..] == r[1..] + [x];
    } else {
      SubseqSnoc(r, s[1..], x);
    }
  }

  /** Deleting one element from the middle leaves a subsequence. */
  lemma {:induction false} SubseqDropOne<T>(a: seq<T>, x: T, b: seq<T>)
    ensures Subseq(a + b, a + [x] + b)
    decreases |a|
  {
    if a == [] {
      assert a + b == b && a + [x] + b == [x] + b;
      SubseqRefl(b);
      assert ([x] + b)[1..] == b;
      assert Subseq(b, ([x] + b)[1..]);
    } else {
      SubseqDropOne(a[1..], x, b);
      assert (a + b)[1..] == a[1..] + b;
      assert (a + [x] + b)[1..] == a[1..] + [x] + b;
    }
  }

  /** Every element of a subsequence is an element of the sequence. */
  lemma {:induction false} SubseqMembers<T>(r: seq<T>, s: seq<T>)
    requires Subseq(r, s)
    ensures forall e :: e in r ==> e in s
    decreases |s|
  {
    if r != [] {
      if r[0] == s[0] && Subseq(r[1..], s[1..]) {
        SubseqMembers(r[1..], s[1..]);
        forall e | e in r ensures e in s {
          if e != r[0] {
            assert e in r[1..];
          }
        }
      } else {
        SubseqMembers(r, s[1..]);
      }
    }
  }
}
