/** Sequence helpers shared by the chunk engine: `"".join(...)` and the
    fact that mapping a function over two permutations of one list gives
    two permutations of one list. */
module Sequences {

  /** `"".join(ss)`. */
  function Concat(ss: seq<string>): (r: string)
  {
    if ss == [] then "" else ss[0] + Concat(ss[1..])
  }

  lemma {:induction false} ConcatAppend(a: seq<string>, b: seq<string>)
    ensures Concat(a + b) == Concat(a) + Concat(b)
  {
    if a == [] {
      assert a + b == b;
    } else {
      assert (a + b)[1..] == a[1..] + b;
      ConcatAppend(a[1..], b);
    }
  }

  lemma {:induction false} ConcatOfEmpties(ss: seq<string>)
    requires forall i :: 0 <= i < |ss| ==> ss[i] == ""
    ensures Concat(ss) == ""
  {
    if ss != [] {
      ConcatOfEmpties(ss[1..]);
    }
  }

  function MapSeq<A, B>(f: A -> B, s: seq<A>): (r: seq<B>)
    ensures |r| == |s| && forall i :: 0 <= i < |s| ==> r[i] == f(s[i])
  {
    seq(|s|, i requires 0 <= i < |s| => f(s[i]))
  }

  lemma MapSeqAppend<A, B>(f: A -> B, a: seq<A>, b: seq<A>)
    ensures MapSeq(f, a + b) == MapSeq(f, a) + MapSeq(f, b)
  {
  }

  /** Removing the element at `j` takes one occurrence out of the multiset. */
  lemma RemoveAt<A>(t: seq<A>, j: nat)
    requires j < |t|
    ensures t == t[..j] + ([t[j]] + t[j + 1..])
    ensures multiset(t[..j] + t[j + 1..]) == multiset(t) - multiset{t[j]}
  {
    assert t == t[..j] + [t[j]] + t[j + 1..];
  }

  /** Mapping the list without its element at `j` misses exactly the image
      of that element. */
  lemma MapWithout<A, B>(f: A -> B, t: seq<A>, j: nat)
    requires j < |t|
    ensures multiset(MapSeq(f, t)) == multiset(MapSeq(f, t[..j] + t[j + 1..])) + multiset{f(t[j])}
  {
    var before, after := t[..j], t[j + 1..];
    RemoveAt(t, j);
    MapSeqAppend(f, before, [t[j]] + after);
    MapSeqAppend(f, [t[j]], after);
    MapSeqAppend(f, before, after);
    var mb, ma, mx := multiset(MapSeq(f, before)), multiset(MapSeq(f, after)), multiset{f(t[j])};
    assert MapSeq(f, [t[j]]) == [f(t[j])];
    assert multiset(MapSeq(f, t)) == mb + mx + ma;
    assert mb + mx + ma == mb + ma + mx;
  }

  /** Mapping preserves "is a permutation of". */
  lemma {:induction false} MultisetMap<A, B>(f: A -> B, s: seq<A>, t: seq<A>)
    requires multiset(s) == multiset(t)
    ensures multiset(MapSeq(f, s)) == multiset(MapSeq(f, t))
    decreases |s|
  {
    if s == [] {
      assert |t| == |multiset(t)| == 0;
      assert MapSeq(f, s) == [] == MapSeq(f, t);
    } else {
      var last := |s| - 1;
      assert s[last] in multiset(t);
      var j :| 0 <= j < |t| && t[j] == s[last];
      RemoveAt(t, j);
      RemoveAt(s, last);
      assert s[..last] + s[last + 1..] == s[..last];
      MultisetMap(f, s[..last], t[..j] + t[j + 1..]);
      MapWithout(f, s, last);
      MapWithout(f, t, j);
    }
  }
}
