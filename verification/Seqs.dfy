/** Facts about concatenation, and sequences cut down by a partial function. */
module Seqs {
  import opened Results

  lemma Associative<T>(a: seq<T>, b: seq<T>, c: seq<T>)
    ensures a + (b + c) == a + b + c
  {
  }

  function ToSeq<T>(x: Option<T>): seq<T> {
    if x.Some? then [x.value] else []
  }

  /** The results of `f`, in order, where it has one. */
  function FilterMap<A, B>(f: A -> Option<B>, s: seq<A>): (r: seq<B>)
    ensures |r| <= |s|
  {
    if s == [] then [] else ToSeq(f(s[0])) + FilterMap(f, s[1..])
  }

  lemma {:induction false} FilterMapAppend<A, B>(f: A -> Option<B>, a: seq<A>, b: seq<A>)
    ensures FilterMap(f, a + b) == FilterMap(f, a) + FilterMap(f, b)
  {
    if a == [] {
      assert a + b == b;
    } else {
      assert (a + b)[1..] == a[1..] + b;
      FilterMapAppend(f, a[1..], b);
      Associative(ToSeq(f(a[0])), FilterMap(f, a[1..]), FilterMap(f, b));
    }
  }

  lemma FilterMapSnoc<A, B>(f: A -> Option<B>, s: seq<A>, i: nat)
    requires i < |s|
    ensures FilterMap(f, s[..i + 1]) == FilterMap(f, s[..i]) + ToSeq(f(s[i]))
  {
    assert s[..i + 1] == s[..i] + [s[i]];
    FilterMapAppend(f, s[..i], [s[i]]);
    assert [s[i]][1..] == [];
  }

  lemma {:induction false} FilterMapMember<A, B>(f: A -> Option<B>, s: seq<A>, y: B) returns (j: nat)
    requires y in FilterMap(f, s)
    ensures j < |s| && f(s[j]) == Some(y)
  {
    if f(s[0]) == Some(y) {
      j := 0;
    } else {
      j := FilterMapMember(f, s[1..], y);
      j := j + 1;
    }
  }

  lemma {:induction false} FilterMapKeeps<A>(f: A -> Option<A>, s: seq<A>)
    requires forall x <- s :: f(x) == Some(x)
    ensures FilterMap(f, s) == s
  {
    if s != [] {
      FilterMapKeeps(f, s[1..]);
    }
  }

  lemma {:induction false} FilterMapDrops<A, B>(f: A -> Option<B>, s: seq<A>)
    requires forall x <- s :: f(x) == None
    ensures FilterMap(f, s) == []
  {
    if s != [] {
      FilterMapDrops(f, s[1..]);
    }
  }

  /** Nothing was dropped when the results are as many as the elements. */
  lemma {:induction false} FilterMapFull<A, B>(f: A -> Option<B>, s: seq<A>)
    requires |FilterMap(f, s)| == |s|
    ensures forall i | 0 <= i < |s| :: f(s[i]) == Some(FilterMap(f, s)[i])
  {
    if s != [] {
      FilterMapFull(f, s[1..]);
    }
  }

  lemma {:induction false} FilterMapTotal<A, B>(f: A -> Option<B>, s: seq<A>)
    requires forall x <- s :: f(x).Some?
    ensures |FilterMap(f, s)| == |s|
  {
    if s != [] {
      FilterMapTotal(f, s[1..]);
    }
  }

  lemma {:induction false} FilterMapHolds<A, B>(f: A -> Option<B>, s: seq<A>, i: nat)
    requires i < |s| && f(s[i]).Some?
    ensures f(s[i]).value in FilterMap(f, s)
  {
    if i > 0 {
      FilterMapHolds(f, s[1..], i - 1);
    }
  }
}
