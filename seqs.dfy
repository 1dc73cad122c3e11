/** Small helpers shared by the model: an optional value and an element-wise map. */
module Seqs {

  /** A value that may be absent (JavaScript's `undefined`/`null` for an optional field). */
  datatype Option<+T> = None | Some(value: T)

  /** Applies `f` to every element, keeping the order (JavaScript's `Array.prototype.map`,
      and the order in which a `for ... of` loop visits the elements). */
  function Each<S, T>(s: seq<S>, f: S -> T): (r: seq<T>)
    ensures |r| == |s|
    ensures forall i :: 0 <= i < |s| ==> r[i] == f(s[i])
  {
    if s == [] then [] else Each(s[..|s| - 1], f) + [f(s[|s| - 1])]
  }

  /** Mapping a concatenation maps each part. */
  lemma {:induction false} EachAppend<S, T>(a: seq<S>, b: seq<S>, f: S -> T)
    ensures Each(a + b, f) == Each(a, f) + Each(b, f)
  {
    if b != [] {
      var k := |b| - 1;
      assert (a + b)[..|a + b| - 1] == a + b[..k];
      EachAppend(a, b[..k], f);
    }
  }

  /** Indexing into a concatenation. */
  lemma ConcatIndex<T>(a: seq<T>, b: seq<T>)
    ensures |a + b| == |a| + |b|
    ensures forall k :: 0 <= k < |a| ==> (a + b)[k] == a[k]
    ensures forall k :: 0 <= k < |b| ==> (a + b)[|a| + k] == b[k]
  {
  }

  /** The concatenation of the sequences in `ss`, in order. */
  function Flatten<T>(ss: seq<seq<T>>): seq<T>
  {
    if ss == [] then [] else Flatten(ss[..|ss| - 1]) + ss[|ss| - 1]
  }

  /** An element of a concatenation comes from one of its parts, and every part's elements are in it. */
  lemma {:induction false} FlattenMember<T>(ss: seq<seq<T>>, x: T)
    ensures x in Flatten(ss) <==> exists i :: 0 <= i < |ss| && x in ss[i]
  {
    if ss != [] {
      var k := |ss| - 1;
      FlattenMember(ss[..k], x);
      if x in ss[k] {
        assert 0 <= k < |ss| && x in ss[k];
      }
      if exists i :: 0 <= i < |ss| && x in ss[i] {
        var i :| 0 <= i < |ss| && x in ss[i];
        if i < k {
          assert ss[..k][i] == ss[i];
        }
      }
    }
  }
}
