/** `toChunk`: cutting an array into consecutive pieces by repeatedly
    splicing its front off. */
module Chunking {
  import Strings

  function Min(a: nat, b: nat): nat
  {
    if a < b then a else b
  }

  /** The chunks `toChunk` produces, as a function of the array contents. */
  function Chunks<T>(s: seq<T>, size: nat): seq<seq<T>>
    requires size > 0
    decreases |s|
  {
    if |s| == 0 then []
    else
      var k := Min(size, |s|);
      [s[..k]] + Chunks(s[k..], size)
  }

  function Flatten<T>(ss: seq<seq<T>>): seq<T>
  {
    if |ss| == 0 then [] else ss[0] + Flatten(ss[1..])
  }

  /** Concatenating the chunks gives back the original contents. */
  lemma {:induction false} FlattenChunks<T>(s: seq<T>, size: nat)
    requires size > 0
    ensures Flatten(Chunks(s, size)) == s
    decreases |s|
  {
    if |s| > 0 {
      var k := Min(size, |s|);
      FlattenChunks(s[k..], size);
      assert Chunks(s, size)[1..] == Chunks(s[k..], size);
      assert s == s[..k] + s[k..];
    }
  }

  /** Every chunk is non-empty and holds `size` elements, except that the
      last one may be shorter. */
  lemma {:induction false} ChunkSizes<T>(s: seq<T>, size: nat)
    requires size > 0
    ensures forall i :: 0 <= i < |Chunks(s, size)| ==> 0 < |Chunks(s, size)[i]| <= size
    ensures forall i :: 0 <= i < |Chunks(s, size)| - 1 ==> |Chunks(s, size)[i]| == size
    decreases |s|
  {
    if |s| > 0 {
      var k := Min(size, |s|);
      ChunkSizes(s[k..], size);
      var c, rest := Chunks(s, size), Chunks(s[k..], size);
      assert c == [s[..k]] + rest;
      assert forall i :: 1 <= i < |c| ==> c[i] == rest[i - 1];
      assert |c| > 1 ==> |s[k..]| > 0 && k == size;
    }
  }

  /** Chunks of size 2 of a list of even length are exactly its pairs: the
      shape in which a WITHSCORES reply (member, score, member, score, ...)
      is consumed. */
  lemma {:induction false} ChunkPairs<T>(s: seq<T>)
    requires |s| % 2 == 0
    ensures |Chunks(s, 2)| == |s| / 2
    ensures forall i :: 0 <= i < |s| / 2 ==> Chunks(s, 2)[i] == [s[2 * i], s[2 * i + 1]]
    decreases |s|
  {
    if |s| > 0 {
      ChunkPairs(s[2..]);
      var c, rest := Chunks(s, 2), Chunks(s[2..], 2);
      assert c == [s[..2]] + rest;
      assert s[..2] == [s[0], s[1]];
      forall i | 1 <= i < |s| / 2
        ensures c[i] == [s[2 * i], s[2 * i + 1]]
      {
        assert c[i] == rest[i - 1];
        assert s[2..][2 * (i - 1)] == s[2 * i];
        assert s[2..][2 * (i - 1) + 1] == s[2 * i + 1];
      }
    }
  }

  /** A JavaScript array, mutated in place by `splice`. */
  class JsArray<T> {
    var elems: seq<T>

    constructor (s: seq<T>)
      ensures elems == s
    {
      elems := s;
    }

    /** `splice(0, count)`: removes the first `count` elements (all of them
        when fewer remain) and returns them. */
    method SpliceFront(count: nat) returns (removed: seq<T>)
      modifies this
      ensures removed == old(elems)[..Min(count, |old(elems)|)]
      ensures elems == old(elems)[Min(count, |old(elems)|)..]
    {
      var k := Min(count, |elems|);
      removed := elems[..k];
      elems := elems[k..];
    }
  }

  /** `toChunk(myArray, size)`: collects the chunks and leaves the input
      array empty. A size of 0 would never shrink the array, so the loop
      would not end; the only caller passes 2. */
  method ToChunk<T>(xs: JsArray<T>, size: nat) returns (results: seq<seq<T>>)
    requires size > 0
    modifies xs
    ensures xs.elems == []
    ensures results == Chunks(old(xs.elems), size)
    ensures Flatten(results) == old(xs.elems)
  {
    results := [];
    while |xs.elems| > 0
      invariant results + Chunks(xs.elems, size) == Chunks(old(xs.elems), size)
      decreases |xs.elems|
    {
      ghost var before := xs.elems;
      var piece := xs.SpliceFront(size);
      assert Chunks(before, size) == [piece] + Chunks(xs.elems, size);
      Strings.ConcatAssoc(results, [piece], Chunks(xs.elems, size));
      results := results + [piece];
    }
    assert results + [] == results;
    FlattenChunks(old(xs.elems), size);
  }
}
