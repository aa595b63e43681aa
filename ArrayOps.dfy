/** The JavaScript array methods the catalogue uses to read its store: `filter` and `findIndex`. */
module ArrayOps {

  /** `Array.prototype.filter`: the elements of `s` that satisfy `p`, in their original order. */
  function Keep<T>(s: seq<T>, p: T -> bool): (r: seq<T>)
    ensures |r| <= |s|
    ensures forall x :: x in r ==> x in s && p(x)
    decreases |s|
  {
    if s == [] then []
    else Keep(s[..|s| - 1], p) + (if p(s[|s| - 1]) then [s[|s| - 1]] else [])
  }

  /**
   * `Array.prototype.findIndex`: the first position of `s` whose element satisfies `p`,
   * or -1 when there is none.
   */
  function FindIndex<T>(s: seq<T>, p: T -> bool): (i: int)
    ensures -1 <= i < |s|
    ensures i == -1 <==> forall j :: 0 <= j < |s| ==> !p(s[j])
    ensures i != -1 ==> p(s[i]) && forall j :: 0 <= j < i ==> !p(s[j])
  {
    if s == [] then -1
    else if p(s[0]) then 0
    else
      var k := FindIndex(s[1..], p);
      if k == -1 then -1 else k + 1
  }

  /** `idx` lists, in increasing order, exactly the positions of `s` whose elements satisfy `p`. */
  ghost predicate Positions<T>(idx: seq<int>, s: seq<T>, p: T -> bool) {
    && (forall k :: 0 <= k < |idx| ==> 0 <= idx[k] < |s|)
    && (forall k, l :: 0 <= k < l < |idx| ==> idx[k] < idx[l])
    && (forall j :: 0 <= j < |s| ==> (p(s[j]) <==> j in idx))
  }

  /** The positions of `s` whose elements satisfy `p`, in increasing order. */
  ghost function PositionsOf<T>(s: seq<T>, p: T -> bool): seq<int>
    decreases |s|
  {
    if s == [] then []
    else PositionsOf(s[..|s| - 1], p) + (if p(s[|s| - 1]) then [|s| - 1] else [])
  }

  /** `r` holds the elements of `s` at the positions `idx`, in that order. */
  ghost predicate PicksAt<T>(r: seq<T>, s: seq<T>, idx: seq<int>) {
    && |r| == |idx|
    && forall k :: 0 <= k < |idx| ==> 0 <= idx[k] < |s| && r[k] == s[idx[k]]
  }

  /** `filter` keeps exactly the satisfying elements, each once, in the order they have in `s`. */
  lemma {:induction false} KeepSelects<T>(s: seq<T>, p: T -> bool)
    ensures Positions(PositionsOf(s, p), s, p)
    ensures PicksAt(Keep(s, p), s, PositionsOf(s, p))
  {
    if s != [] {
      var init, x := s[..|s| - 1], s[|s| - 1];
      assert s == init + [x];
      KeepSelects(init, p);
      PositionsExtend(PositionsOf(init, p), init, p, x);
      PicksExtend(Keep(init, p), init, PositionsOf(init, p), p, x);
    }
  }

  /** Appending one element extends the list of satisfying positions by that element's, if it
      satisfies. */
  lemma PositionsExtend<T>(idx: seq<int>, s: seq<T>, p: T -> bool, x: T)
    requires Positions(idx, s, p)
    ensures Positions(idx + (if p(x) then [|s|] else []), s + [x], p)
  {
    var idx' := idx + (if p(x) then [|s|] else []);
    var s' := s + [x];
    forall j | 0 <= j < |s'| ensures p(s'[j]) <==> j in idx' {
      if j < |s| {
        assert s'[j] == s[j];
      } else {
        assert j !in idx;
      }
    }
  }

  /** Appending one element extends a selection by that element, if it satisfies. */
  lemma PicksExtend<T>(r: seq<T>, s: seq<T>, idx: seq<int>, p: T -> bool, x: T)
    requires PicksAt(r, s, idx)
    ensures PicksAt(r + (if p(x) then [x] else []), s + [x], idx + (if p(x) then [|s|] else []))
  {
    var r', s', idx' := r + (if p(x) then [x] else []), s + [x], idx + (if p(x) then [|s|] else []);
    forall k | 0 <= k < |idx'| ensures 0 <= idx'[k] < |s'| && r'[k] == s'[idx'[k]] {
      if k < |idx| {
        assert r'[k] == r[k] && idx'[k] == idx[k] && s'[idx[k]] == s[idx[k]];
      }
    }
  }

  /** Taking the head of a `filter` result finds the same element as `findIndex`. */
  lemma KeepFirst<T>(s: seq<T>, p: T -> bool)
    ensures Keep(s, p) != [] <==> FindIndex(s, p) != -1
    ensures Keep(s, p) != [] ==> Keep(s, p)[0] == s[FindIndex(s, p)]
  {
    KeepSelects(s, p);
    var idx := PositionsOf(s, p);
    var i := FindIndex(s, p);
    assert idx != [] ==> p(s[idx[0]]);
    if i != -1 {
      assert i in idx;
      var k :| 0 <= k < |idx| && idx[k] == i;
      assert idx[0] <= i;
    }
  }

  /** A predicate that no element satisfies leaves nothing after `filter`. */
  lemma {:induction false} KeepNone<T>(s: seq<T>, p: T -> bool)
    requires forall j :: 0 <= j < |s| ==> !p(s[j])
    ensures Keep(s, p) == []
  {
    if s != [] {
      KeepNone(s[..|s| - 1], p);
    }
  }

  /** A predicate that every element satisfies leaves `filter` with the whole sequence. */
  lemma {:induction false} KeepAll<T>(s: seq<T>, p: T -> bool)
    requires forall j :: 0 <= j < |s| ==> p(s[j])
    ensures Keep(s, p) == s
  {
    if s != [] {
      KeepAll(s[..|s| - 1], p);
      assert p(s[|s| - 1]);
      assert s == s[..|s| - 1] + [s[|s| - 1]];
    }
  }
}
