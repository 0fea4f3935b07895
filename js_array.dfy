/** The two JavaScript array built-ins the core relies on, `find` and `filter`. */
module JsArray {
  import opened Wrappers

  /** `Array.prototype.find`: the first element satisfying `p`, or nothing. */
  function Find<T>(s: seq<T>, p: T -> bool): (r: Option<T>)
    ensures r.Some? ==> r.value in s && p(r.value)
  {
    if s == [] then None
    else if p(s[0]) then Some(s[0])
    else Find(s[1..], p)
  }

  /** `find` returns nothing exactly when no element satisfies `p`, and otherwise the first one that does. */
  lemma {:induction false} FindSpec<T>(s: seq<T>, p: T -> bool)
    ensures Find(s, p).None? <==> forall i :: 0 <= i < |s| ==> !p(s[i])
    ensures Find(s, p).Some? ==> exists i :: 0 <= i < |s| && s[i] == Find(s, p).value &&
                                            forall j :: 0 <= j < i ==> !p(s[j])
  {
    if s != [] && !p(s[0]) {
      FindSpec(s[1..], p);
      assert forall i :: 0 <= i < |s[1..]| ==> s[1..][i] == s[i + 1];
      if Find(s, p).Some? {
        var i :| 0 <= i < |s[1..]| && s[1..][i] == Find(s, p).value && forall j :: 0 <= j < i ==> !p(s[1..][j]);
        assert s[i + 1] == Find(s, p).value;
      }
    } else if s != [] {
      assert s[0] == Find(s, p).value;
    }
  }

  /** `Array.prototype.filter`: the elements satisfying `p`, in their original order. */
  function Filter<T>(s: seq<T>, p: T -> bool): (r: seq<T>)
    ensures |r| <= |s|
  {
    if s == [] then []
    else if p(s[0]) then [s[0]] + Filter(s[1..], p)
    else Filter(s[1..], p)
  }

  /** `filter` keeps exactly the elements satisfying `p`, and everything when all do. */
  lemma {:induction false} FilterSpec<T>(s: seq<T>, p: T -> bool)
    ensures forall i :: 0 <= i < |Filter(s, p)| ==> Filter(s, p)[i] in s && p(Filter(s, p)[i])
    ensures forall i :: 0 <= i < |s| && p(s[i]) ==> s[i] in Filter(s, p)
    ensures (forall i :: 0 <= i < |s| ==> p(s[i])) ==> Filter(s, p) == s
  {
    if s != [] {
      FilterSpec(s[1..], p);
      assert forall i :: 1 <= i < |s| ==> s[i] == s[1..][i - 1];
    }
  }

  /** `filter` works piece by piece, so the kept elements keep their relative order. */
  lemma {:induction false} FilterAppend<T>(s: seq<T>, t: seq<T>, p: T -> bool)
    ensures Filter(s + t, p) == Filter(s, p) + Filter(t, p)
  {
    if s != [] {
      assert (s + t)[1..] == s[1..] + t;
      FilterAppend(s[1..], t, p);
    } else {
      assert s + t == t;
    }
  }
}
