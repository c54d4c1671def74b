/** The JavaScript array methods the store's handlers are written with, on sequences:
    `map` with an index-aware callback, `filter` that drops one index, and `some`. */
module ArrayOps {

  /** `s.map((x, i) => f(x, i))`. */
  function MapIndexed<T>(s: seq<T>, f: (T, int) -> T): (r: seq<T>)
    ensures |r| == |s|
    ensures forall i :: 0 <= i < |s| ==> r[i] == f(s[i], i)
    decreases |s|
  {
    if s == [] then [] else MapIndexed(s[..|s| - 1], f) + [f(s[|s| - 1], |s| - 1)]
  }

  /** `s.filter((_, i) => i !== idx)`: the element at `idx` goes, the rest keep their
      order; an index outside `s` drops nothing. */
  function FilterOutIndex<T>(s: seq<T>, idx: int): (r: seq<T>)
    ensures 0 <= idx < |s| ==> |r| == |s| - 1
    ensures !(0 <= idx < |s|) ==> r == s
    ensures forall i :: 0 <= i < |r| && i < idx ==> r[i] == s[i]
    ensures forall i :: 0 <= idx <= i < |r| ==> r[i] == s[i + 1]
    decreases |s|
  {
    if s == [] then []
    else
      var init := FilterOutIndex(s[..|s| - 1], idx);
      if idx == |s| - 1 then init else init + [s[|s| - 1]]
  }

  /** The same as cutting the sequence around `idx`. */
  lemma FilterOutIndexIsCut<T>(s: seq<T>, idx: int)
    requires 0 <= idx < |s|
    ensures FilterOutIndex(s, idx) == s[..idx] + s[idx + 1..]
  {
    var r := FilterOutIndex(s, idx);
    var c := s[..idx] + s[idx + 1..];
    assert |r| == |c|;
    forall i | 0 <= i < |r| ensures r[i] == c[i] {
      if i < idx { assert c[i] == s[i]; } else { assert c[i] == s[i + 1]; }
    }
  }

  /** `s.some(p)`. */
  function Some<T>(s: seq<T>, p: T -> bool): (b: bool)
    ensures b <==> exists i :: 0 <= i < |s| && p(s[i])
    decreases |s|
  {
    if s == [] then false
    else
      var b := p(s[0]) || Some(s[1..], p);
      assert b ==> exists i :: 0 <= i < |s| && p(s[i]) by {
        if b && !p(s[0]) {
          var j :| 0 <= j < |s[1..]| && p(s[1..][j]);
          assert p(s[j + 1]);
        }
      }
      assert (exists i :: 0 <= i < |s| && p(s[i])) ==> b by {
        if exists i :: 0 <= i < |s| && p(s[i]) {
          var i :| 0 <= i < |s| && p(s[i]);
          if i > 0 { assert p(s[1..][i - 1]); }
        }
      }
      b
  }
}
