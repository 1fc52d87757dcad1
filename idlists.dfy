/** The reservation-id lists of the student and room directories are Java lists;
    the workflow appends to them and removes from them with `List.remove(Object)`,
    which drops the first element equal to its argument, if any. */
module IdLists {

  /** Index of the first occurrence of `x` in `s`. */
  function FirstIndex<T(==)>(s: seq<T>, x: T): (i: nat)
    requires x in s
    ensures i < |s| && s[i] == x
    ensures x !in s[..i]
  {
    if s[0] == x then 0
    else
      assert s[1..][..FirstIndex(s[1..], x)] == s[..FirstIndex(s[1..], x) + 1][1..];
      FirstIndex(s[1..], x) + 1
  }

  /** `s` with its first occurrence of `x` removed; `s` itself when `x` does not occur. */
  function RemoveFirst<T(==)>(s: seq<T>, x: T): (r: seq<T>)
    ensures multiset(r) == multiset(s) - multiset{x}
    ensures x in s ==> |r| == |s| - 1
    ensures x !in s ==> r == s
  {
    if s == [] then []
    else
      assert s == [s[0]] + s[1..];
      if s[0] == x then s[1..] else [s[0]] + RemoveFirst(s[1..], x)
  }

  /** Removing the first occurrence is splicing out the element at `FirstIndex`. */
  lemma {:induction false} RemoveFirstSplices<T>(s: seq<T>, x: T)
    requires x in s
    ensures RemoveFirst(s, x) == s[..FirstIndex(s, x)] + s[FirstIndex(s, x) + 1..]
  {
    if s[0] == x {
      assert FirstIndex(s, x) == 0;
      assert s[..0] + s[1..] == s[1..];
    } else {
      var t := s[1..];
      assert x in t by { assert s == [s[0]] + t; }
      RemoveFirstSplices(t, x);
      var i := FirstIndex(t, x);
      assert FirstIndex(s, x) == i + 1;
      assert t[..i] == s[1..i + 1] && t[i + 1..] == s[i + 2..];
      assert s[..i + 1] == [s[0]] + s[1..i + 1];
      calc {
        RemoveFirst(s, x);
        [s[0]] + (t[..i] + t[i + 1..]);
        ([s[0]] + s[1..i + 1]) + s[i + 2..];
      }
    }
  }
}
