/** Types and sequence vocabulary shared by the models of the firmware's components. */
module Prelude {

  type byte = x: int | 0 <= x < 256

  /** A reading of the 32-bit millisecond clock. */
  type Millis = x: int | 0 <= x < 0x1_0000_0000

  datatype Option<+T> = None | Some(value: T)

  function Flatten<T>(ss: seq<seq<T>>): seq<T> {
    if ss == [] then [] else ss[0] + Flatten(ss[1..])
  }

  lemma {:induction false} FlattenConcat<T>(a: seq<seq<T>>, b: seq<seq<T>>)
    ensures Flatten(a + b) == Flatten(a) + Flatten(b)
  {
    if a == [] {
      assert a + b == b;
    } else {
      FlattenConcat(a[1..], b);
      assert (a + b)[0] == a[0] && (a + b)[1..] == a[1..] + b;
      ConcatAssociative(a[0], Flatten(a[1..]), Flatten(b));
    }
  }

  lemma ConcatAssociative<T>(a: seq<T>, b: seq<T>, c: seq<T>)
    ensures a + b + c == a + (b + c)
  {
  }

  function Filter<T>(p: T -> bool, s: seq<T>): seq<T> {
    if s == [] then [] else (if p(s[0]) then [s[0]] else []) + Filter(p, s[1..])
  }

  /** The elements of `s` that do not satisfy `p`, in order. */
  function Reject<T>(p: T -> bool, s: seq<T>): seq<T> {
    if s == [] then [] else (if p(s[0]) then [] else [s[0]]) + Reject(p, s[1..])
  }

  function Reversed<T>(s: seq<T>): seq<T> {
    if s == [] then [] else Reversed(s[1..]) + [s[0]]
  }

  /** What is left when slot `i` is overwritten by the last slot and the size drops by one. */
  function SwapRemove<T>(s: seq<T>, i: nat): (r: seq<T>)
    requires i < |s|
    ensures |r| == |s| - 1
  {
    s[i := s[|s| - 1]][..|s| - 1]
  }

  lemma SwapRemoveMultiset<T>(s: seq<T>, i: nat)
    requires i < |s|
    ensures multiset(SwapRemove(s, i)) == multiset(s) - multiset{s[i]}
  {
    var last := |s| - 1;
    assert s == s[..i] + [s[i]] + s[i + 1..];
    if i < last {
      assert s[i + 1..] == s[i + 1..last] + [s[last]];
      assert SwapRemove(s, i) == s[..i] + [s[last]] + s[i + 1..last];
    } else {
      assert SwapRemove(s, i) == s[..i];
    }
  }

  lemma SwapRemoveSuffix<T>(s: seq<T>, i: nat)
    requires i < |s|
    ensures SwapRemove(s, i)[..i] == s[..i]
    ensures multiset(SwapRemove(s, i)[i..]) == multiset(s[i + 1..])
  {
    var last := |s| - 1;
    if i < last {
      assert SwapRemove(s, i)[i..] == [s[last]] + s[i + 1..last];
      assert s[i + 1..] == s[i + 1..last] + [s[last]];
    }
  }

  lemma {:induction false} SubsetSize<T>(a: set<T>, b: set<T>)
    requires a <= b
    ensures |a| <= |b|
  {
    if a != {} {
      var x :| x in a;
      SubsetSize(a - {x}, b - {x});
    }
  }

  lemma TwoInFront<T>(a: T, b: T, tail: seq<T>, s: seq<T>)
    requires |s| == 2 + |tail|
    ensures s == [a, b] + tail <==> s[0] == a && s[1] == b && s[2..] == tail
  {
  }
}
