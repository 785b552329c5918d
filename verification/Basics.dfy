/**
 What every other module needs: bytes, optional values, line ends, and sequences cut
 into pieces.
 */
module Basics {

  type byte = x: int | 0 <= x < 256

  datatype Option<+T> = None | Some(value: T)

  const LF: byte := 10
  const CR: byte := 13

  /** Hexadecimal digits by their values, in either case. */
  const LOWER_DIGITS := "0123456789abcdef"
  const UPPER_DIGITS := "0123456789ABCDEF"

  lemma EvenSum(x: nat, y: nat)
    requires x % 2 == 0 && y % 2 == 0
    ensures (x + y) % 2 == 0
  {
  }

  lemma EvenDifference(x: nat, y: nat)
    requires x % 2 == 0 && y % 2 == 0 && x <= y
    ensures (y - x) % 2 == 0
  {
  }

  lemma EvenAtLeast(n: nat)
    requires n % 2 == 0 && n > 0
    ensures n >= 2 && (n - 2) % 2 == 0
  {
  }

  function Flatten<T>(ss: seq<seq<T>>): seq<T> {
    if ss == [] then [] else ss[0] + Flatten(ss[1..])
  }

  lemma {:induction false} EvenFlatten<T>(ss: seq<seq<T>>)
    requires forall x :: x in ss ==> |x| % 2 == 0
    ensures |Flatten(ss)| % 2 == 0
  {
    if ss != [] {
      EvenFlatten(ss[1..]);
      EvenSum(|ss[0]|, |Flatten(ss[1..])|);
    }
  }

  lemma FlattenCons<T>(x: seq<T>, rest: seq<seq<T>>)
    ensures Flatten([x] + rest) == x + Flatten(rest)
  {
    assert ([x] + rest)[1..] == rest;
  }

  lemma {:induction false} FlattenAppend<T>(xs: seq<seq<T>>, ys: seq<seq<T>>)
    ensures Flatten(xs + ys) == Flatten(xs) + Flatten(ys)
  {
    if xs == [] {
      assert xs + ys == ys;
    } else {
      assert (xs + ys)[1..] == xs[1..] + ys;
      FlattenAppend(xs[1..], ys);
    }
  }

  lemma FlattenSnoc<T>(xs: seq<seq<T>>, y: seq<T>)
    ensures Flatten(xs + [y]) == Flatten(xs) + y
  {
    FlattenAppend(xs, [y]);
    assert Flatten([y]) == y + Flatten<T>([]);
    assert y + [] == y;
  }

  lemma SplitAppend<T>(s: seq<T>, b: nat, t: seq<T>)
    requires b <= |s|
    ensures (s + t)[..b] == s[..b] && (s + t)[b..] == s[b..] + t
  {
  }

  lemma Assoc<T>(a: seq<T>, b: seq<T>, c: seq<T>)
    ensures a + (b + c) == (a + b) + c
  {
  }
}
