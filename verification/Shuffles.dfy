/** Two sequences interleaved into a third. */
module Shuffles {
  /** c is a and b merged, each in its own order. */
  ghost predicate Shuffle<T(!new)>(a: seq<T>, b: seq<T>, c: seq<T>)
    decreases |c|
  {
    if c == [] then a == [] && b == []
    else
      var x, rest := c[|c| - 1], c[..|c| - 1];
      || (a != [] && a[|a| - 1] == x && Shuffle(a[..|a| - 1], b, rest))
      || (b != [] && b[|b| - 1] == x && Shuffle(a, b[..|b| - 1], rest))
  }

  ghost predicate NoRepeats<T(!new)>(c: seq<T>) {
    forall i, j | 0 <= i < j < |c| :: c[i] != c[j]
  }

  lemma {:induction false} ShuffleLeft<T(!new)>(a: seq<T>, b: seq<T>, c: seq<T>, x: T)
    requires Shuffle(a, b, c)
    ensures Shuffle(a + [x], b, c + [x])
  {
    assert (a + [x])[..|a|] == a && (c + [x])[..|c|] == c;
  }

  lemma {:induction false} ShuffleRight<T(!new)>(a: seq<T>, b: seq<T>, c: seq<T>, x: T)
    requires Shuffle(a, b, c)
    ensures Shuffle(a, b + [x], c + [x])
  {
    assert (b + [x])[..|b|] == b && (c + [x])[..|c|] == c;
  }

  lemma {:induction false} ShuffleAppend<T(!new)>(a: seq<T>, b: seq<T>, c: seq<T>, d: seq<T>)
    requires Shuffle(a, b, c)
    ensures Shuffle(a + d, b, c + d)
    decreases |d|
  {
    if d == [] {
      assert a + d == a && c + d == c;
    } else {
      var n := |d| - 1;
      ShuffleAppend(a, b, c, d[..n]);
      ShuffleLeft(a + d[..n], b, c + d[..n], d[n]);
      assert a + d[..n] + [d[n]] == a + d && c + d[..n] + [d[n]] == c + d;
    }
  }

  lemma {:induction false} ShuffleMembers<T(!new)>(a: seq<T>, b: seq<T>, c: seq<T>, x: T)
    requires Shuffle(a, b, c)
    ensures x in c <==> x in a || x in b
    decreases |c|
  {
    if c != [] {
      var z, rest := c[|c| - 1], c[..|c| - 1];
      assert c == rest + [z];
      if a != [] && a[|a| - 1] == z && Shuffle(a[..|a| - 1], b, rest) {
        assert a == a[..|a| - 1] + [z];
        ShuffleMembers(a[..|a| - 1], b, rest, x);
      } else {
        assert b == b[..|b| - 1] + [z];
        ShuffleMembers(a, b[..|b| - 1], rest, x);
      }
    }
  }

  lemma {:induction false} PrefixNoRepeats<T(!new)>(c: seq<T>)
    requires NoRepeats(c) && c != []
    ensures NoRepeats(c[..|c| - 1]) && c[|c| - 1] !in c[..|c| - 1]
  {
  }

  /** What is merged out of a sequence without repeats has none either. */
  lemma {:induction false} ShuffleNoRepeats<T(!new)>(a: seq<T>, b: seq<T>, c: seq<T>)
    requires Shuffle(a, b, c) && NoRepeats(c)
    ensures NoRepeats(a)
    decreases |c|
  {
    if c != [] {
      var z, rest := c[|c| - 1], c[..|c| - 1];
      PrefixNoRepeats(c);
      if a != [] && a[|a| - 1] == z && Shuffle(a[..|a| - 1], b, rest) {
        var front := a[..|a| - 1];
        ShuffleNoRepeats(front, b, rest);
        ShuffleMembers(front, b, rest, z);
        assert a == front + [z];
      } else {
        ShuffleNoRepeats(a, b[..|b| - 1], rest);
      }
    }
  }

  /** Without repeats, what is left when b is taken out is determined. */
  lemma {:induction false} ShuffleUnique<T(!new)>(a: seq<T>, a': seq<T>, b: seq<T>, c: seq<T>)
    requires Shuffle(a, b, c) && Shuffle(a', b, c) && NoRepeats(c)
    ensures a == a'
    decreases |c|
  {
    if c != [] {
      var z, rest := c[|c| - 1], c[..|c| - 1];
      PrefixNoRepeats(c);
      if b != [] && b[|b| - 1] == z {
        if a != [] && a[|a| - 1] == z && Shuffle(a[..|a| - 1], b, rest) {
          ShuffleMembers(a[..|a| - 1], b, rest, z);
        }
        if a' != [] && a'[|a'| - 1] == z && Shuffle(a'[..|a'| - 1], b, rest) {
          ShuffleMembers(a'[..|a'| - 1], b, rest, z);
        }
        ShuffleUnique(a, a', b[..|b| - 1], rest);
      } else {
        ShuffleUnique(a[..|a| - 1], a'[..|a'| - 1], b, rest);
        assert a == a[..|a| - 1] + [z] && a' == a'[..|a'| - 1] + [z];
      }
    }
  }

  /** Where the i-th element of a sits in c, and what is before it. */
  lemma {:induction false} ShufflePlace<T(!new)>(a: seq<T>, b: seq<T>, c: seq<T>, i: nat) returns (j: nat, k: nat)
    requires Shuffle(a, b, c) && i < |a|
    ensures j < |c| && k <= |b| && c[j] == a[i] && Shuffle(a[..i], b[..k], c[..j])
    decreases |c|
  {
    var z, rest := c[|c| - 1], c[..|c| - 1];
    if a[|a| - 1] == z && Shuffle(a[..|a| - 1], b, rest) {
      if i == |a| - 1 {
        j, k := |c| - 1, |b|;
        assert b[..k] == b;
      } else {
        j, k := ShufflePlace(a[..|a| - 1], b, rest, i);
        assert a[..|a| - 1][..i] == a[..i] && rest[..j] == c[..j];
      }
    } else {
      j, k := ShufflePlace(a, b[..|b| - 1], rest, i);
      assert b[..|b| - 1][..k] == b[..k] && rest[..j] == c[..j];
    }
  }

  lemma {:induction false} ShuffleWithNothing<T(!new)>(a: seq<T>, c: seq<T>)
    requires Shuffle(a, [], c)
    ensures a == c
    decreases |c|
  {
    if c != [] {
      ShuffleWithNothing(a[..|a| - 1], c[..|c| - 1]);
      assert a == a[..|a| - 1] + [a[|a| - 1]];
    }
  }
}
