/** The array operations the handlers use on id lists: `filter` that drops
    one value, and the duplicate-freedom the like and dislike lists keep. */
module Lists {

  predicate NoDup<T(==)>(s: seq<T>) {
    forall i, j :: 0 <= i < j < |s| ==> s[i] != s[j]
  }

  /** `s.filter(v => v !== x)`: every occurrence of `x` removed, the other
      elements kept in their order. */
  function Without<T(==)>(s: seq<T>, x: T): (r: seq<T>)
    ensures multiset(r) == multiset(s)[x := 0]
    ensures x !in r
    ensures x !in s ==> r == s
    ensures |r| <= |s|
  {
    if s == [] then []
    else
      assert s == [s[0]] + s[1..];
      if s[0] == x then Without(s[1..], x) else [s[0]] + Without(s[1..], x)
  }

  /** Filtering distributes over concatenation. */
  lemma {:induction false} WithoutAppend<T>(a: seq<T>, b: seq<T>, x: T)
    ensures Without(a + b, x) == Without(a, x) + Without(b, x)
    decreases |a|
  {
    if a == [] {
      assert a + b == b;
    } else {
      assert (a + b)[0] == a[0];
      assert (a + b)[1..] == a[1..] + b;
      WithoutAppend(a[1..], b, x);
    }
  }

  /** Filtering keeps a duplicate-free list duplicate-free. */
  lemma {:induction false} WithoutKeepsNoDup<T>(s: seq<T>, x: T)
    requires NoDup(s)
    ensures NoDup(Without(s, x))
    decreases |s|
  {
    if s != [] {
      assert NoDup(s[1..]) by {
        forall i, j | 0 <= i < j < |s[1..]|
          ensures s[1..][i] != s[1..][j]
        {
          assert s[1..][i] == s[i + 1] && s[1..][j] == s[j + 1];
        }
      }
      WithoutKeepsNoDup(s[1..], x);
      if s[0] != x {
        var rest := Without(s[1..], x);
        assert s[0] !in s[1..];
        assert s[0] !in multiset(rest);
        assert NoDup([s[0]] + rest) by {
          forall i, j | 0 <= i < j < |[s[0]] + rest|
            ensures ([s[0]] + rest)[i] != ([s[0]] + rest)[j]
          {
            if i == 0 {
              assert ([s[0]] + rest)[j] == rest[j - 1];
              assert rest[j - 1] in multiset(rest);
            } else {
              assert ([s[0]] + rest)[i] == rest[i - 1] && ([s[0]] + rest)[j] == rest[j - 1];
            }
          }
        }
      }
    }
  }

  /** `s.push(x)` onto a list that lacks `x` keeps it duplicate-free. */
  lemma AppendFreshKeepsNoDup<T>(s: seq<T>, x: T)
    requires NoDup(s) && x !in s
    ensures NoDup(s + [x])
  {
    forall i, j | 0 <= i < j < |s + [x]|
      ensures (s + [x])[i] != (s + [x])[j]
    {
      if j == |s| {
        assert (s + [x])[i] == s[i];
      } else {
        assert (s + [x])[i] == s[i] && (s + [x])[j] == s[j];
      }
    }
  }

  /** The list read from the back: position `i` holds what `s` holds at
      position `|s| - 1 - i`. */
  function Reversed<T>(s: seq<T>): (r: seq<T>)
    ensures |r| == |s|
    ensures forall i :: 0 <= i < |s| ==> r[i] == s[|s| - 1 - i]
  {
    if s == [] then [] else [s[|s| - 1]] + Reversed(s[..|s| - 1])
  }
}
