/** Small helpers shared by the other modules. */
module Common {

  datatype Option<T> = None | Some(value: T)

  /** No element occurs twice. */
  predicate Distinct<T(==)>(s: seq<T>)
  {
    forall i, j :: 0 <= i < j < |s| ==> s[i] != s[j]
  }

  /** Every element is smaller than every element after it. */
  predicate StrictlyIncreasing(s: seq<int>)
  {
    forall i, j :: 0 <= i < j < |s| ==> s[i] < s[j]
  }

  /** Appending an element above every element keeps a sequence strictly increasing. */
  lemma IncreasingSnoc(s: seq<int>, x: int)
    requires StrictlyIncreasing(s) && forall i :: 0 <= i < |s| ==> s[i] < x
    ensures StrictlyIncreasing(s + [x])
  {
  }

  /** Two different positions of a strictly increasing sequence hold different elements. */
  lemma IncreasingAt(s: seq<int>, i: nat, j: nat)
    requires StrictlyIncreasing(s) && i < |s| && j < |s| && i != j
    ensures s[i] != s[j]
  {
  }

  /** A strictly increasing sequence has as many elements as positions. */
  lemma {:induction false} IncreasingCard(s: seq<int>)
    requires StrictlyIncreasing(s)
    ensures |set x | x in s| == |s|
    decreases |s|
  {
    if s != [] {
      var n := |s| - 1;
      IncreasingCard(s[..n]);
      assert (set x | x in s) == (set x | x in s[..n]) + {s[n]} by { FrontMembers(s); }
      assert s[n] !in (set x | x in s[..n]);
    }
  }

  /** The first `n` elements of `s` are the elements of `s[..n]`. */
  lemma FrontIndex<T>(s: seq<T>, n: nat)
    requires n <= |s|
    ensures forall t :: 0 <= t < n ==> s[..n][t] == s[t]
  {
  }

  /** The elements of a non-empty sequence are those of its front and its last element. */
  lemma FrontMembers<T>(s: seq<T>)
    requires s != []
    ensures forall x :: x in s <==> x in s[..|s| - 1] || x == s[|s| - 1]
  {
    assert s == s[..|s| - 1] + [s[|s| - 1]];
  }

  /** The last element of a list of distinct elements is not in the rest. */
  lemma DistinctLast<T>(s: seq<T>)
    requires Distinct(s) && s != []
    ensures s[|s| - 1] !in s[..|s| - 1]
    ensures Distinct(s[..|s| - 1])
  {
  }

  /** A strictly increasing sequence has no repetitions. */
  lemma IncreasingDistinct(s: seq<int>)
    requires StrictlyIncreasing(s)
    ensures Distinct(s)
  {
  }

  /** The last `n` elements of `s`, or all of `s` when it is shorter: Python's `s[-n:]` for `n > 0`. */
  function LastN<T>(s: seq<T>, n: nat): (r: seq<T>)
    ensures |r| == if |s| <= n then |s| else n
  {
    if |s| <= n then s else s[|s| - n..]
  }

  /** Taking the last `n` after appending one element is the same as appending to the last `n` and dropping the oldest when over `n`. */
  lemma LastNAppend<T>(s: seq<T>, x: T, n: nat)
    ensures LastN(s + [x], n) == var t := LastN(s, n) + [x]; if |t| > n then t[1..] else t
  {
    var t := LastN(s, n) + [x];
    if |s| + 1 > n {
      assert (s + [x])[|s| + 1 - n..] == (if |t| > n then t[1..] else t);
    }
  }

  /** The character of a decimal digit. */
  function DigitChar(d: nat): char
    requires d < 10
  {
    ('0' as int + d) as char
  }

  /** Python's `str(n)` for a non-negative integer: its decimal digits, without leading zeros. */
  function NatToString(n: nat): (s: string)
    ensures |s| >= 1 && (n >= 10 ==> |s| >= 2) && (n < 10 ==> |s| == 1)
    ensures forall k :: 0 <= k < |s| ==> '0' <= s[k] <= '9'
    decreases n
  {
    if n < 10 then [DigitChar(n)] else NatToString(n / 10) + [DigitChar(n % 10)]
  }

  /** Different numbers have different decimal representations. */
  lemma {:induction false} NatToStringInjective(a: nat, b: nat)
    requires NatToString(a) == NatToString(b)
    ensures a == b
    decreases a
  {
    if a >= 10 && b >= 10 {
      var sa, sb := NatToString(a), NatToString(b);
      assert sa[..|sa| - 1] == NatToString(a / 10) && sb[..|sb| - 1] == NatToString(b / 10);
      assert DigitChar(a % 10) == sa[|sa| - 1] == sb[|sb| - 1] == DigitChar(b % 10);
      NatToStringInjective(a / 10, b / 10);
    }
  }
}
