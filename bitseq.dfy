/**
 * The abstract view every index in this model is proved against: a finite
 * sequence of bits, with rank (how many bits equal to `v` lie before a
 * position) and select (where the r-th bit equal to `v` lies).
 */
module BitSeq {
  /** Number of positions of `s` holding `v`. */
  function Count(s: seq<bool>, v: bool): (r: nat)
    ensures r <= |s|
  {
    if s == [] then 0
    else Count(s[..|s| - 1], v) + (if s[|s| - 1] == v then 1 else 0)
  }

  /** `i` is the position of the `r`-th (counting from 1) bit equal to `v` in `s`. */
  predicate IsSelect(s: seq<bool>, v: bool, r: int, i: int) {
    0 <= i < |s| && s[i] == v && Count(s[..i], v) + 1 == r
  }

  /** `t` is `s` with every bit flipped. */
  predicate Negated(s: seq<bool>, t: seq<bool>) {
    |s| == |t| && forall i :: 0 <= i < |s| ==> t[i] == !s[i]
  }

  /** Counting a concatenation adds the counts of its parts. */
  lemma {:induction false} CountAppend(a: seq<bool>, b: seq<bool>, v: bool)
    ensures Count(a + b, v) == Count(a, v) + Count(b, v)
    decreases |b|
  {
    if b == [] {
      assert a + b == a;
    } else {
      var b' := b[..|b| - 1];
      assert (a + b)[..|a + b| - 1] == a + b';
      CountAppend(a, b', v);
    }
  }

  /** Counting one more position of a sequence. */
  lemma CountPrefixStep(s: seq<bool>, i: nat, v: bool)
    requires i < |s|
    ensures Count(s[..i + 1], v) == Count(s[..i], v) + (if s[i] == v then 1 else 0)
  {
    assert s[..i + 1][..i] == s[..i];
  }

  /** A slice of one position counts that position alone. */
  lemma CountSingle(s: seq<bool>, i: int, v: bool)
    requires 0 <= i < |s|
    ensures Count(s[i .. i + 1], v) == if s[i] == v then 1 else 0
  {
    assert s[i .. i + 1][..0] == [];
  }

  /** Every position holds either a one or a zero. */
  lemma {:induction false} CountComplement(s: seq<bool>)
    ensures Count(s, true) + Count(s, false) == |s|
    decreases |s|
  {
    if s != [] {
      CountComplement(s[..|s| - 1]);
    }
  }

  /** Flipping every bit exchanges the counts of ones and zeros. */
  lemma {:induction false} CountNegated(s: seq<bool>, t: seq<bool>, v: bool)
    requires Negated(s, t)
    ensures Count(t, v) == Count(s, !v)
    decreases |s|
  {
    if s != [] {
      CountNegated(s[..|s| - 1], t[..|t| - 1], v);
    }
  }

  /** A sequence with no bit equal to `v` counts zero. */
  lemma {:induction false} CountNone(s: seq<bool>, v: bool)
    requires forall i :: 0 <= i < |s| ==> s[i] != v
    ensures Count(s, v) == 0
    decreases |s|
  {
    if s != [] {
      CountNone(s[..|s| - 1], v);
    }
  }

  /** A count over a prefix never exceeds the count over a longer prefix. */
  lemma CountPrefixMonotone(s: seq<bool>, i: nat, j: nat, v: bool)
    requires i <= j <= |s|
    ensures Count(s[..i], v) <= Count(s[..j], v)
    ensures Count(s[..j], v) - Count(s[..i], v) == Count(s[i..j], v)
  {
    assert s[..j] == s[..i] + s[i..j];
    CountAppend(s[..i], s[i..j], v);
  }

  /** At most one position is the `r`-th bit equal to `v`. */
  lemma SelectUnique(s: seq<bool>, v: bool, r: int, i: int, j: int)
    requires IsSelect(s, v, r, i) && IsSelect(s, v, r, j)
    ensures i == j
  {
    if i < j {
      CountPrefixStep(s, i, v);
      CountPrefixMonotone(s, i + 1, j, v);
    } else if j < i {
      CountPrefixStep(s, j, v);
      CountPrefixMonotone(s, j + 1, i, v);
    }
  }

  /** Every rank between 1 and the number of bits equal to `v` is selected somewhere. */
  lemma {:induction false} SelectExists(s: seq<bool>, v: bool, r: int)
    requires 1 <= r <= Count(s, v)
    ensures exists i :: IsSelect(s, v, r, i)
    decreases |s|
  {
    var n := |s| - 1;
    var p := s[..n];
    assert s[..n] == p;
    if r <= Count(p, v) {
      SelectExists(p, v, r);
      var i :| IsSelect(p, v, r, i);
      assert s[..i] == p[..i];
      assert IsSelect(s, v, r, i);
    } else {
      assert s[n] == v && Count(p, v) + 1 == r;
      assert IsSelect(s, v, r, n);
    }
  }

  /** The position selected for rank `r` closes a prefix whose rank is exactly `r`. */
  lemma RankOfSelect(s: seq<bool>, v: bool, r: int, i: int)
    requires IsSelect(s, v, r, i)
    ensures Count(s[..i + 1], v) == r
  {
    CountPrefixStep(s, i, v);
  }

  /** A selected position lies inside every prefix that already holds `r` bits equal to `v`. */
  lemma SelectInsidePrefix(s: seq<bool>, v: bool, r: int, i: int, n: nat)
    requires IsSelect(s, v, r, i) && n <= |s| && r <= Count(s[..n], v)
    ensures i < n && IsSelect(s[..n], v, r, i)
  {
    if n <= i {
      CountPrefixMonotone(s, n, i, v);
    }
    assert s[..n][..i] == s[..i];
  }

  /** Selection inside a later slice of `s`, shifted to a position of `s`. */
  lemma SelectShift(s: seq<bool>, v: bool, r: int, lo: nat, hi: nat, k: int)
    requires lo <= hi <= |s| && IsSelect(s[lo..hi], v, k, r - lo)
    ensures IsSelect(s, v, Count(s[..lo], v) + k, r)
  {
    var d := r - lo;
    assert s[lo..hi][..d] == s[lo..r];
    CountPrefixMonotone(s, lo, r, v);
  }

  /** `t` is `s` read backwards. */
  predicate Reversal(s: seq<bool>, t: seq<bool>) {
    |s| == |t| && forall i :: 0 <= i < |s| ==> t[i] == s[|s| - 1 - i]
  }

  /** Reading a sequence backwards does not change its counts. */
  lemma {:induction false} CountReversal(s: seq<bool>, t: seq<bool>, v: bool)
    requires Reversal(s, t)
    ensures Count(t, v) == Count(s, v)
    decreases |s|
  {
    if s != [] {
      var s' := s[..|s| - 1];
      var t' := t[1..];
      assert Reversal(s', t') by {
        forall i | 0 <= i < |s'|
          ensures t'[i] == s'[|s'| - 1 - i]
        {
          assert t'[i] == t[i + 1];
        }
      }
      CountReversal(s', t', v);
      assert t == t[..1] + t';
      CountAppend(t[..1], t', v);
      CountSingle(t, 0, v);
    }
  }

  /** A count over a window where `u` agrees with `s` below `n` and holds no `v` from `n` on. */
  lemma CountMasked(s: seq<bool>, u: seq<bool>, n: nat, v: bool)
    requires |s| == |u| && n <= |s|
    requires forall i :: 0 <= i < n ==> u[i] == s[i]
    requires forall i :: n <= i < |u| ==> u[i] != v
    ensures Count(u, v) == Count(s[..n], v)
  {
    assert u == u[..n] + u[n..];
    CountAppend(u[..n], u[n..], v);
    CountNone(u[n..], v);
    assert u[..n] == s[..n];
  }

  /** A count over a window where `u` agrees with `s` from `n` on and holds no `v` below `n`. */
  lemma CountMaskedHigh(s: seq<bool>, u: seq<bool>, n: nat, v: bool)
    requires |s| == |u| && n <= |s|
    requires forall i :: n <= i < |u| ==> u[i] == s[i]
    requires forall i :: 0 <= i < n ==> u[i] != v
    ensures Count(u, v) == Count(s[n..], v)
  {
    assert u == u[..n] + u[n..];
    CountAppend(u[..n], u[n..], v);
    CountNone(u[..n], v);
    assert u[n..] == s[n..];
  }

  /** A sequence that agrees with `s` everywhere but at `k`, where it holds `v`, is `s[k := v]`. */
  lemma PointwiseUpdate(s: seq<bool>, t: seq<bool>, k: int, v: bool)
    requires |s| == |t| && 0 <= k < |s|
    requires forall i :: 0 <= i < |s| ==> t[i] == if i == k then v else s[i]
    ensures t == s[k := v]
  {}
}
