/**
 * strncmp of kernel.c: a bounded comparison of two NUL-terminated byte strings.
 *
 * A C string is a pointer; here it is the sequence of bytes that may be read from
 * that pointer on. The specification `Compare` is total: it yields `None` when the
 * comparison would run off the end of either sequence before it stops, that is,
 * when the C code would read memory the caller did not hand it.
 */
module CString {

  import opened Types

  /**
   * What `strncmp(s1, s2, n)` returns: walk both strings while `n` lasts, stop with
   * the difference of the unsigned bytes at the first mismatch, or with 0 at a
   * shared NUL or when `n` bytes have matched.
   */
  function Compare(s1: seq<u8>, s2: seq<u8>, n: nat): (r: Option<int>)
    ensures r.Some? ==> -255 <= r.value <= 255
    decreases n
  {
    if n == 0 then Some(0)
    else if |s1| == 0 || |s2| == 0 then None
    else if s1[0] != s2[0] then Some(s1[0] as int - s2[0] as int)
    else if s1[0] == 0 then Some(0)
    else Compare(s1[1..], s2[1..], n - 1)
  }

  /**
   * How many bytes of each string the comparison examines: up to and including the
   * byte at which it stops, never more than `n`.
   */
  function Span(s1: seq<u8>, s2: seq<u8>, n: nat): (k: nat)
    ensures k <= n
    decreases n
  {
    if n == 0 || |s1| == 0 || |s2| == 0 then 0
    else if s1[0] != s2[0] || s1[0] == 0 then 1
    else 1 + Span(s1[1..], s2[1..], n - 1)
  }

  /** The strings agree on their first `n` bytes, or up to and including a NUL before `n`. */
  predicate SameString(s1: seq<u8>, s2: seq<u8>, n: nat) {
    || (n <= |s1| && n <= |s2| && s1[..n] == s2[..n])
    || (exists k :: 0 <= k < n && k < |s1| && k < |s2| && s1[k] == 0 && s1[..k + 1] == s2[..k + 1])
  }

  /** A string that holds `n` bytes or is NUL-terminated: what the C caller must supply. */
  predicate Terminated(s: seq<u8>, n: nat) {
    n <= |s| || 0 in s
  }

  /**
   * strncmp: compares at most `n` bytes, advancing both pointers and counting `n`
   * down, and returns as soon as the bytes differ or a shared NUL is reached.
   */
  method StrNCmp(s1: seq<u8>, s2: seq<u8>, n: u16) returns (r: int)
    requires Compare(s1, s2, n).Some?
    ensures Compare(s1, s2, n) == Some(r)
  {
    var p1, p2, count := 0, 0, n;
    while count > 0
      invariant 0 <= count <= n && p1 == p2 == n - count
      invariant p1 <= |s1| && p2 <= |s2|
      invariant Compare(s1[p1..], s2[p2..], count) == Compare(s1, s2, n)
    {
      assert s1[p1..][1..] == s1[p1 + 1..] && s2[p2..][1..] == s2[p2 + 1..];
      count := count - 1;
      var u1, u2 := s1[p1], s2[p2];
      p1, p2 := p1 + 1, p2 + 1;
      if u1 != u2 {
        return u1 as int - u2 as int;
      }
      if u1 == 0 {
        return 0;
      }
    }
    return 0;
  }

  /** Two strings the C contract admits are compared without reading past either. */
  lemma {:induction false} TerminatedIsReadable(s1: seq<u8>, s2: seq<u8>, n: nat)
    requires Terminated(s1, n) && Terminated(s2, n)
    ensures Compare(s1, s2, n).Some?
    decreases n
  {
    if n > 0 && |s1| > 0 && |s2| > 0 && s1[0] == s2[0] && s1[0] != 0 {
      assert 0 in s1 ==> 0 in s1[1..] by {
        if 0 in s1 {
          var i :| 0 <= i < |s1| && s1[i] == 0;
          assert s1[1..][i - 1] == 0;
        }
      }
      assert 0 in s2 ==> 0 in s2[1..] by {
        if 0 in s2 {
          var i :| 0 <= i < |s2| && s2[i] == 0;
          assert s2[1..][i - 1] == 0;
        }
      }
      TerminatedIsReadable(s1[1..], s2[1..], n - 1);
    }
  }

  /** Comparing zero bytes yields 0, whatever the strings. */
  lemma CompareNothing(s1: seq<u8>, s2: seq<u8>)
    ensures Compare(s1, s2, 0) == Some(0) && Span(s1, s2, 0) == 0
  {
  }

  /** A string compares equal to itself, whenever the comparison stays inside it. */
  lemma {:induction false} CompareSelf(s: seq<u8>, n: nat)
    requires Compare(s, s, n).Some?
    ensures Compare(s, s, n) == Some(0)
    decreases n
  {
    if n > 0 && s[0] != 0 {
      CompareSelf(s[1..], n - 1);
    }
  }

  /** Agreement survives dropping one equal, non-NUL leading byte from both strings. */
  lemma SameStringDropHead(s1: seq<u8>, s2: seq<u8>, n: nat)
    requires n > 0 && |s1| > 0 && |s2| > 0 && s1[0] == s2[0] && s1[0] != 0
    requires SameString(s1, s2, n)
    ensures SameString(s1[1..], s2[1..], n - 1)
  {
    var t1, t2 := s1[1..], s2[1..];
    if n <= |s1| && n <= |s2| && s1[..n] == s2[..n] {
      assert t1[..n - 1] == s1[..n][1..] && t2[..n - 1] == s2[..n][1..];
    } else {
      var k :| 0 <= k < n && k < |s1| && k < |s2| && s1[k] == 0 && s1[..k + 1] == s2[..k + 1];
      assert k != 0;
      assert t1[k - 1] == s1[k];
      assert t1[..k] == s1[..k + 1][1..] && t2[..k] == s2[..k + 1][1..];
    }
  }

  /** Agreement survives putting the same non-NUL byte in front of both strings. */
  lemma SameStringAddHead(s1: seq<u8>, s2: seq<u8>, n: nat)
    requires n > 0 && |s1| > 0 && |s2| > 0 && s1[0] == s2[0] && s1[0] != 0
    requires SameString(s1[1..], s2[1..], n - 1)
    ensures SameString(s1, s2, n)
  {
    var t1, t2 := s1[1..], s2[1..];
    if n - 1 <= |t1| && n - 1 <= |t2| && t1[..n - 1] == t2[..n - 1] {
      assert s1[..n] == [s1[0]] + t1[..n - 1] && s2[..n] == [s2[0]] + t2[..n - 1];
    } else {
      var k :| 0 <= k < n - 1 && k < |t1| && k < |t2| && t1[k] == 0 && t1[..k + 1] == t2[..k + 1];
      assert s1[..k + 2] == [s1[0]] + t1[..k + 1] && s2[..k + 2] == [s2[0]] + t2[..k + 1];
      assert s1[k + 1] == t1[k];
    }
  }

  /** strncmp returns 0 exactly when the strings agree as far as it looks. */
  lemma {:induction false} CompareZeroIff(s1: seq<u8>, s2: seq<u8>, n: nat)
    ensures Compare(s1, s2, n) == Some(0) <==> SameString(s1, s2, n)
    decreases n
  {
    if n == 0 {
      assert s1[..0] == s2[..0];
    } else if |s1| == 0 || |s2| == 0 {
    } else if s1[0] != s2[0] {
      if n <= |s1| && n <= |s2| {
        assert s1[..n][0] != s2[..n][0];
      }
      forall k | 0 <= k < |s1| && k < |s2|
        ensures s1[k] == 0 ==> s1[..k + 1] != s2[..k + 1]
      {
        assert s1[..k + 1][0] != s2[..k + 1][0];
      }
    } else if s1[0] == 0 {
      assert s1[..1] == s2[..1];
    } else {
      CompareZeroIff(s1[1..], s2[1..], n - 1);
      if SameString(s1, s2, n) {
        SameStringDropHead(s1, s2, n);
      }
      if SameString(s1[1..], s2[1..], n - 1) {
        SameStringAddHead(s1, s2, n);
      }
    }
  }

  /**
   * A nonzero result is the difference of the unsigned bytes at the first position
   * where the strings differ; before it they agree and hold no NUL.
   */
  lemma {:induction false} CompareNonzero(s1: seq<u8>, s2: seq<u8>, n: nat, r: int)
    requires Compare(s1, s2, n) == Some(r) && r != 0
    ensures 1 <= Span(s1, s2, n) <= n
    ensures var k := Span(s1, s2, n) - 1;
      && k < |s1| && k < |s2| && s1[k] != s2[k] && r == s1[k] as int - s2[k] as int
      && forall j :: 0 <= j < k ==> s1[j] == s2[j] && s1[j] != 0
    decreases n
  {
    if s1[0] == s2[0] {
      CompareNonzero(s1[1..], s2[1..], n - 1, r);
      var k := Span(s1[1..], s2[1..], n - 1) - 1;
      assert forall j :: 0 <= j < k ==> s1[1..][j] == s1[j + 1] && s2[1..][j] == s2[j + 1];
    }
  }

  /** Swapping the strings negates the result and reads past the end in the same cases. */
  lemma {:induction false} CompareAntisymmetric(s1: seq<u8>, s2: seq<u8>, n: nat)
    ensures Compare(s2, s1, n).Some? == Compare(s1, s2, n).Some?
    ensures Compare(s1, s2, n).Some? ==> Compare(s2, s1, n).value == -Compare(s1, s2, n).value
    decreases n
  {
    if n > 0 && |s1| > 0 && |s2| > 0 && s1[0] == s2[0] && s1[0] != 0 {
      CompareAntisymmetric(s1[1..], s2[1..], n - 1);
    }
  }

  /** The comparison never looks past a NUL that both strings share. */
  lemma {:induction false} SpanStopsAtSharedNul(s1: seq<u8>, s2: seq<u8>, n: nat, k: nat)
    requires k < n && k < |s1| && k < |s2| && s1[k] == 0 && s1[..k + 1] == s2[..k + 1]
    ensures Span(s1, s2, n) <= k + 1
    decreases k
  {
    assert s1[0] == s1[..k + 1][0] && s2[0] == s2[..k + 1][0];
    if k > 0 && s1[0] != 0 {
      assert s1[1..][..k] == s1[..k + 1][1..] && s2[1..][..k] == s2[..k + 1][1..];
      SpanStopsAtSharedNul(s1[1..], s2[1..], n - 1, k - 1);
    }
  }

  /** A comparison that stays inside both strings examines bytes that exist in both. */
  lemma {:induction false} SpanInside(s1: seq<u8>, s2: seq<u8>, n: nat)
    requires Compare(s1, s2, n).Some?
    ensures Span(s1, s2, n) <= |s1| && Span(s1, s2, n) <= |s2|
    decreases n
  {
    if n > 0 && s1[0] == s2[0] && s1[0] != 0 {
      SpanInside(s1[1..], s2[1..], n - 1);
    }
  }

  /**
   * strncmp reads only the first `Span` bytes of each string: strings that agree
   * with them on those bytes compare the same way.
   */
  lemma {:induction false} CompareReadsOnlySpan(s1: seq<u8>, s2: seq<u8>, t1: seq<u8>, t2: seq<u8>, n: nat)
    requires Compare(s1, s2, n).Some?
    requires Span(s1, s2, n) <= |s1| && Span(s1, s2, n) <= |t1| && t1[..Span(s1, s2, n)] == s1[..Span(s1, s2, n)]
    requires Span(s1, s2, n) <= |s2| && Span(s1, s2, n) <= |t2| && t2[..Span(s1, s2, n)] == s2[..Span(s1, s2, n)]
    ensures Compare(t1, t2, n) == Compare(s1, s2, n) && Span(t1, t2, n) == Span(s1, s2, n)
    decreases n
  {
    if n > 0 {
      var m := Span(s1, s2, n);
      assert t1[0] == t1[..m][0] == s1[..m][0] == s1[0];
      assert t2[0] == t2[..m][0] == s2[..m][0] == s2[0];
      if s1[0] == s2[0] && s1[0] != 0 {
        var k := Span(s1[1..], s2[1..], n - 1);
        assert t1[1..][..k] == t1[..m][1..] && s1[1..][..k] == s1[..m][1..];
        assert t2[1..][..k] == t2[..m][1..] && s2[1..][..k] == s2[..m][1..];
        CompareReadsOnlySpan(s1[1..], s2[1..], t1[1..], t2[1..], n - 1);
      }
    }
  }
}
