/** The bounded string routines of string.c that the rest of the process relies on. */
module CString {
  import opened Machine

  /** The text at the start of s: up to n characters, ended early by a NUL or by the end of s. */
  function Text(s: seq<uint8>, n: nat): (t: seq<uint8>)
    ensures |t| <= n && |t| <= |s|
  {
    if n == 0 || s == [] || s[0] == 0 then [] else [s[0]] + Text(s[1..], n - 1)
  }

  lemma {:induction false} TextFacts(s: seq<uint8>, n: nat)
    ensures var t := Text(s, n);
      t == s[..|t|] && 0 !in t && (|t| == n || |t| == |s| || s[|t|] == 0)
  {
    if !(n == 0 || s == [] || s[0] == 0) {
      TextFacts(s[1..], n - 1);
    }
  }

  /** Reading s up to a NUL, but at most n characters, stays inside s. */
  predicate Readable(s: seq<uint8>, n: nat) {
    |s| >= n || 0 in s
  }

  lemma TextInside(s: seq<uint8>, n: nat)
    requires Readable(s, n)
    ensures |Text(s, n)| == n || (|Text(s, n)| < |s| && s[|Text(s, n)|] == 0)
  {
  }

  lemma TextUnique(s: seq<uint8>, n: nat, len: nat)
    requires len <= n && len <= |s| && 0 !in s[..len] && (len == n || len == |s| || s[len] == 0)
    ensures |Text(s, n)| == len
  {
    var t := Text(s, n);
    TextFacts(s, n);
    assert forall k :: 0 <= k < len ==> s[..len][k] == s[k] != 0;
    assert forall k :: 0 <= k < |t| ==> t[k] == s[k] != 0;
  }

  // ---- strncmp

  /** Character by character; the end of a text counts as a NUL. */
  function Compare(a: seq<uint8>, b: seq<uint8>): int {
    if a == [] && b == [] then 0
    else if a == [] then -(b[0] as int)
    else if b == [] then a[0]
    else if a[0] != b[0] then a[0] as int - b[0] as int
    else Compare(a[1..], b[1..])
  }

  method StrNCmp(s1: seq<uint8>, s2: seq<uint8>, n: nat) returns (r: int)
    requires Readable(s1, n) && Readable(s2, n)
    ensures r == Compare(Text(s1, n), Text(s2, n))
  {
    ghost var t1, t2 := Text(s1, n), Text(s2, n);
    TextInside(s1, n);
    TextInside(s2, n);
    TextFacts(s1, n);
    TextFacts(s2, n);
    var i := 0;
    while i < n && s1[i] != 0 && s1[i] == s2[i]
      invariant 0 <= i <= |t1| && i <= |t2| && t1[..i] == t2[..i]
    {
      i := i + 1;
    }
    StopsAt(s1, s2, n, i);
    if i == n {
      return 0;
    }
    return s1[i] as int - s2[i] as int;
  }

  /** Where the loop stops, the comparison is decided. */
  lemma StopsAt(s1: seq<uint8>, s2: seq<uint8>, n: nat, i: nat)
    requires Readable(s1, n) && Readable(s2, n)
    requires i <= |Text(s1, n)| && i <= |Text(s2, n)| && Text(s1, n)[..i] == Text(s2, n)[..i]
    requires i < n ==> i < |s1| && i < |s2| && (s1[i] == 0 || s1[i] != s2[i])
    ensures Compare(Text(s1, n), Text(s2, n)) == if i == n then 0 else s1[i] as int - s2[i] as int
  {
    var t1, t2 := Text(s1, n), Text(s2, n);
    CompareAfterPrefix(t1, t2, i);
    if i < n {
      HeadAt(s1, n, i);
      HeadAt(s2, n, i);
      CompareHeads(t1[i..], t2[i..]);
    } else {
      assert t1[i..] == [] && t2[i..] == [];
    }
  }

  function Head(t: seq<uint8>): uint8 {
    if t == [] then 0 else t[0]
  }

  lemma HeadAt(s: seq<uint8>, n: nat, i: nat)
    requires Readable(s, n) && i <= |Text(s, n)| && i < n && i < |s|
    ensures Head(Text(s, n)[i..]) == s[i] && (s[i] == 0 ==> Text(s, n)[i..] == [])
  {
    TextInside(s, n);
    TextFacts(s, n);
  }

  lemma CompareHeads(a: seq<uint8>, b: seq<uint8>)
    requires Head(a) != Head(b) || (a == [] && b == [])
    ensures Compare(a, b) == Head(a) as int - Head(b) as int
  {
  }

  lemma {:induction false} CompareAfterPrefix(a: seq<uint8>, b: seq<uint8>, i: nat)
    requires i <= |a| && i <= |b| && a[..i] == b[..i]
    ensures Compare(a, b) == Compare(a[i..], b[i..])
  {
    if i == 0 {
      assert a[0..] == a && b[0..] == b;
    } else {
      assert a[0] == a[..i][0] == b[..i][0] == b[0];
      assert a[1..][..i - 1] == a[..i][1..] == b[..i][1..] == b[1..][..i - 1];
      CompareAfterPrefix(a[1..], b[1..], i - 1);
      assert a[1..][i - 1..] == a[i..] && b[1..][i - 1..] == b[i..];
    }
  }

  /** The result is the difference at the first place where the texts differ; an ended text has a NUL there. */
  lemma CompareValue(a: seq<uint8>, b: seq<uint8>, k: nat)
    requires 0 !in a && 0 !in b && k <= |a| && k <= |b| && a[..k] == b[..k]
    requires k == |a| || k == |b| || a[k] != b[k]
    ensures Compare(a, b) == (if k < |a| then a[k] as int else 0) - (if k < |b| then b[k] as int else 0)
  {
    CompareAfterPrefix(a, b, k);
    CompareHeads(a[k..], b[k..]);
  }

  /** The order is total and consistent: the comparison is a three-way comparison of texts. */
  lemma {:induction false} CompareReverses(a: seq<uint8>, b: seq<uint8>)
    ensures Compare(b, a) == -Compare(a, b)
  {
    if a != [] && b != [] && a[0] == b[0] {
      CompareReverses(a[1..], b[1..]);
    }
  }

  lemma {:induction false} CompareEqual(a: seq<uint8>, b: seq<uint8>)
    requires 0 !in a && 0 !in b
    ensures Compare(a, b) == 0 <==> a == b
  {
    if a != [] && b != [] && a[0] == b[0] {
      CompareEqual(a[1..], b[1..]);
      assert a == [a[0]] + a[1..] && b == [b[0]] + b[1..];
    }
  }

  lemma {:induction false} CompareTransitive(a: seq<uint8>, b: seq<uint8>, c: seq<uint8>)
    requires 0 !in a && 0 !in b && 0 !in c && Compare(a, b) < 0 && Compare(b, c) < 0
    ensures Compare(a, c) < 0
    decreases |a|
  {
    if a != [] && b != [] && c != [] && a[0] == b[0] == c[0] {
      CompareTransitive(a[1..], b[1..], c[1..]);
    }
  }

  /** Below means: a proper prefix, or smaller at the first difference. */
  lemma {:induction false} CompareIsLexicographic(a: seq<uint8>, b: seq<uint8>)
    requires 0 !in a && 0 !in b
    ensures Compare(a, b) < 0 <==> exists k :: 0 <= k <= |a| && k < |b| && Diverge(a, b, k)
  {
    if a == [] {
      assert b != [] ==> Diverge(a, b, 0);
    } else if b != [] {
      if a[0] < b[0] {
        assert Diverge(a, b, 0);
      } else if a[0] == b[0] {
        CompareIsLexicographic(a[1..], b[1..]);
        if Compare(a, b) < 0 {
          var k :| 0 <= k <= |a| - 1 && k < |b| - 1 && Diverge(a[1..], b[1..], k);
          assert a[..k + 1] == [a[0]] + a[1..][..k] && b[..k + 1] == [b[0]] + b[1..][..k];
          assert Diverge(a, b, k + 1);
        }
        forall k | 0 <= k <= |a| && k < |b| && Diverge(a, b, k) ensures Compare(a, b) < 0 {
          assert a[1..][..k - 1] == a[..k][1..] && b[1..][..k - 1] == b[..k][1..];
          assert Diverge(a[1..], b[1..], k - 1);
        }
      } else {
        forall k | 0 <= k <= |a| && k < |b| ensures !Diverge(a, b, k) {
          if k > 0 {
            assert a[..k][0] == a[0] && b[..k][0] == b[0];
          }
        }
      }
    }
  }

  ghost predicate Diverge(a: seq<uint8>, b: seq<uint8>, k: nat)
    requires k <= |a| && k < |b|
  {
    a[..k] == b[..k] && (k == |a| || a[k] < b[k])
  }

  // ---- strnlen, memcpy, strlcpy, strlcat

  lemma LookAhead(s: seq<uint8>, n: nat)
    requires Readable(s, n + 1)
    ensures |Text(s, n)| < |s| && (|Text(s, n)| == n || s[|Text(s, n)|] == 0)
  {
  }

  /** Looks at s[len] before it compares len with count, so it may look at s[count]. */
  method StrNLen(s: seq<uint8>, count: nat) returns (len: nat)
    requires Readable(s, count + 1)
    ensures len == |Text(s, count)|
  {
    ghost var text := Text(s, count);
    LookAhead(s, count);
    TextFacts(s, count);
    len := 0;
    while s[len] != 0 && len < count
      invariant len <= |text|
      decreases count - len
    {
      len := len + 1;
    }
    assert forall k :: 0 <= k < |text| ==> text[k] == s[k] != 0;
  }

  /** The source is a value here, so it cannot overlap the destination. */
  method MemCpy(dst: array<uint8>, at: nat, src: seq<uint8>, len: nat)
    requires at + len <= dst.Length && len <= |src|
    modifies dst
    ensures forall k :: 0 <= k < len ==> dst[at + k] == src[k]
    ensures forall k :: 0 <= k < dst.Length && !(at <= k < at + len) ==> dst[k] == old(dst[k])
  {
    var i := 0;
    while i < len
      invariant 0 <= i <= len
      invariant forall k :: 0 <= k < dst.Length && !(at <= k < at + i) ==> dst[k] == old(dst[k])
      invariant forall k :: 0 <= k < i ==> dst[at + k] == src[k]
    {
      dst[at + i] := src[i];
      i := i + 1;
    }
  }

  /**
   Copies src, cut to maxlen - 1 characters, and terminates it. The result is the number of characters copied (not the
   length of src). A text that leaves room is terminated twice, still short of maxlen.
   */
  method StrLCpy(dest: array<uint8>, at: nat, src: seq<uint8>, maxlen: nat) returns (copied: nat)
    requires maxlen >= 1 && at + maxlen <= dest.Length && Readable(src, maxlen)
    modifies dest
    ensures copied == |Text(src, maxlen - 1)|
    ensures dest[at..at + copied] == Text(src, maxlen - 1) && dest[at + copied] == 0
    ensures forall k :: 0 <= k < dest.Length && !(at <= k < at + maxlen) ==> dest[k] == old(dest[k])
  {
    LookAhead(src, maxlen - 1);
    TextFacts(src, maxlen - 1);
    ghost var text := Text(src, maxlen - 1);
    var len := StrNLen(src, maxlen - 1);
    len := len + 1;
    var needed := len;
    if len >= maxlen {
      len := maxlen - 1;
    }
    MemCpy(dest, at, src, len);
    dest[at + len] := 0;
    copied := needed - 1;
    assert forall k :: 0 <= k < copied ==> dest[at + k] == src[k] == text[k];
  }

  /** When the copied length is the length of the source: exactly when the source fits with its terminator. */
  lemma CopiedAllIff(src: seq<uint8>, maxlen: nat)
    requires maxlen >= 1
    ensures |Text(src, maxlen - 1)| == |Text(src, |src|)| <==> |Text(src, |src|)| < maxlen
  {
    if maxlen - 1 <= |src| {
      CutText(src, |src|, maxlen - 1);
    } else {
      CutText(src, maxlen - 1, |src|);
    }
  }

  /** Appends src to the text in dest, cut to maxlen - 1 characters in all, and leaves everything past maxlen alone. */
  method StrLCat(dest: array<uint8>, src: seq<uint8>, maxlen: nat) returns (total: nat)
    requires maxlen >= 1 && maxlen <= dest.Length && Readable(src, maxlen)
    modifies dest
    ensures Text(dest[..], maxlen) == Cut(Text(old(dest[..]), maxlen - 1) + Text(src, maxlen - 1), maxlen - 1)
    ensures total == |Text(dest[..], maxlen)| < maxlen && dest[total] == 0
    ensures dest[maxlen..] == old(dest[maxlen..])
  {
    ghost var before := dest[..];
    var used := StrNLen(dest[..], maxlen - 1);
    var more := StrLCpy(dest, used, src, maxlen - used);
    total := used + more;
    ghost var after := dest[..];
    assert after[used..total] == dest[used..total];
    Catenated(before, after, src, maxlen, used);
    assert after[maxlen..] == before[maxlen..];
  }

  lemma Catenated(before: seq<uint8>, after: seq<uint8>, src: seq<uint8>, maxlen: nat, used: nat)
    requires 1 <= maxlen <= |before| == |after| && used == |Text(before, maxlen - 1)|
    requires forall k :: 0 <= k < used ==> after[k] == before[k]
    requires var tail := Text(src, maxlen - used - 1);
      after[used..used + |tail|] == tail && after[used + |tail|] == 0
    ensures Text(after, maxlen) == Cut(Text(before, maxlen - 1) + Text(src, maxlen - 1), maxlen - 1)
    ensures |Text(after, maxlen)| == used + |Text(src, maxlen - used - 1)|
  {
    var head, text := before[..used], Text(src, maxlen - 1);
    assert Text(before, maxlen - 1) == head && 0 !in head by {
      TextFacts(before, maxlen - 1);
    }
    assert 0 !in text by {
      TextFacts(src, maxlen - 1);
    }
    CutText(src, maxlen - 1, maxlen - 1 - used);
    assert after[..used] == head;
    Appended(after, head, text, maxlen);
    CutAppended(head, text, maxlen - 1);
  }

  lemma Appended(s: seq<uint8>, head: seq<uint8>, text: seq<uint8>, maxlen: nat)
    requires 0 !in head && 0 !in text && |head| < maxlen <= |s| && s[..|head|] == head
    requires var tail := Cut(text, maxlen - 1 - |head|);
      s[|head|..|head| + |tail|] == tail && s[|head| + |tail|] == 0
    ensures Text(s, maxlen) == Cut(head + text, maxlen - 1)
  {
    var tail := Cut(text, maxlen - 1 - |head|);
    TextOfParts(s, head, tail, maxlen);
    CutAppended(head, text, maxlen - 1);
  }

  lemma TextOfParts(s: seq<uint8>, head: seq<uint8>, tail: seq<uint8>, n: nat)
    requires 0 !in head && 0 !in tail && |head| + |tail| < n <= |s|
    requires s[..|head|] == head && s[|head|..|head| + |tail|] == tail && s[|head| + |tail|] == 0
    ensures Text(s, n) == head + tail
  {
    var total := |head| + |tail|;
    assert s[..total] == head + tail;
    TextUnique(s, n, total);
    TextFacts(s, n);
  }

  lemma CutAppended(s: seq<uint8>, t: seq<uint8>, n: nat)
    requires |s| <= n
    ensures Cut(s + t, n) == s + Cut(t, n - |s|)
  {
  }

  function Cut(s: seq<uint8>, n: nat): seq<uint8> {
    if |s| <= n then s else s[..n]
  }

  lemma CutText(s: seq<uint8>, n: nat, m: nat)
    requires m <= n
    ensures Text(s, m) == Cut(Text(s, n), m)
  {
  }
}
