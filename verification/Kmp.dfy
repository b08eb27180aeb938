/** The border table of Knuth, Morris and Pratt: `kmp_mknext`. */
module Kmp {
  import opened Bytes

  /** The first k bytes of p[..n] are also its last k, and they are not all of it. */
  ghost predicate Border(p: Text, n: int, k: int) {
    0 <= k < n <= |p| && forall i :: 0 <= i < k ==> p[i] == p[n - k + i]
  }

  ghost predicate LongestBorder(p: Text, n: int, k: int) {
    Border(p, n, k) && forall j :: Border(p, n, j) ==> j <= k
  }

  lemma BorderIsPrefixAndSuffix(p: Text, n: int, k: int)
    ensures Border(p, n, k) <==> 0 <= k < n <= |p| && p[..k] == p[..n][n - k..]
  {
    if 0 <= k < n <= |p| && p[..k] == p[..n][n - k..] {
      forall i | 0 <= i < k ensures p[i] == p[n - k + i] {
        assert p[..k][i] == p[..n][n - k..][i];
      }
    }
  }

  /** A shorter border of p[..n] is a border of a longer one, and the other way round. */
  lemma BordersNest(p: Text, n: int, k: int, j: int)
    requires Border(p, n, k)
    ensures Border(p, k, j) <==> j < k && Border(p, n, j)
  {
    if Border(p, k, j) {
      forall i | 0 <= i < j ensures p[i] == p[n - j + i] {
        assert p[k - j + i] == p[n - k + (k - j + i)];
      }
    }
    if j < k && Border(p, n, j) {
      forall i | 0 <= i < j ensures p[i] == p[k - j + i] {
        assert p[k - j + i] == p[n - k + (k - j + i)];
      }
    }
  }

  lemma BorderExtends(p: Text, n: int, j: int)
    requires 1 <= n < |p| && 0 <= j
    ensures Border(p, n + 1, j + 1) <==> Border(p, n, j) && p[j] == p[n]
  {
    if Border(p, n + 1, j + 1) {
      forall i | 0 <= i < j ensures p[i] == p[n - j + i] {
        assert p[i] == p[n + 1 - (j + 1) + i];
      }
      assert p[j] == p[n + 1 - (j + 1) + j];
    }
  }

  /** k is a border of p[..q], and every longer one fails to extend by p[q]. */
  ghost predicate Candidate(p: Text, q: int, k: int) {
    1 <= q < |p| && Border(p, q, k) && forall j :: Border(p, q, j) && j > k ==> p[j] != p[q]
  }

  lemma CandidateDrops(p: Text, q: int, k: int, k': int)
    requires Candidate(p, q, k) && 0 < k && p[q] != p[k] && LongestBorder(p, k, k')
    ensures Candidate(p, q, k')
  {
    BordersNest(p, q, k, k');
    forall j | Border(p, q, j) && j > k' ensures p[j] != p[q] {
      BordersNest(p, q, k, j);
    }
  }

  lemma CandidateWins(p: Text, q: int, k: int)
    requires Candidate(p, q, k) && (p[q] == p[k] || k == 0)
    ensures LongestBorder(p, q + 1, if p[q] == p[k] then k + 1 else k)
  {
    BorderExtends(p, q, k);
    var n, best := q + 1, if p[q] == p[k] then k + 1 else k;
    forall j | Border(p, n, j) ensures j <= best {
      if j > 0 {
        BorderExtends(p, q, j - 1);
      }
    }
  }

  /** The table is right below q. */
  ghost predicate Filled(pattern: Text, next: array<int>, q: int)
    requires q <= next.Length
    reads next
  {
    forall j :: 0 <= j < q ==> LongestBorder(pattern, j + 1, next[j])
  }

  /** The inner loop: shrink the border until it can be extended by pattern[q], or is empty. */
  method Shrink(pattern: Text, next: array<int>, q: int, start: int) returns (k: int)
    requires 1 <= q < |pattern| == next.Length && start == next[q - 1] && Filled(pattern, next, q)
    ensures Candidate(pattern, q, k) && (pattern[q] == pattern[k] || k == 0)
  {
    k := start;
    assert LongestBorder(pattern, q - 1 + 1, next[q - 1]);
    while k > 0 && pattern[q] != pattern[k]
      invariant Candidate(pattern, q, k)
      decreases k
    {
      assert LongestBorder(pattern, k - 1 + 1, next[k - 1]);
      CandidateDrops(pattern, q, k, next[k - 1]);
      k := next[k - 1];
    }
  }

  /** `kmp_mknext` fills next[q] with the length of the longest proper border of pattern[..q + 1]. */
  method MkNext(pattern: Text, next: array<int>)
    requires pattern != [] && next.Length == |pattern|
    modifies next
    ensures forall q :: 0 <= q < |pattern| ==> LongestBorder(pattern, q + 1, next[q])
  {
    next[0] := 0;
    var q, k := 1, 0;
    while q < |pattern|
      invariant 1 <= q <= |pattern| && k == next[q - 1] && Filled(pattern, next, q)
    {
      k := Shrink(pattern, next, q, k);
      CandidateWins(pattern, q, k);
      if pattern[q] == pattern[k] {
        k := k + 1;
      }
      next[q] := k;
      q := q + 1;
    }
  }
}
