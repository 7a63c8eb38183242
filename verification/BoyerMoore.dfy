/** Boyer-Moore search: two shift tables computed from the needle once, then any number of searches. */
module BoyerMoores {
  import opened Basics

  const ALPHABET_SIZE := 256

  datatype Error = NeedleTooLong | HaystackTooLong
  datatype Result<T> = Ok(value: T) | Err(error: Error)

  // ---------- what the tables mean ----------

  /** The needle occurs at position j. */
  ghost predicate OccursAt(n: seq<byte>, h: seq<byte>, j: int) {
    0 <= j && j + |n| <= |h| && forall k | 0 <= k < |n| :: h[j + k] == n[k]
  }

  /** The bytes of (g, i] are those at the end of the needle. */
  ghost predicate EndsAlike(n: seq<byte>, g: int, i: int) {
    -1 <= g <= i < |n| && forall p | g < p <= i :: n[p] == n[p + (|n| - 1 - i)]
  }

  /** k is the length of the longest common suffix of n[..i + 1] and n. */
  ghost predicate IsSuffixLength(n: seq<byte>, i: int, k: int) {
    EndsAlike(n, i - k, i) && (k <= i ==> n[i - k] != n[|n| - 1 - k])
  }

  /** After a mismatch at i behind a matching suffix, shifting by s puts a matching piece under that suffix and
      a different byte under position i. */
  ghost predicate Admissible(n: seq<byte>, i: int, s: int) {
    && 0 <= i < |n| && 1 <= s <= |n|
    && (forall k | i < k < |n| && s <= k :: n[k - s] == n[k])
    && (s <= i ==> n[i - s] != n[i])
  }

  /** The good-suffix shift for a mismatch at i is the smallest admissible one. */
  ghost predicate IsGoodSuffix(n: seq<byte>, i: int, s: int) {
    Admissible(n, i, s) && forall t | Admissible(n, i, t) :: s <= t
  }

  /** The bad-character entry of c is its distance from the end of the needle, the last position not counting. */
  ghost predicate IsBadCharacter(n: seq<byte>, c: int, d: int) {
    && 1 <= d <= |n|
    && (d < |n| ==> n[|n| - 1 - d] == c)
    && (forall k | |n| - 1 - d < k < |n| - 1 :: n[k] != c)
  }

  // ---------- preprocessing ----------

  method PrepareBadCharacter(n: seq<byte>) returns (result: array<int>)
    requires n != []
    ensures fresh(result) && result.Length == ALPHABET_SIZE
    ensures forall c | 0 <= c < ALPHABET_SIZE :: IsBadCharacter(n, c, result[c])
  {
    result := new int[ALPHABET_SIZE];
    for i := 0 to ALPHABET_SIZE
      invariant forall c | 0 <= c < i :: result[c] == |n|
    {
      result[i] := |n|;
    }
    for i := 0 to |n| - 1
      invariant forall c | 0 <= c < ALPHABET_SIZE ::
        && 1 <= result[c] <= |n|
        && (result[c] < |n| ==> |n| - 1 - result[c] < i && n[|n| - 1 - result[c]] == c)
        && (forall k | |n| - 1 - result[c] < k < i :: n[k] != c)
    {
      result[n[i]] := |n| - i - 1;
    }
  }

  /** (g, i] ends alike and cannot be extended downwards. */
  lemma MaximalIsLength(n: seq<byte>, g: int, i: int)
    requires EndsAlike(n, g, i) && (g >= 0 ==> n[g] != n[g + (|n| - 1 - i)])
    ensures IsSuffixLength(n, i, i - g)
  {
  }

  /** Inside the stretch (g, f] a common suffix shorter than the distance to g is the same at the mirrored position. */
  lemma CopySuffix(n: seq<byte>, g: int, f: int, i: int, k: int)
    requires EndsAlike(n, g, f) && g < i < f < |n| - 1
    requires IsSuffixLength(n, i + (|n| - 1 - f), k) && k < i - g
    ensures IsSuffixLength(n, i, k)
  {
    var b := i + (|n| - 1 - f);
    forall p | i - k < p <= i
      ensures n[p] == n[p + (|n| - 1 - i)]
    {
      assert n[p] == n[p + (|n| - 1 - f)];
      assert n[p + (|n| - 1 - f)] == n[p + (|n| - 1 - f) + (|n| - 1 - b)];
    }
    assert n[i - k] == n[i - k + (|n| - 1 - f)];
  }

  /** One at least that long covers the whole stretch up to i. */
  lemma SameStretch(n: seq<byte>, g: int, f: int, i: int, k: int)
    requires EndsAlike(n, g, f) && g < i < f < |n| - 1
    requires IsSuffixLength(n, i + (|n| - 1 - f), k) && k >= i - g
    ensures EndsAlike(n, g, i)
  {
    var b := i + (|n| - 1 - f);
    forall p | g < p <= i
      ensures n[p] == n[p + (|n| - 1 - i)]
    {
      assert n[p] == n[p + (|n| - 1 - f)];
      assert n[p + (|n| - 1 - f)] == n[p + (|n| - 1 - f) + (|n| - 1 - b)];
    }
  }

  /** Extends the stretch that ends at i downwards from g as far as the bytes agree. */
  method Extend(n: seq<byte>, start: int, i: int) returns (g: int)
    requires EndsAlike(n, start, i)
    ensures -1 <= g <= start && EndsAlike(n, g, i) && IsSuffixLength(n, i, i - g)
  {
    g := start;
    while g >= 0 && n[g] == n[g + |n| - 1 - i]
      invariant -1 <= g <= start && EndsAlike(n, g, i)
    {
      g := g - 1;
    }
    MaximalIsLength(n, g, i);
  }

  /** Longest common suffixes in linear time: while i is inside the last stretch (g, f] found to match the end
      of the needle, the answer is copied from the mirrored position whenever it ends inside the stretch. */
  method Suffixes(n: seq<byte>) returns (suff: array<int>)
    requires n != []
    ensures fresh(suff) && suff.Length == |n| + 1
    ensures forall i | 0 <= i < |n| :: IsSuffixLength(n, i, suff[i])
  {
    hide IsSuffixLength;
    hide EndsAlike;
    var m := |n|;
    suff := new int[m + 1];
    WholeNeedle(n);
    suff[m - 1] := m;
    var f, g := m - 1, m - 1;
    var i := m - 2;
    while i >= 0
      invariant -1 <= i <= m - 2 && -1 <= g <= f < m && i < f
      invariant f == m - 1 ==> g == m - 1
      invariant f < m - 1 ==> EndsAlike(n, g, f)
      invariant forall k | i < k < m :: IsSuffixLength(n, k, suff[k])
    {
      if i > g && suff[i + m - 1 - f] < i - g {
        CopySuffix(n, g, f, i, suff[i + m - 1 - f]);
        suff[i] := suff[i + m - 1 - f];
      } else {
        if i > g {
          SameStretch(n, g, f, i, suff[i + m - 1 - f]);
        } else {
          NoStretch(n, i);
        }
        if i < g {
          g := i;
        }
        f := i;
        g := Extend(n, g, f);
        suff[i] := f - g;
      }
      i := i - 1;
    }
  }

  lemma WholeNeedle(n: seq<byte>)
    requires n != []
    ensures IsSuffixLength(n, |n| - 1, |n|)
  {
  }

  lemma NoStretch(n: seq<byte>, i: int)
    requires 0 <= i < |n|
    ensures EndsAlike(n, i, i)
  {
  }

  /** What is left of the needle after a shift by s is a suffix of the needle. */
  ghost predicate IsBorder(n: seq<byte>, s: int) {
    1 <= s <= |n| && forall q | s <= q < |n| :: n[q - s] == n[q]
  }

  /** A shift that leaves bytes before position j is admissible there exactly when the suffix it brings up is the
      matched one and no longer. */
  lemma NearShift(n: seq<byte>, j: int, s: int, k: int)
    requires 1 <= s <= j < |n| && IsSuffixLength(n, |n| - 1 - s, k)
    ensures Admissible(n, j, s) <==> k == |n| - 1 - j
  {
    var i := |n| - 1 - s;
    assert forall p | i - k < p <= i :: n[p] == n[p + s];
    if k == |n| - 1 - j {
      forall q | j < q < |n|
        ensures n[q - s] == n[q]
      {
        assert n[q - s] == n[q - s + s];
      }
    }
  }

  /** A shift past position j is admissible exactly when it is a border, and the suffix lengths show which are. */
  lemma FarShift(n: seq<byte>, j: int, s: int)
    requires 0 <= j < s && j < |n|
    ensures Admissible(n, j, s) <==> IsBorder(n, s)
  {
  }

  lemma BorderSuffix(n: seq<byte>, s: int, k: int)
    requires 1 <= s < |n| && IsSuffixLength(n, |n| - 1 - s, k)
    ensures IsBorder(n, s) <==> k == |n| - s
  {
    var i := |n| - 1 - s;
    assert forall p | i - k < p <= i :: n[p] == n[p + s];
    if k == |n| - s {
      forall q | s <= q < |n|
        ensures n[q - s] == n[q]
      {
        assert n[q - s] == n[q - s + s];
      }
    }
  }

  /** The smallest border shift past position j. */
  ghost predicate IsBorderShift(n: seq<byte>, j: int, s: int) {
    IsBorder(n, s) && j < s && forall t | IsBorder(n, t) && j < t :: s <= t
  }

  /** First pass of the good-suffix table: at every position the smallest border shift past that position. */
  method BorderShifts(n: seq<byte>, suff: array<int>, result: array<int>)
    requires n != [] && suff.Length == |n| + 1 && result.Length == |n| + 1 && result != suff
    requires forall i | 0 <= i < |n| :: IsSuffixLength(n, i, suff[i])
    requires forall j | 0 <= j < |n| :: result[j] == |n|
    modifies result
    ensures forall j | 0 <= j < |n| :: IsBorderShift(n, j, result[j])
  {
    hide IsSuffixLength;
    var m := |n|;
    var j := 0;
    var i := m - 1;
    while i >= -1
      invariant -2 <= i <= m - 1 && 0 <= j <= m && j <= m - 1 - i
      invariant i == -2 ==> j == m
      invariant forall k | 0 <= k < j :: IsBorderShift(n, k, result[k])
      invariant forall k | j <= k < m :: result[k] == m
      invariant forall t | IsBorder(n, t) && j < t :: m - 1 - i <= t
    {
      if 0 <= i < m - 1 {
        BorderSuffix(n, m - 1 - i, suff[i]);
      }
      if i == -1 || suff[i] == i + 1 {
        while j < m - 1 - i
          invariant 0 <= j <= m && j <= m - 1 - i
          invariant forall t | IsBorder(n, t) && j < t :: m - 1 - i <= t
          invariant forall k | 0 <= k < j :: IsBorderShift(n, k, result[k])
          invariant forall k | j <= k < m :: result[k] == m
        {
          if result[j] == m {
            result[j] := m - 1 - i;
          }
          j := j + 1;
        }
      }
      i := i - 1;
    }
  }

  /** Among the admissible shifts at j that are past j or at least bound, s is the smallest; and it is admissible. */
  ghost predicate SmallestFrom(n: seq<byte>, bound: int, j: int, s: int) {
    Admissible(n, j, s) && forall t | Admissible(n, j, t) && (j < t || bound <= t) :: s <= t
  }

  lemma StartsSmallest(n: seq<byte>, j: int, s: int)
    requires 0 <= j < |n| && IsBorderShift(n, j, s)
    ensures SmallestFrom(n, |n|, j, s)
  {
    FarShift(n, j, s);
    forall t | Admissible(n, j, t) && j < t
      ensures s <= t
    {
      FarShift(n, j, t);
    }
  }

  /** Where the second pass writes the shift s, and what becomes of the smallest shifts known. */
  lemma WriteShift(n: seq<byte>, s: int, k: int, j: int)
    requires 1 <= s < |n| && IsSuffixLength(n, |n| - 1 - s, k) && j == |n| - 1 - k
    ensures 0 <= j < |n| && SmallestFrom(n, s, j, s)
  {
    if s <= j {
      NearShift(n, j, s, k);
    } else {
      BorderSuffix(n, s, k);
      FarShift(n, j, s);
    }
  }

  lemma KeepShift(n: seq<byte>, s: int, k: int, j: int, held: int)
    requires 1 <= s < |n| && IsSuffixLength(n, |n| - 1 - s, k) && j != |n| - 1 - k
    requires SmallestFrom(n, s + 1, j, held)
    ensures SmallestFrom(n, s, j, held)
  {
    if s <= j {
      NearShift(n, j, s, k);
    }
  }

  method PrepareGoodSuffix(n: seq<byte>) returns (result: array<int>)
    requires n != []
    ensures fresh(result) && result.Length == |n| + 1
    ensures forall j | 0 <= j < |n| :: IsGoodSuffix(n, j, result[j])
  {
    hide IsSuffixLength;
    hide IsBorderShift;
    hide SmallestFrom;
    var m := |n|;
    var suff := Suffixes(n);
    result := new int[m + 1];
    for i := 0 to m
      invariant forall k | 0 <= k < m :: IsSuffixLength(n, k, suff[k])
      invariant forall j | 0 <= j < i :: result[j] == m
    {
      result[i] := m;
    }
    BorderShifts(n, suff, result);
    forall j | 0 <= j < m
      ensures SmallestFrom(n, m, j, result[j])
    {
      StartsSmallest(n, j, result[j]);
    }
    for i := 0 to m - 1
      invariant forall k | 0 <= k < m :: IsSuffixLength(n, k, suff[k])
      invariant forall j | 0 <= j < m :: SmallestFrom(n, m - i, j, result[j])
    {
      ghost var k := suff[i];
      WriteShift(n, m - 1 - i, k, m - 1 - k);
      forall j | 0 <= j < m && j != m - 1 - k
        ensures SmallestFrom(n, m - 1 - i, j, result[j])
      {
        KeepShift(n, m - 1 - i, k, j, result[j]);
      }
      result[m - 1 - suff[i]] := m - 1 - i;
    }
    forall j | 0 <= j < m
      ensures IsGoodSuffix(n, j, result[j])
    {
      AllShifts(n, j, result[j]);
    }
  }

  lemma AllShifts(n: seq<byte>, j: int, s: int)
    requires SmallestFrom(n, 1, j, s)
    ensures IsGoodSuffix(n, j, s)
  {
  }

  // ---------- searching ----------

  /** An occurrence at distance s from the position compared makes s an admissible shift. */
  lemma OccurrenceIsAdmissible(n: seq<byte>, h: seq<byte>, j: int, i: int, s: int)
    requires 0 <= i < |n| && 0 <= j <= |h| - |n| && 1 <= s <= |n|
    requires h[j + i] != n[i] && forall k | i < k < |n| :: h[j + k] == n[k]
    requires OccursAt(n, h, j + s)
    ensures Admissible(n, i, s)
  {
    forall k | i < k < |n| && s <= k
      ensures n[k - s] == n[k]
    {
      assert h[j + s + (k - s)] == n[k - s];
    }
    assert s <= i ==> h[j + s + (i - s)] == n[i - s];
  }

  lemma ByteAt(n: seq<byte>, h: seq<byte>, p: int, x: int)
    requires OccursAt(n, h, p) && p <= x < p + |n|
    ensures h[x] == n[x - p]
  {
    assert h[p + (x - p)] == n[x - p];
  }

  /** No occurrence lies before the position shifted to. */
  lemma NothingSkipped(n: seq<byte>, h: seq<byte>, j: int, i: int, good: int, bad: int, p: int)
    requires 0 <= i < |n| && 0 <= j <= |h| - |n|
    requires h[j + i] != n[i] && forall k | i < k < |n| :: h[j + k] == n[k]
    requires IsGoodSuffix(n, i, good) && IsBadCharacter(n, h[j + i], bad)
    requires j <= p < j + good || j <= p < j + bad - |n| + 1 + i
    ensures !OccursAt(n, h, p)
  {
    if OccursAt(n, h, p) {
      if p <= j + i {
        ByteAt(n, h, p, j + i);
      }
      if j < p < j + good {
        OccurrenceIsAdmissible(n, h, j, i, p - j);
      }
    }
  }

  class BoyerMoore {

    var badcharacter: array?<int>
    var goodsuffix: array?<int>
    var needle: seq<byte>

    /** An empty needle has no tables; any other has both, filled in. */
    ghost predicate Valid()
      reads this, badcharacter, goodsuffix
    {
      if needle == [] then
        badcharacter == null && goodsuffix == null
      else
        && badcharacter != null && badcharacter.Length == ALPHABET_SIZE
        && goodsuffix != null && goodsuffix.Length == |needle| + 1
        && (forall c | 0 <= c < ALPHABET_SIZE :: IsBadCharacter(needle, c, badcharacter[c]))
        && (forall j | 0 <= j < |needle| :: IsGoodSuffix(needle, j, goodsuffix[j]))
    }

    constructor (pat: seq<byte>)
      ensures Valid() && needle == pat
    {
      badcharacter := null;
      goodsuffix := null;
      needle := pat;
      new;
      if pat != [] {
        badcharacter := PrepareBadCharacter(pat);
        goodsuffix := PrepareGoodSuffix(pat);
      }
    }

    /** Compares the needle with the haystack at j from right to left, as far as they agree. */
    method Compare(h: seq<byte>, j: int) returns (i: int)
      requires 0 <= j <= |h| - |needle|
      ensures -1 <= i < |needle|
      ensures forall k | i < k < |needle| :: h[j + k] == needle[k]
      ensures i >= 0 ==> h[j + i] != needle[i]
    {
      i := |needle| - 1;
      while i >= 0 && needle[i] == h[i + j]
        invariant -1 <= i < |needle|
        invariant forall k | i < k < |needle| :: h[j + k] == needle[k]
      {
        i := i - 1;
      }
    }

    /** The leftmost occurrence, or nothing exactly when there is none; an empty needle is never found. */
    method Search(h: seq<byte>) returns (r: Result<Option<nat>>)
      requires Valid()
      ensures r.Err? <==> |h| >= INT_MAX
      ensures r.Err? ==> r.error == HaystackTooLong
      ensures r.Ok? && r.value.Some? ==> needle != [] && OccursAt(needle, h, r.value.value)
      ensures r.Ok? && r.value.Some? ==> forall p | 0 <= p < r.value.value :: !OccursAt(needle, h, p)
      ensures r.Ok? && r.value.None? && needle != [] ==> forall p :: !OccursAt(needle, h, p)
    {
      var m, n := |needle|, |h|;
      if n >= INT_MAX {
        return Err(HaystackTooLong);
      }
      if n == 0 || m == 0 || m > n {
        return Ok(None);
      }
      var j := 0;
      while j <= n - m
        invariant 0 <= j <= n
        invariant forall p | 0 <= p < j :: !OccursAt(needle, h, p)
        decreases n - m - j
      {
        var i := Compare(h, j);
        if i < 0 {
          return Ok(Some(j));
        }
        var good, bad := goodsuffix[i], badcharacter[h[i + j]];
        forall p | j <= p < j + good || j <= p < j + bad - m + 1 + i
          ensures !OccursAt(needle, h, p)
        {
          NothingSkipped(needle, h, j, i, good, bad, p);
        }
        j := j + if good < bad - m + 1 + i then bad - m + 1 + i else good;
      }
      return Ok(None);
    }
  }

  /** A pattern is refused exactly when its length does not fit an int. */
  method Compile(pat: seq<byte>) returns (r: Result<BoyerMoore>)
    ensures r.Err? <==> |pat| >= INT_MAX
    ensures r.Err? ==> r.error == NeedleTooLong
    ensures r.Ok? ==> fresh(r.value) && r.value.Valid() && r.value.needle == pat
  {
    if |pat| >= INT_MAX {
      return Err(NeedleTooLong);
    }
    var b := new BoyerMoore(pat);
    return Ok(b);
  }
}
