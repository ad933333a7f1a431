/** The cyclic glyph supply of the text repository, as values: the glyph
    sequence, the cursor `n`, and what successive reads return. */
module Glyphs {

  /** What a read of the repository yields. An index past the end of a
      JavaScript array reads `undefined`, modelled as `Undefined`. */
  datatype Text = Defined(s: string) | Undefined

  /** The built-in glyphs shown before any file is loaded. */
  const DefaultRepository: seq<string> :=
    ["α", "β", "γ", "δ", "ε", "ζ", "η", "θ", "ι", "κ"]

  /** The repository invariant: a non-empty sequence and a cursor that never
      passes its end. */
  predicate CursorValid(repo: seq<string>, n: nat)
  {
    0 < |repo| && n <= |repo|
  }

  /** The index the next read uses: the cursor is reset to 0 only when it
      equals the length (an exact `===` test, not `>=`). */
  function ReadIndex(repo: seq<string>, n: nat): nat
  {
    if n == |repo| then 0 else n
  }

  /** The value of `repository[i]` in JavaScript. */
  function ReadAt(repo: seq<string>, i: nat): Text
  {
    if i < |repo| then Defined(repo[i]) else Undefined
  }

  /** One `getNextText` call: the glyph returned and the cursor after the
      post-increment. */
  function NextText(repo: seq<string>, n: nat): (Text, nat)
  {
    var i := ReadIndex(repo, n);
    (ReadAt(repo, i), i + 1)
  }

  /** The glyphs returned by `k` successive calls starting at cursor `n`. */
  function Draws(repo: seq<string>, n: nat, k: nat): (r: seq<Text>)
    ensures |r| == k
    decreases k
  {
    if k == 0 then []
    else
      var (t, n') := NextText(repo, n);
      [t] + Draws(repo, n', k - 1)
  }

  /** The cursor after `k` successive calls starting at cursor `n`. */
  function CursorAfter(repo: seq<string>, n: nat, k: nat): nat
    decreases k
  {
    if k == 0 then n else CursorAfter(repo, NextText(repo, n).1, k - 1)
  }

  /** Under the invariant, a read uses an index inside the sequence, returns
      that glyph, and leaves the invariant in place. */
  lemma NextTextInBounds(repo: seq<string>, n: nat)
    requires CursorValid(repo, n)
    ensures ReadIndex(repo, n) < |repo|
    ensures NextText(repo, n).0 == Defined(repo[ReadIndex(repo, n)])
    ensures NextText(repo, n).1 == ReadIndex(repo, n) + 1
    ensures CursorValid(repo, NextText(repo, n).1)
  {
  }

  /** Quotient and remainder are unique (Euclidean division). */
  lemma DivModUnique(x: int, m: int, q: int, r: int)
    requires m > 0 && 0 <= r < m && x == q * m + r
    ensures x % m == r
  {
    var q', r' := x / m, x % m;
    assert x == q' * m + r';
    assert (q - q') * m == r' - r;
    if q' < q {
      assert (q - q') * m >= m by { MulAtLeast(q - q', m); }
    } else if q < q' {
      assert (q' - q) * m >= m by { MulAtLeast(q' - q, m); }
    }
  }

  lemma MulAtLeast(a: int, m: int)
    requires a >= 1 && m > 0
    ensures a * m >= m
  {
  }

  lemma ModSmall(a: nat, m: nat)
    requires a < m
    ensures a % m == a
  {
    DivModUnique(a, m, 0, a);
  }

  lemma ModShift(a: nat, m: nat)
    requires m > 0
    ensures (m + a) % m == a % m
  {
    var q, r := a / m, a % m;
    assert m + a == (q + 1) * m + r;
    DivModUnique(m + a, m, q + 1, r);
  }

  /** One read moves the cursor one step round the cycle: reads from the new
      cursor see the indices one further on, modulo the length. */
  lemma StepShift(repo: seq<string>, n: nat, j: nat)
    requires CursorValid(repo, n)
    ensures ReadIndex(repo, n) == n % |repo|
    ensures (NextText(repo, n).1 + j) % |repo| == (n + 1 + j) % |repo|
  {
    var len := |repo|;
    if n == len {
      ModShift(0, len);
      ModShift(1 + j, len);
    } else {
      ModSmall(n, len);
    }
  }

  /** Successive calls cycle through the repository in order: the `j`-th
      call from cursor `n` returns `repo[(n + j) % |repo|]`, and after `k > 0`
      calls the cursor is `(n + k - 1) % |repo| + 1`. */
  lemma {:induction false} CycleOrder(repo: seq<string>, n: nat, k: nat)
    requires CursorValid(repo, n)
    ensures |Draws(repo, n, k)| == k
    ensures forall j :: 0 <= j < k ==> Draws(repo, n, k)[j] == Defined(repo[(n + j) % |repo|])
    ensures CursorAfter(repo, n, k) == if k == 0 then n else (n + k - 1) % |repo| + 1
    ensures CursorValid(repo, CursorAfter(repo, n, k))
    decreases k
  {
    if k > 0 {
      var len := |repo|;
      var n' := NextText(repo, n).1;
      NextTextInBounds(repo, n);
      CycleOrder(repo, n', k - 1);
      var rest := Draws(repo, n', k - 1);
      assert Draws(repo, n, k) == [Defined(repo[ReadIndex(repo, n)])] + rest;
      StepShift(repo, n, 0);
      forall j | 1 <= j < k
        ensures Draws(repo, n, k)[j] == Defined(repo[(n + j) % len])
      {
        assert Draws(repo, n, k)[j] == rest[j - 1];
        StepShift(repo, n, j - 1);
      }
      if k > 1 {
        StepShift(repo, n, k - 2);
      }
    }
  }

  /** After `|repo|` calls from cursor 0 the sequence starts again: call
      `|repo| + j` returns the same glyph as call `j`. */
  lemma {:induction false} CycleRepeats(repo: seq<string>, k: nat)
    requires 0 < |repo|
    ensures |Draws(repo, 0, |repo| + k)| == |repo| + k
    ensures Draws(repo, 0, |repo| + k)[|repo|..] == Draws(repo, 0, |repo| + k)[..k]
  {
    var len := |repo|;
    var d := Draws(repo, 0, len + k);
    CycleOrder(repo, 0, len + k);
    forall j | 0 <= j < k
      ensures d[len..][j] == d[..k][j]
    {
      ModShift(j, len);
    }
  }

  /** The 10-entry default repeats every 10 calls: the 11th call returns the
      1st glyph, "α", again. */
  lemma DefaultRepeatsAfterTen()
    ensures |Draws(DefaultRepository, 0, 11)| == 11
    ensures Draws(DefaultRepository, 0, 11)[10] == Draws(DefaultRepository, 0, 11)[0] == Defined("α")
  {
    CycleOrder(DefaultRepository, 0, 11);
  }

  /** A cursor past the end of the sequence (possible only after the sequence
      is replaced by a shorter one) is never reset: every later read returns
      `undefined` and the cursor keeps growing. */
  lemma {:induction false} StrandedCursor(repo: seq<string>, n: nat, k: nat)
    requires n > |repo|
    ensures Draws(repo, n, k) == seq(k, _ => Undefined)
    ensures CursorAfter(repo, n, k) == n + k
    decreases k
  {
    if k > 0 {
      StrandedCursor(repo, n + 1, k - 1);
      assert Draws(repo, n, k) == [Undefined] + seq(k - 1, _ => Undefined);
    }
  }

  /** Replacing the sequence either leaves the cursor valid, and the reads go
      on cycling through the new sequence (`CycleOrder`), or strands it for
      good: when the new sequence is empty or shorter than the cursor, every
      later read returns `undefined`. */
  lemma {:induction false} InvalidCursorStrands(lines: seq<string>, n: nat, k: nat)
    requires !CursorValid(lines, n)
    ensures Draws(lines, n, k) == seq(k, _ => Undefined)
  {
    if n > |lines| {
      StrandedCursor(lines, n, k);
    } else if k > 0 {
      assert |lines| == 0 && n == 0;
      StrandedCursor(lines, 1, k - 1);
      assert Draws(lines, n, k) == [Undefined] + Draws(lines, 1, k - 1);
    }
  }
}
