/** `AvalancheDemo`: two inputs, their SHA-256 digests, how many hex
    positions differ and by what percentage, the one-character "flip" and
    the cell-by-cell comparison map. */
module Avalanche {
  import opened JsCore
  import opened CryptoFacade

  datatype AvalancheDemo = AvalancheDemo(
    input1: JsString, input2: JsString,
    hash1: JsString, hash2: JsString,
    diffPercent: int)

  /** The state before the first digests arrive. */
  function Initial(): (r: AvalancheDemo)
    ensures r.hash1 == [] && r.hash2 == [] && r.diffPercent == 0
    ensures |r.input1| == |r.input2| == 10
  {
    AvalancheDemo(Str("Blockchain"), Str("Blockchaln"), [], [], 0)
  }

  /** Position `i` of `h1` counts as different when `h2` has another code
      unit there or none at all (`h2[i]` is `undefined`). */
  predicate Differs(h1: JsString, h2: JsString, i: nat)
    requires i < |h1|
  {
    i >= |h2| || h1[i] != h2[i]
  }

  /** The number of differing positions below `k`. */
  function DiffsBelow(h1: JsString, h2: JsString, k: nat): (r: nat)
    requires k <= |h1|
    ensures r <= k
  {
    if k == 0 then 0
    else DiffsBelow(h1, h2, k - 1) + (if Differs(h1, h2, k - 1) then 1 else 0)
  }

  /** The number of positions of `h1` at which `h2` differs. */
  function DiffCount(h1: JsString, h2: JsString): (r: nat)
    ensures r <= |h1|
  {
    DiffsBelow(h1, h2, |h1|)
  }

  /** No position below `k` differs exactly when the count below `k` is 0. */
  lemma {:induction false} NoDiffsBelow(h1: JsString, h2: JsString, k: nat)
    requires k <= |h1|
    ensures DiffsBelow(h1, h2, k) == 0 <==> forall i :: 0 <= i < k ==> !Differs(h1, h2, i)
  {
    if k > 0 {
      NoDiffsBelow(h1, h2, k - 1);
    }
  }

  /** The count is 0 exactly when `h2` agrees with `h1` at every position of
      `h1`; in particular identical digests give 0. */
  lemma DiffCountZeroIff(h1: JsString, h2: JsString)
    ensures DiffCount(h1, h2) == 0 <==> |h2| >= |h1| && h2[..|h1|] == h1
  {
    NoDiffsBelow(h1, h2, |h1|);
    if DiffCount(h1, h2) == 0 {
      if |h1| > 0 {
        assert !Differs(h1, h2, |h1| - 1);
      }
      assert |h2| >= |h1|;
      assert forall i :: 0 <= i < |h1| ==> h2[..|h1|][i] == h1[i] by {
        forall i | 0 <= i < |h1| ensures h2[..|h1|][i] == h1[i] {
          assert !Differs(h1, h2, i);
        }
      }
    }
    if |h2| >= |h1| && h2[..|h1|] == h1 {
      forall i | 0 <= i < |h1| ensures !Differs(h1, h2, i) {
        assert h2[..|h1|][i] == h2[i];
      }
    }
  }

  /** The loop of the effect: one pass over `h1`. */
  method CountDiffs(h1: JsString, h2: JsString) returns (diffs: nat)
    ensures diffs == DiffCount(h1, h2)
    ensures diffs <= |h1|
  {
    diffs := 0;
    var i := 0;
    while i < |h1|
      invariant 0 <= i <= |h1|
      invariant diffs == DiffsBelow(h1, h2, i)
    {
      if i >= |h2| || h1[i] != h2[i] {
        diffs := diffs + 1;
      }
      i := i + 1;
    }
  }

  /** `Math.round(diffs / n * 100)`: 100·diffs/n rounded half up. For
      n = 64 the quotient and the product are exact in binary floating point,
      so integer arithmetic gives the same value. */
  function RoundPercent(diffs: nat, n: nat): (r: int)
    requires 0 < n && diffs <= n
    ensures 0 <= r <= 100
    ensures 2 * n * r <= 200 * diffs + n < 2 * n * (r + 1)
    ensures diffs == 0 ==> r == 0
    ensures diffs == n ==> r == 100
  {
    RoundingBounds(diffs, n);
    (200 * diffs + n) / (2 * n)
  }

  lemma RoundingBounds(diffs: nat, n: nat)
    requires 0 < n && diffs <= n
    ensures var r := (200 * diffs + n) / (2 * n);
            && 0 <= r <= 100
            && 2 * n * r <= 200 * diffs + n < 2 * n * (r + 1)
            && (diffs == 0 ==> r == 0)
            && (diffs == n ==> r == 100)
  {
    var q, m := 200 * diffs + n, 2 * n;
    var r := q / m;
    DivisionBounds(q, m);
    if r > 100 {
      MulMonotone(m, 101, r);
      assert false;
    }
    if diffs == 0 {
      QuotientUnique(q, m, 0);
    }
    if diffs == n {
      QuotientUnique(q, m, 100);
    }
  }

  lemma DivisionBounds(q: nat, m: nat)
    requires m > 0
    ensures m * (q / m) <= q < m * (q / m + 1)
  {
  }

  lemma MulMonotone(m: nat, a: int, b: int)
    requires a <= b
    ensures m * a <= m * b
  {
  }

  lemma QuotientUnique(q: nat, m: nat, k: nat)
    requires m > 0 && m * k <= q < m * (k + 1)
    ensures q / m == k
  {
    DivisionBounds(q, m);
    if q / m < k {
      MulMonotone(m, q / m + 1, k);
    } else if q / m > k {
      MulMonotone(m, k + 1, q / m);
    }
  }

  /** What the effect stores once both digests are in: the digests and the
      rounded percentage of differing positions. */
  function Recompute(crypto: SubtleCrypto, d: AvalancheDemo): (r: AvalancheDemo)
    ensures r.input1 == d.input1 && r.input2 == d.input2
    ensures r.hash1 == Sha256(crypto, d.input1) && r.hash2 == Sha256(crypto, d.input2)
    ensures 0 <= r.diffPercent <= 100
    ensures d.input1 == d.input2 ==> r.diffPercent == 0
  {
    var h1 := Sha256(crypto, d.input1);
    var h2 := Sha256(crypto, d.input2);
    DiffCountZeroIff(h1, h2);
    d.(hash1 := h1, hash2 := h2, diffPercent := RoundPercent(DiffCount(h1, h2), |h1|))
  }

  /** The replacement for the chosen code unit: one less, except that 'A'
      becomes 'B'; `fromCharCode` wraps 0 round to 0xFFFF. */
  function FlipUnit(c: CodeUnit): (r: CodeUnit)
    ensures r != c
    ensures c == 'A' as int ==> r == 'B' as int
    ensures c != 'A' as int && c > 0 ==> r == c - 1
  {
    ToUint16(if c == 'A' as int then 'B' as int else c - 1)
  }

  /** `handleFlip` with `idx` the position `Math.random` chose. With an
      empty first input it loads the "Hello"/"Hullo" pair; otherwise the
      second input becomes the first with exactly the chosen code unit
      changed. The first input is never touched beyond the empty case, and
      the digests wait for the effect. */
  function HandleFlip(d: AvalancheDemo, idx: nat): (r: AvalancheDemo)
    requires |d.input1| == 0 || idx < |d.input1|
    ensures |d.input1| == 0 ==> r.input1 == Str("Hello") && r.input2 == Str("Hullo")
    ensures |d.input1| > 0 ==>
              && r.input1 == d.input1
              && |r.input2| == |d.input1|
              && r.input2[idx] != d.input1[idx]
              && forall j :: 0 <= j < |d.input1| && j != idx ==> r.input2[j] == d.input1[j]
    ensures r.hash1 == d.hash1 && r.hash2 == d.hash2 && r.diffPercent == d.diffPercent
  {
    if |d.input1| == 0 then d.(input1 := Str("Hello"), input2 := Str("Hullo"))
    else d.(input2 := d.input1[idx := FlipUnit(d.input1[idx])])
  }

  /** After a flip of a non-empty input and the effect, the two inputs are
      distinct strings of equal length that differ in one position. */
  lemma FlipThenRecompute(crypto: SubtleCrypto, d: AvalancheDemo, idx: nat)
    requires 0 < |d.input1| && idx < |d.input1|
    ensures var r := Recompute(crypto, HandleFlip(d, idx));
            && r.input1 == d.input1 && |r.input2| == |r.input1|
            && forall j :: 0 <= j < |r.input1| ==> (r.input1[j] != r.input2[j] <==> j == idx)
  {
  }

  // ---- the comparison map ----

  /** One cell per hex character of `hash1`, marked when it differs; no map
      at all while either digest is still empty. */
  function CompareMap(hash1: JsString, hash2: JsString): (r: Option<seq<bool>>)
    ensures r.None? <==> hash1 == [] || hash2 == []
    ensures r.Some? ==> |r.value| == |hash1|
    ensures r.Some? ==> forall i :: 0 <= i < |hash1| ==> (r.value[i] <==> Differs(hash1, hash2, i))
  {
    if hash1 == [] || hash2 == [] then None
    else Some(seq(|hash1|, i requires 0 <= i < |hash1| => Differs(hash1, hash2, i)))
  }

  /** The number of marked cells among the first `k`. */
  function MarkedBelow(cells: seq<bool>, k: nat): (r: nat)
    requires k <= |cells|
    ensures r <= k
  {
    if k == 0 then 0 else MarkedBelow(cells, k - 1) + (if cells[k - 1] then 1 else 0)
  }

  /** The map marks exactly as many cells as the percentage was computed
      from. */
  lemma MarkedCountIsDiffCount(hash1: JsString, hash2: JsString)
    requires hash1 != [] && hash2 != []
    ensures MarkedBelow(CompareMap(hash1, hash2).value, |hash1|) == DiffCount(hash1, hash2)
  {
    MarkedAgree(CompareMap(hash1, hash2).value, hash1, hash2, |hash1|);
  }

  lemma {:induction false} MarkedAgree(cells: seq<bool>, hash1: JsString, hash2: JsString, k: nat)
    requires |cells| == |hash1| && k <= |hash1|
    requires forall i :: 0 <= i < |hash1| ==> (cells[i] <==> Differs(hash1, hash2, i))
    ensures MarkedBelow(cells, k) == DiffsBelow(hash1, hash2, k)
  {
    if k > 0 {
      MarkedAgree(cells, hash1, hash2, k - 1);
    }
  }
}
