/**
  The longest-common-subsequence dynamic programme behind ROUGE-L
  (Lin 2004, "ROUGE: A Package for Automatic Evaluation of Summaries",
  section 3).  `Lcs` fills the table exactly as the nested loops of `_lcs`
  do; the lemmas relate the table to an independent definition of a
  common subsequence.
 */
module Lcs {

  function Max(a: int, b: int): int
  {
    if a >= b then a else b
  }

  /** The value the programme stores at (i, j), by its recurrence. */
  ghost function Entry<T>(x: seq<T>, y: seq<T>, i: nat, j: nat): nat
    requires i <= |x| && j <= |y|
  {
    if i == 0 || j == 0 then 0
    else if x[i - 1] == y[j - 1] then Entry(x, y, i - 1, j - 1) + 1
    else Max(Entry(x, y, i - 1, j), Entry(x, y, i, j - 1))
  }

  /** z can be obtained from s by deleting elements. */
  ghost predicate IsSubseq<T>(z: seq<T>, s: seq<T>)
    decreases |s|
  {
    if z == [] then true
    else if s == [] then false
    else (z[|z| - 1] == s[|s| - 1] && IsSubseq(z[..|z| - 1], s[..|s| - 1]))
         || IsSubseq(z, s[..|s| - 1])
  }

  ghost predicate IsCommonSubseq<T>(z: seq<T>, x: seq<T>, y: seq<T>)
  {
    IsSubseq(z, x) && IsSubseq(z, y)
  }

  // ---------------------------------------------------------------------
  // The table

  /** The table holds the recurrence's value at (a, b). */
  ghost predicate Filled<T>(table: map<(int, int), int>, x: seq<T>, y: seq<T>, a: nat, b: nat)
    requires a <= |x| && b <= |y|
  {
    (a, b) in table && table[(a, b)] == Entry(x, y, a, b)
  }

  /** Every cell of rows 0 .. i - 1 and the first j cells of row i are filled. */
  ghost predicate FilledUpTo<T>(table: map<(int, int), int>, x: seq<T>, y: seq<T>, i: nat, j: nat)
    requires i <= |x| + 1 && j <= |y| + 1
  {
    && (forall a: nat, b: nat :: a < i && b <= |y| ==> Filled(table, x, y, a, b))
    && (i <= |x| ==> forall b: nat :: b < j ==> Filled(table, x, y, i, b))
    && (forall p :: p in table ==> (0 <= p.0 < i && 0 <= p.1 <= |y|) || (p.0 == i && 0 <= p.1 < j))
  }

  /** One step of the inner loop: store the recurrence's value at (i, j). */
  method FillCell<T(==)>(table: map<(int, int), int>, x: seq<T>, y: seq<T>, i: nat, j: nat)
    returns (table': map<(int, int), int>)
    requires i <= |x| && j <= |y| && FilledUpTo(table, x, y, i, j)
    ensures FilledUpTo(table', x, y, i, j + 1)
  {
    var v;
    if i == 0 || j == 0 {
      v := 0;
    } else if x[i - 1] == y[j - 1] {
      assert Filled(table, x, y, i - 1, j - 1);
      v := table[(i - 1, j - 1)] + 1;
    } else {
      assert Filled(table, x, y, i - 1, j) && Filled(table, x, y, i, j - 1);
      v := Max(table[(i - 1, j)], table[(i, j - 1)]);
    }
    table' := table[(i, j) := v];
    forall a: nat, b: nat | a < i && b <= |y| ensures Filled(table', x, y, a, b) {
      assert Filled(table, x, y, a, b);
    }
    forall b: nat | b < j + 1 ensures Filled(table', x, y, i, b) {
      if b < j {
        assert Filled(table, x, y, i, b);
      }
    }
  }

  /**
    `_lcs`: a dictionary from coordinates (i, j), 0 <= i <= |x| and
    0 <= j <= |y|, to the LCS length of the prefixes x[..i] and y[..j].
   */
  method Lcs<T(==)>(x: seq<T>, y: seq<T>) returns (table: map<(int, int), int>)
    ensures forall i: nat, j: nat :: i <= |x| && j <= |y| ==> Filled(table, x, y, i, j)
    ensures forall p :: p in table ==> 0 <= p.0 <= |x| && 0 <= p.1 <= |y|
  {
    var n, m := |x|, |y|;
    table := map[];
    for i := 0 to n + 1
      invariant FilledUpTo(table, x, y, i, 0)
    {
      for j := 0 to m + 1
        invariant FilledUpTo(table, x, y, i, j)
      {
        table := FillCell(table, x, y, i, j);
      }
      assert FilledUpTo(table, x, y, i + 1, 0);
    }
  }

  /** `_len_lcs`: the length of a longest common subsequence of x and y. */
  method LenLcs<T(==)>(x: seq<T>, y: seq<T>) returns (r: int)
    ensures r == Entry(x, y, |x|, |y|)
    ensures exists z :: IsCommonSubseq(z, x, y) && |z| == r
    ensures forall z :: IsCommonSubseq(z, x, y) ==> |z| <= r
    ensures 0 <= r <= |x| && r <= |y|
  {
    var table := Lcs(x, y);
    assert Filled(table, x, y, |x|, |y|);
    r := table[(|x|, |y|)];
    LcsIsLongest(x, y);
  }

  // ---------------------------------------------------------------------
  // Properties of the table

  /** Row 0 and column 0 hold zero. */
  lemma BorderIsZero<T>(x: seq<T>, y: seq<T>)
    ensures forall i :: 0 <= i <= |x| ==> Entry(x, y, i, 0) == 0
    ensures forall j :: 0 <= j <= |y| ==> Entry(x, y, 0, j) == 0
  {
  }

  /**
    Moving one step down or right never decreases an entry and increases
    it by at most one.
   */
  lemma {:induction false} TableSteps<T>(x: seq<T>, y: seq<T>, i: nat, j: nat)
    requires i <= |x| && j <= |y|
    ensures i > 0 ==> Entry(x, y, i - 1, j) <= Entry(x, y, i, j) <= Entry(x, y, i - 1, j) + 1
    ensures j > 0 ==> Entry(x, y, i, j - 1) <= Entry(x, y, i, j) <= Entry(x, y, i, j - 1) + 1
    decreases i + j
  {
    if i > 0 && j > 0 {
      TableSteps(x, y, i - 1, j);
      TableSteps(x, y, i, j - 1);
      TableSteps(x, y, i - 1, j - 1);
    }
  }

  /** The table is non-decreasing along rows and along columns. */
  lemma {:induction false} TableMonotone<T>(x: seq<T>, y: seq<T>, i: nat, j: nat, i': nat, j': nat)
    requires i <= i' <= |x| && j <= j' <= |y|
    ensures Entry(x, y, i, j) <= Entry(x, y, i', j')
    decreases i' + j'
  {
    if i < i' {
      TableSteps(x, y, i', j');
      TableMonotone(x, y, i, j, i' - 1, j');
    } else if j < j' {
      TableSteps(x, y, i', j');
      TableMonotone(x, y, i, j, i', j' - 1);
    }
  }

  lemma {:induction false} SubseqNoLonger<T>(z: seq<T>, s: seq<T>)
    requires IsSubseq(z, s)
    ensures |z| <= |s|
    decreases |s|
  {
    if z != [] {
      if z[|z| - 1] == s[|s| - 1] && IsSubseq(z[..|z| - 1], s[..|s| - 1]) {
        SubseqNoLonger(z[..|z| - 1], s[..|s| - 1]);
      } else {
        SubseqNoLonger(z, s[..|s| - 1]);
      }
    }
  }

  /** Every common subsequence of x[..i] and y[..j] is at most Entry(i, j) long. */
  lemma {:induction false} EntryIsUpperBound<T>(x: seq<T>, y: seq<T>, i: nat, j: nat, z: seq<T>)
    requires i <= |x| && j <= |y|
    requires IsCommonSubseq(z, x[..i], y[..j])
    ensures |z| <= Entry(x, y, i, j)
    decreases i + j
  {
    if z == [] {
      return;
    }
    assert i > 0 && j > 0;
    var last := z[|z| - 1];
    assert x[..i][..i - 1] == x[..i - 1];
    assert y[..j][..j - 1] == y[..j - 1];
    TableSteps(x, y, i, j);
    if IsSubseq(z, x[..i - 1]) {
      EntryIsUpperBound(x, y, i - 1, j, z);
    } else if IsSubseq(z, y[..j - 1]) {
      EntryIsUpperBound(x, y, i, j - 1, z);
    } else {
      assert last == x[i - 1] && IsSubseq(z[..|z| - 1], x[..i - 1]);
      assert last == y[j - 1] && IsSubseq(z[..|z| - 1], y[..j - 1]);
      EntryIsUpperBound(x, y, i - 1, j - 1, z[..|z| - 1]);
    }
  }

  lemma SubseqOfLonger<T>(z: seq<T>, s: seq<T>, k: nat)
    requires k < |s| && IsSubseq(z, s[..k])
    ensures IsSubseq(z, s[..k + 1])
  {
    assert s[..k + 1][..k] == s[..k];
  }

  lemma SubseqAppend<T>(z: seq<T>, s: seq<T>, k: nat)
    requires k < |s| && IsSubseq(z, s[..k])
    ensures IsSubseq(z + [s[k]], s[..k + 1])
  {
    assert s[..k + 1][..k] == s[..k];
    assert (z + [s[k]])[..|z|] == z;
  }

  /** A common subsequence of x[..i] and y[..j] that is exactly Entry(i, j) long. */
  lemma {:induction false} EntryIsAttained<T>(x: seq<T>, y: seq<T>, i: nat, j: nat) returns (z: seq<T>)
    requires i <= |x| && j <= |y|
    ensures IsCommonSubseq(z, x[..i], y[..j]) && |z| == Entry(x, y, i, j)
    decreases i + j
  {
    if i == 0 || j == 0 {
      z := [];
    } else if x[i - 1] == y[j - 1] {
      var w := EntryIsAttained(x, y, i - 1, j - 1);
      SubseqAppend(w, x, i - 1);
      SubseqAppend(w, y, j - 1);
      z := w + [x[i - 1]];
    } else if Entry(x, y, i - 1, j) >= Entry(x, y, i, j - 1) {
      z := EntryIsAttained(x, y, i - 1, j);
      SubseqOfLonger(z, x, i - 1);
    } else {
      z := EntryIsAttained(x, y, i, j - 1);
      SubseqOfLonger(z, y, j - 1);
    }
  }

  /**
    The final entry is the length of a longest common subsequence: some
    common subsequence has that length and none is longer.
   */
  lemma LcsIsLongest<T>(x: seq<T>, y: seq<T>)
    ensures exists z :: IsCommonSubseq(z, x, y) && |z| == Entry(x, y, |x|, |y|)
    ensures forall z :: IsCommonSubseq(z, x, y) ==> |z| <= Entry(x, y, |x|, |y|)
    ensures Entry(x, y, |x|, |y|) <= |x| && Entry(x, y, |x|, |y|) <= |y|
  {
    assert x[..|x|] == x && y[..|y|] == y;
    var w := EntryIsAttained(x, y, |x|, |y|);
    SubseqNoLonger(w, x);
    SubseqNoLonger(w, y);
    forall z | IsCommonSubseq(z, x, y) ensures |z| <= Entry(x, y, |x|, |y|) {
      EntryIsUpperBound(x, y, |x|, |y|, z);
    }
  }

  /** A sequence's longest common subsequence with itself is the whole sequence. */
  lemma {:induction false} LcsWithItself<T>(x: seq<T>, i: nat)
    requires i <= |x|
    ensures Entry(x, x, i, i) == i
  {
    if i > 0 {
      LcsWithItself(x, i - 1);
    }
  }
}
