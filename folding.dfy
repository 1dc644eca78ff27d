/** The folding hash of question1Hashing.py: a key is cut into groups of four
    characters from the left, every group is read as a decimal number, and the
    sum of the groups, taken modulo the table size, is the bucket index. */
module Folding {

  /** `group_size` in the source. */
  const GroupSize: nat := 4

  predicate IsDigit(c: char) {
    '0' <= c <= '9'
  }

  predicate IsDigits(s: string) {
    forall i :: 0 <= i < |s| ==> IsDigit(s[i])
  }

  /** An identity-card number as the simulation generates it: twelve decimal digits. */
  predicate IsIcNumber(s: string) {
    |s| == 12 && IsDigits(s)
  }

  function DigitValue(c: char): (d: nat)
    requires IsDigit(c)
    ensures d < 10
  {
    (c as int) - ('0' as int)
  }

  function Pow10(n: nat): (p: nat)
    ensures p >= 1
  {
    if n == 0 then 1 else 10 * Pow10(n - 1)
  }

  /** The number a non-empty digit string denotes, leading zeros allowed: what
      Python's `int` makes of one group. A numeral of n digits denotes a number
      below 10^n, so one group is at most 9999. */
  function Value(s: string): (v: nat)
    requires s != [] && IsDigits(s)
    ensures v < Pow10(|s|)
  {
    if |s| == 1 then DigitValue(s[0]) else 10 * Value(s[..|s| - 1]) + DigitValue(s[|s| - 1])
  }

  function Min(a: int, b: int): int {
    if a <= b then a else b
  }

  /** The groups `s[i:i+4]` for `i` in `range(0, len(s), 4)`, computed from the left. */
  function Groups(s: string): (gs: seq<string>)
    ensures Concat(gs) == s
    ensures forall k :: 0 <= k < |gs| ==> 1 <= |gs[k]| <= GroupSize
    ensures forall k :: 0 <= k < |gs| - 1 ==> |gs[k]| == GroupSize
    decreases |s|
  {
    if s == [] then []
    else if |s| <= GroupSize then [s]
    else [s[..GroupSize]] + Groups(s[GroupSize..])
  }

  function Concat(gs: seq<string>): string {
    if gs == [] then [] else gs[0] + Concat(gs[1..])
  }

  /** There is one group per started block of four characters. */
  lemma {:induction false} GroupCount(s: string)
    ensures |Groups(s)| == (|s| + GroupSize - 1) / GroupSize
  {
    if |s| > GroupSize {
      GroupCount(s[GroupSize..]);
    }
  }

  /** Group number k is exactly Python's slice `s[4*k : 4*k + 4]`. */
  lemma {:induction false} GroupAt(s: string, k: nat)
    requires k < |Groups(s)|
    ensures GroupSize * k < |s| && Groups(s)[k] == s[GroupSize * k .. Min(GroupSize * k + GroupSize, |s|)]
  {
    if k > 0 {
      var t := s[GroupSize..];
      assert Groups(s)[k] == Groups(t)[k - 1];
      GroupAt(t, k - 1);
      SliceOfSuffix(s, GroupSize * (k - 1), Min(GroupSize * (k - 1) + GroupSize, |t|));
    }
  }

  lemma SliceOfSuffix(s: string, i: nat, j: nat)
    requires GroupSize + j <= |s| && i <= j
    ensures s[GroupSize..][i..j] == s[GroupSize + i .. GroupSize + j]
  {
  }

  /** Every group of a digit string is a digit string. */
  lemma {:induction false} GroupsAreDigits(s: string)
    requires IsDigits(s)
    ensures forall k :: 0 <= k < |Groups(s)| ==> Groups(s)[k] != [] && IsDigits(Groups(s)[k])
  {
    if |s| > GroupSize {
      GroupsAreDigits(s[GroupSize..]);
    }
  }

  /** The sum of the values of a sequence of groups: no group is worth more than the
      total, and a single group is worth all of it. */
  function GroupTotal(gs: seq<string>): (t: nat)
    requires forall k :: 0 <= k < |gs| ==> gs[k] != [] && IsDigits(gs[k])
    ensures forall k :: 0 <= k < |gs| ==> Value(gs[k]) <= t
    ensures |gs| == 1 ==> t == Value(gs[0])
  {
    if gs == [] then 0 else Value(gs[0]) + GroupTotal(gs[1..])
  }

  /** `total` at the end of the loop in `folding_hash`: the empty key sums to 0; the
      step from one group to the next is `FoldSumStep`. */
  function FoldSum(s: string): (total: nat)
    requires IsDigits(s)
    ensures s == [] ==> total == 0
  {
    GroupsAreDigits(s);
    GroupTotal(Groups(s))
  }

  /** The bucket that `folding_hash(s, n)` returns. */
  function Fold(s: string, n: nat): (index: nat)
    requires IsDigits(s) && n >= 1
    ensures index < n
  {
    FoldSum(s) % n
  }

  /** One step of the fold: the sum over a non-empty string is its first group plus
      the sum over the rest. */
  lemma FoldSumStep(s: string)
    requires IsDigits(s) && s != []
    ensures s[..Min(GroupSize, |s|)] != [] && IsDigits(s[..Min(GroupSize, |s|)])
    ensures IsDigits(s[Min(GroupSize, |s|)..])
    ensures FoldSum(s) == Value(s[..Min(GroupSize, |s|)]) + FoldSum(s[Min(GroupSize, |s|)..])
  {
    GroupsAreDigits(s);
    if |s| <= GroupSize {
      assert s[..|s|] == s;
      assert Groups(s[|s|..]) == [];
      assert GroupTotal(Groups(s)) == Value(s) + GroupTotal([]);
    } else {
      assert Groups(s)[1..] == Groups(s[GroupSize..]);
    }
  }

  /** The group starting at position i of a digit string, and the rest after it. */
  lemma GroupFrom(key: string, i: nat)
    requires IsDigits(key) && i < |key|
    ensures key[i .. Min(i + GroupSize, |key|)] != [] && IsDigits(key[i .. Min(i + GroupSize, |key|)])
    ensures IsDigits(key[Min(i + GroupSize, |key|)..])
    ensures FoldSum(key[i..]) == Value(key[i .. Min(i + GroupSize, |key|)]) + FoldSum(key[Min(i + GroupSize, |key|)..])
  {
    var rest := key[i..];
    FoldSumStep(rest);
    assert rest[..Min(GroupSize, |rest|)] == key[i .. Min(i + GroupSize, |key|)];
    assert rest[Min(GroupSize, |rest|)..] == key[Min(i + GroupSize, |key|)..];
  }

  /** folding_hash: the loop over the groups, accumulating `total`. */
  method FoldingHash(key: string, tableSize: nat) returns (index: nat)
    requires IsDigits(key) && tableSize >= 1
    ensures index < tableSize
    ensures index == Fold(key, tableSize)
  {
    var total := 0;
    var i := 0;
    while i < |key|
      invariant 0 <= i < |key| + GroupSize
      invariant IsDigits(key[Min(i, |key|)..])
      invariant total + FoldSum(key[Min(i, |key|)..]) == FoldSum(key)
      decreases |key| - i
    {
      GroupFrom(key, i);
      var group := Value(key[i .. Min(i + GroupSize, |key|)]);
      total := total + group;
      i := i + GroupSize;
    }
    assert key[|key|..] == [];
    index := total % tableSize;
  }

  /** A twelve-digit identity-card number folds into exactly three full groups. */
  lemma IcNumberGroups(s: string)
    requires IsIcNumber(s)
    ensures Groups(s) == [s[..4], s[4..8], s[8..]]
  {
    var t := s[GroupSize..];
    assert t[GroupSize..] == s[8..] && t[..GroupSize] == s[4..8];
    assert Groups(t[GroupSize..]) == [s[8..]];
    assert Groups(t) == [s[4..8]] + [s[8..]];
  }

  /** The folded sum of an identity-card number is the sum of its three groups, so it
      never exceeds 3 * 9999. */
  lemma {:induction false} IcNumberFoldSum(s: string)
    requires IsIcNumber(s)
    ensures FoldSum(s) == Value(s[..4]) + Value(s[4..8]) + Value(s[8..])
    ensures FoldSum(s) <= 3 * 9999
  {
    IcNumberGroups(s);
    GroupsAreDigits(s);
    var gs := Groups(s);
    assert gs[1..][1..] == [s[8..]];
    assert GroupTotal(gs[1..][1..]) == Value(s[8..]) + GroupTotal([]);
    assert GroupTotal(gs[1..]) == Value(s[4..8]) + GroupTotal(gs[1..][1..]);
    assert GroupTotal(gs) == Value(s[..4]) + GroupTotal(gs[1..]);
    assert Pow10(4) == 10000;
  }

  /** The value of a four-digit group, digit by digit. */
  lemma FourDigits(g: string)
    requires |g| == 4 && IsDigits(g)
    ensures Value(g) == 1000 * DigitValue(g[0]) + 100 * DigitValue(g[1]) + 10 * DigitValue(g[2]) + DigitValue(g[3])
  {
    assert g[..3][..2] == g[..2] && g[..2][..1] == g[..1];
    assert Value(g[..1]) == DigitValue(g[0]);
    assert Value(g[..2]) == 10 * DigitValue(g[0]) + DigitValue(g[1]);
    assert Value(g[..3]) == 10 * Value(g[..2]) + DigitValue(g[2]);
  }

  /** "000100020003" folds into 1 + 2 + 3 = 6, so in a table of 1000 buckets it lands in 6. */
  lemma ExampleFold()
    ensures IsDigits("000100020003") && Fold("000100020003", 1000) == 6
  {
    var s := "000100020003";
    assert IsIcNumber(s) by {
      forall i | 0 <= i < 12 ensures IsDigit(s[i]) { }
    }
    IcNumberFoldSum(s);
    FourDigits(s[..4]);
    FourDigits(s[4..8]);
    FourDigits(s[8..]);
  }
}
