/**
 * Sequence helpers shared by the two base-92 codecs: repetition, the run of a
 * value at the front, reversal (and the swap loop that reverses a buffer in
 * place), searches, distinctness and the digit-to-symbol mapping.
 */
module SeqUtil {

  /** `n` copies of `x` (Go's `bytes.Repeat([]byte{x}, n)`). */
  function Repeat<T>(x: T, n: nat): (r: seq<T>)
    ensures |r| == n
    ensures forall i :: 0 <= i < n ==> r[i] == x
  {
    if n == 0 then [] else [x] + Repeat(x, n - 1)
  }

  /** The length of the longest prefix of `s` made only of `x`. */
  function PrefixRun<T(==)>(s: seq<T>, x: T): (n: nat)
    ensures n <= |s|
    ensures forall i :: 0 <= i < n ==> s[i] == x
    ensures n < |s| ==> s[n] != x
  {
    if s == [] || s[0] != x then 0 else 1 + PrefixRun(s[1..], x)
  }

  /** The three properties in PrefixRun's contract determine it. */
  lemma PrefixRunUnique<T>(s: seq<T>, x: T, n: nat)
    requires n <= |s|
    requires forall i :: 0 <= i < n ==> s[i] == x
    requires n < |s| ==> s[n] != x
    ensures PrefixRun(s, x) == n
  {
  }

  /** Extending `s` at the end extends its run of `x` only if the run was all of `s`. */
  lemma PrefixRunSnoc<T>(s: seq<T>, x: T, y: T)
    ensures PrefixRun(s + [y], x) ==
            if PrefixRun(s, x) == |s| && y == x then |s| + 1 else PrefixRun(s, x)
  {
    var n := PrefixRun(s, x);
    PrefixRunUnique(s + [y], x, if n == |s| && y == x then |s| + 1 else n);
  }

  /** A run of `z` copies of `x` in front of anything that does not start with `x` is a run of exactly `z`. */
  lemma PrefixRunOfRepeat<T>(x: T, z: nat, t: seq<T>)
    requires t == [] || t[0] != x
    ensures PrefixRun(Repeat(x, z) + t, x) == z
  {
    PrefixRunUnique(Repeat(x, z) + t, x, z);
  }

  /** `s` backwards. */
  function Reversed<T>(s: seq<T>): (r: seq<T>)
    ensures |r| == |s|
    ensures forall i :: 0 <= i < |s| ==> r[i] == s[|s| - 1 - i]
  {
    if s == [] then [] else [s[|s| - 1]] + Reversed(s[..|s| - 1])
  }

  /** Reversal turns a concatenation around. */
  lemma ReversedAppend<T>(u: seq<T>, v: seq<T>)
    ensures Reversed(u + v) == Reversed(v) + Reversed(u)
  {
  }

  /** A run of copies of one value is its own reversal. */
  lemma ReversedRepeat<T>(x: T, n: nat)
    ensures Reversed(Repeat(x, n)) == Repeat(x, n)
  {
  }

  /** The swap loop `for i, j := 0, len(a)-1; i < j; i, j = i+1, j-1` of both encoders. */
  method ReverseInPlace<T>(a: array<T>)
    modifies a
    ensures a[..] == Reversed(old(a[..]))
  {
    var i, j := 0, a.Length - 1;
    while i < j
      invariant 0 <= i <= j + 1 <= a.Length
      invariant j == a.Length - 1 - i
      invariant forall k :: 0 <= k < i ==> a[k] == old(a[a.Length - 1 - k]) && a[a.Length - 1 - k] == old(a[k])
      invariant forall k :: i <= k <= j ==> a[k] == old(a[k])
    {
      a[i], a[j] := a[j], a[i];
      i, j := i + 1, j - 1;
    }
  }

  /** No element of `s` occurs twice. */
  ghost predicate Distinct<T>(s: seq<T>) {
    forall i, j :: 0 <= i < j < |s| ==> s[i] != s[j]
  }

  /** Two sequences without duplicates and without a common element concatenate to one without duplicates. */
  lemma DistinctConcat<T>(u: seq<T>, v: seq<T>)
    requires Distinct(u) && Distinct(v)
    requires forall i, j :: 0 <= i < |u| && 0 <= j < |v| ==> u[i] != v[j]
    ensures Distinct(u + v)
  {
  }

  /** Every element of `s` occurs in `alphabet`. */
  predicate AllIn<T(==)>(alphabet: seq<T>, s: seq<T>) {
    forall i :: 0 <= i < |s| ==> s[i] in alphabet
  }

  /** The position of the first occurrence of `c` in `s`, or -1 when there is none. */
  function FirstIndex<T(==)>(s: seq<T>, c: T): (k: int)
    ensures -1 <= k < |s|
    ensures k == -1 <==> c !in s
    ensures k >= 0 ==> s[k] == c && forall j :: 0 <= j < k ==> s[j] != c
  {
    if s == [] then -1
    else if s[0] == c then 0
    else var k := FirstIndex(s[1..], c); if k == -1 then -1 else k + 1
  }

  /** The position of the last occurrence of `c` in `s`, or -1 when there is none. */
  function LastIndex<T(==)>(s: seq<T>, c: T): (k: int)
    ensures -1 <= k < |s|
    ensures k == -1 <==> c !in s
    ensures k >= 0 ==> s[k] == c && forall j :: k < j < |s| ==> s[j] != c
  {
    if s == [] then -1
    else if s[|s| - 1] == c then |s| - 1
    else LastIndex(s[..|s| - 1], c)
  }

  /** In a sequence without duplicates, the first and last occurrence of `s[i]` are both `i`. */
  lemma IndexOfDistinct<T>(s: seq<T>, i: nat)
    requires Distinct(s) && i < |s|
    ensures FirstIndex(s, s[i]) == i && LastIndex(s, s[i]) == i
  {
  }

  /** Digits written with the symbols of `alphabet`. */
  function Spell<T>(alphabet: seq<T>, ds: seq<nat>): (s: seq<T>)
    requires forall i :: 0 <= i < |ds| ==> ds[i] < |alphabet|
    ensures |s| == |ds|
    ensures forall c :: c in s ==> c in alphabet
  {
    seq(|ds|, i requires 0 <= i < |ds| => alphabet[ds[i]])
  }

  /** Spelling distributes over concatenation. */
  lemma SpellAppend<T>(alphabet: seq<T>, u: seq<nat>, v: seq<nat>)
    requires forall i :: 0 <= i < |u| ==> u[i] < |alphabet|
    requires forall i :: 0 <= i < |v| ==> v[i] < |alphabet|
    ensures Spell(alphabet, u + v) == Spell(alphabet, u) + Spell(alphabet, v)
  {
  }

  /** A run of digit 0 spells as a run of the alphabet's first symbol. */
  lemma SpellZeros<T>(alphabet: seq<T>, n: nat)
    requires |alphabet| > 0
    ensures Spell(alphabet, Repeat(0, n)) == Repeat(alphabet[0], n)
  {
  }
}
