/**
 * The arbitrary-precision arithmetic both codecs get from Go's `math/big`,
 * with the integer held as an unbounded `nat`: positional value of a digit
 * sequence (`SetBytes` in base 256, the Horner loop in base 92) and the
 * minimal digit sequence of a number (`Bytes` in base 256, the `DivMod` loop
 * in base 92).
 */
module BigNat {
  import opened SeqUtil
  import opened Bytes

  /** The `n` consecutive byte values from `lo` up; no value repeats. */
  function Ascending(lo: nat, n: nat): (s: seq<byte>)
    requires lo + n <= 256
    ensures |s| == n
    ensures forall i :: 0 <= i < n ==> s[i] == lo + i
  {
    seq(n, i requires 0 <= i < n => lo + i)
  }

  /** The radix of both base-92 codecs. */
  const Base: nat := 92

  /** The value of `ds` read as digits in `base`, most significant first (Horner's rule). */
  function Value(base: nat, ds: seq<nat>): (v: nat)
  {
    if ds == [] then 0 else Value(base, ds[..|ds| - 1]) * base + ds[|ds| - 1]
  }

  /** One more digit at the low end multiplies by the base and adds the digit. */
  lemma ValueSnoc(base: nat, ds: seq<nat>, d: nat)
    ensures Value(base, ds + [d]) == Value(base, ds) * base + d
  {
    assert (ds + [d])[..|ds|] == ds;
  }

  /** A digit sequence has value zero exactly when all its digits are zero. */
  lemma {:induction false} ValueZero(base: nat, ds: seq<nat>)
    requires base > 0
    ensures Value(base, ds) == 0 <==> forall i :: 0 <= i < |ds| ==> ds[i] == 0
  {
    if ds != [] {
      ValueZero(base, ds[..|ds| - 1]);
    }
  }

  /** Leading zero digits do not change the value. */
  lemma {:induction false} ValueLeadingZeros(base: nat, z: nat, ds: seq<nat>)
    ensures Value(base, Repeat<nat>(0, z) + ds) == Value(base, ds)
  {
    if ds == [] {
      assert Repeat<nat>(0, z) + ds == Repeat<nat>(0, z);
      ValueRepeatZero(base, z);
    } else {
      var init := ds[..|ds| - 1];
      assert Repeat<nat>(0, z) + ds == (Repeat<nat>(0, z) + init) + [ds[|ds| - 1]];
      ValueSnoc(base, Repeat<nat>(0, z) + init, ds[|ds| - 1]);
      ValueLeadingZeros(base, z, init);
    }
  }

  lemma {:induction false} ValueRepeatZero(base: nat, z: nat)
    ensures Value(base, Repeat<nat>(0, z)) == 0
  {
    if z > 0 {
      assert Repeat<nat>(0, z) == Repeat<nat>(0, z - 1) + [0];
      ValueSnoc(base, Repeat<nat>(0, z - 1), 0);
      ValueRepeatZero(base, z - 1);
    }
  }

  /** Euclidean division by `base` splits off the low digit and leaves a smaller quotient. */
  lemma DivMod(base: nat, x: nat)
    requires base >= 2
    ensures x == (x / base) * base + x % base
    ensures 0 <= x % base < base
    ensures x > 0 ==> x / base < x
    ensures x / base == 0 ==> x % base == x
  {
  }

  /** Multiplication by a natural number is monotonic. */
  lemma {:induction false} MulMonotonic(a: nat, c: nat, b: nat)
    requires a <= c
    ensures a * b <= c * b
  {
    if a < c {
      MulMonotonic(a, c - 1, b);
    }
  }

  /** Appending a digit below `v` and dividing by `base` gives back `v` and the digit. */
  lemma DivModUnique(base: nat, v: nat, d: nat)
    requires 2 <= base && d < base
    ensures (v * base + d) / base == v
    ensures (v * base + d) % base == d
  {
    var x := v * base + d;
    DivMod(base, x);
    var q := x / base;
    if v < q {
      MulMonotonic(v + 1, q, base);
    } else if q < v {
      MulMonotonic(q + 1, v, base);
    }
  }

  /** The shortest digit sequence in `base` whose value is `x`: no leading zero, empty for zero. */
  function Digits(base: nat, x: nat): (ds: seq<nat>)
    requires base >= 2
    ensures forall i :: 0 <= i < |ds| ==> ds[i] < base
    ensures ds == [] <==> x == 0
    ensures ds == [] || ds[0] != 0
    ensures Value(base, ds) == x
  {
    if x == 0 then []
    else
      DivMod(base, x);
      var q, r := x / base, x % base;
      var high := Digits(base, q);
      ValueSnoc(base, high, r);
      assert q == 0 ==> r == x;
      var ds := high + [r];
      assert ds[0] == if high == [] then r else high[0];
      ds
  }

  /**
   * The symbols for the base-92 digits of `x` in the order a DivMod loop
   * produces them: least significant first.
   */
  function Emitted<T>(alphabet: seq<T>, x: nat): (s: seq<T>)
    requires |alphabet| >= Base
    ensures s == [] <==> x == 0
    ensures forall i :: 0 <= i < |s| ==> s[i] in alphabet[..Base]
  {
    if x == 0 then [] else [alphabet[x % Base]] + Emitted(alphabet, x / Base)
  }

  /** One round of the DivMod loop moves the low symbol from what is left to what is emitted. */
  lemma EmittedStep<T>(alphabet: seq<T>, emitted: seq<T>, x: nat)
    requires |alphabet| >= Base && x > 0
    ensures emitted + Emitted(alphabet, x) == (emitted + [alphabet[x % Base]]) + Emitted(alphabet, x / Base)
  {
  }

  /** Reversing what the DivMod loop emitted spells the digits most significant first. */
  lemma {:induction false} EmittedReversed<T>(alphabet: seq<T>, x: nat)
    requires |alphabet| >= Base
    ensures Reversed(Emitted(alphabet, x)) == Spell(alphabet, Digits(Base, x))
  {
    if x > 0 {
      var c := alphabet[x % Base];
      EmittedReversed(alphabet, x / Base);
      ReversedAppend([c], Emitted(alphabet, x / Base));
      SpellAppend(alphabet, Digits(Base, x / Base), [x % Base]);
    }
  }

  /** Reversing the emitted symbols followed by `z` digit-0 symbols puts the zeros in front. */
  lemma EmittedWithZeros<T>(alphabet: seq<T>, x: nat, z: nat)
    requires |alphabet| >= Base
    ensures Reversed(Emitted(alphabet, x) + Repeat(alphabet[0], z))
         == Spell(alphabet, Repeat<nat>(0, z) + Digits(Base, x))
  {
    ReversedAppend(Emitted(alphabet, x), Repeat(alphabet[0], z));
    ReversedRepeat(alphabet[0], z);
    EmittedReversed(alphabet, x);
    SpellZeros(alphabet, z);
    SpellAppend(alphabet, Repeat<nat>(0, z), Digits(Base, x));
  }

  /** A digit sequence with no leading zero is the digit sequence of its own value. */
  lemma {:induction false} DigitsOfValue(base: nat, ds: seq<nat>)
    requires base >= 2
    requires forall i :: 0 <= i < |ds| ==> ds[i] < base
    requires ds == [] || ds[0] != 0
    ensures Digits(base, Value(base, ds)) == ds
  {
    if ds != [] {
      var init, last := ds[..|ds| - 1], ds[|ds| - 1];
      assert ds == init + [last];
      var v := Value(base, init);
      ValueSnoc(base, init, last);
      var x := v * base + last;
      assert Value(base, ds) == x;
      DivModUnique(base, v, last);
      if init == [] {
        assert v == 0;
        assert x == last;
      } else {
        assert init[0] == ds[0];
        ValueZero(base, init);
        DigitsOfValue(base, init);
      }
      assert x != 0;
      assert Digits(base, x) == Digits(base, x / base) + [x % base];
    }
  }

  /** `big.Int.SetBytes`: the bytes read as a big-endian unsigned integer. */
  function FromBytes(b: seq<byte>): (n: nat)
    ensures n == 0 <==> forall i :: 0 <= i < |b| ==> b[i] == 0
  {
    ValueZero(256, b);
    Value(256, b)
  }

  /** `big.Int.Bytes`: the minimal big-endian bytes of `x` (empty for zero). */
  function ToBytes(x: nat): (b: seq<byte>)
    ensures b == [] <==> x == 0
    ensures b == [] || b[0] != 0
    ensures FromBytes(b) == x
  {
    Digits(256, x)
  }

  /** Dropping the leading zero bytes, `ToBytes` recovers every byte sequence from its value. */
  lemma BytesRoundTrip(b: seq<byte>)
    ensures Repeat<byte>(0, PrefixRun(b, 0)) + ToBytes(FromBytes(b)) == b
  {
    var z := PrefixRun(b, 0);
    var rest: seq<nat> := b[z..];
    assert b == Repeat<byte>(0, z) + b[z..];
    var digits: seq<nat> := b;
    assert digits == Repeat<nat>(0, z) + rest;
    ValueLeadingZeros(256, z, rest);
    DigitsOfValue(256, rest);
    assert ToBytes(FromBytes(b)) == b[z..];
  }
}
