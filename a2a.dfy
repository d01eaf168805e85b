/**
 * The older base-92 codec of the `a2a` command (`base92encode` and
 * `base92decode`): the same divide-by-92 and Horner loops as package
 * `base92`, a different alphabet, symbols looked up by linear search, and no
 * bookkeeping for leading zero bytes.
 */
module A2A {
  import opened Results
  import opened SeqUtil
  import opened BigNat
  import opened Bytes

  datatype Error = InvalidCharacter   // "invalid base92 character"

  /**
   * `base92Alphabet`: "!" followed by "#" through "~", that is every
   * printable ASCII byte except the double quote, in ascending order. The
   * Go literal spells the backslash as an escape, so the constant holds 93
   * bytes, one more than the radix; the last one, "~", is never written by
   * the encoder but is read back by the decoder as digit 92.
   */
  const Base92Alphabet: seq<byte> := [33] + Ascending(35, Base)

  /** The alphabet with the symbol the radix has no digit for left off. */
  const IntendedAlphabet: seq<byte> := Base92Alphabet[..Base]

  /** Both alphabets are ascending, so no symbol repeats. */
  lemma AlphabetsDistinct()
    ensures |Base92Alphabet| == Base + 1 && |IntendedAlphabet| == Base
    ensures Distinct(Base92Alphabet) && Distinct(IntendedAlphabet)
  {
    assert forall i, j :: 0 <= i < j < |Base92Alphabet| ==> Base92Alphabet[i] < Base92Alphabet[j];
  }

  /** The digits the linear search gives the bytes of `s`: each one's first position in the alphabet. */
  function DigitIndexes(alphabet: seq<byte>, s: seq<byte>): (ds: seq<nat>)
    requires AllIn(alphabet, s)
    ensures |ds| == |s|
    ensures forall i :: 0 <= i < |s| ==> ds[i] < |alphabet| && alphabet[ds[i]] == s[i]
    ensures forall i, j :: 0 <= i < |s| && 0 <= j < ds[i] ==> alphabet[j] != s[i]
  {
    seq(|s|, i requires 0 <= i < |s| => FirstIndex(alphabet, s[i]) as nat)
  }

  /** What `base92encode` returns over `alphabet`: the base-92 digits of the input's big-endian value. */
  function EncodeWith(alphabet: seq<byte>, data: seq<byte>): (s: seq<byte>)
    requires |alphabet| >= Base
    ensures data == [] ==> s == []
    ensures AllIn(alphabet, s)
  {
    Spell(alphabet, Digits(Base, FromBytes(data)))
  }

  /**
   * What `base92decode` returns over `alphabet`: an error when some byte is
   * not a symbol, else the minimal big-endian bytes of the Horner value of
   * the digits, which never start with a zero byte.
   */
  function DecodeWith(alphabet: seq<byte>, s: seq<byte>): (r: Result<seq<byte>, Error>)
    ensures s == [] ==> r == Success([])
    ensures r.Failure? <==> exists i :: 0 <= i < |s| && s[i] !in alphabet
    ensures r.Success? ==> r.value == [] || r.value[0] != 0
  {
    if |s| == 0 then Success([])
    else if AllIn(alphabet, s) then Success(ToBytes(Value(Base, DigitIndexes(alphabet, s))))
    else Failure(InvalidCharacter)
  }

  /** `base92encode` itself: it only ever writes the first 92 symbols, never "~". */
  function Encode(data: seq<byte>): (s: seq<byte>)
    ensures data == [] ==> s == []
    ensures AllIn(IntendedAlphabet, s)
  {
    var ds := Digits(Base, FromBytes(data));
    assert forall i :: 0 <= i < |ds| ==> Base92Alphabet[ds[i]] == IntendedAlphabet[ds[i]];
    EncodeWith(Base92Alphabet, data)
  }

  /** `base92decode` itself: any of the 93 bytes of the constant is accepted as a symbol. */
  function Decode(s: seq<byte>): (r: Result<seq<byte>, Error>)
    ensures s == [] ==> r == Success([])
    ensures r.Failure? <==> exists i :: 0 <= i < |s| && s[i] !in Base92Alphabet
    ensures r.Success? ==> r.value == [] || r.value[0] != 0
  {
    DecodeWith(Base92Alphabet, s)
  }

  /** The digits found for a spelled digit sequence are the digits themselves. */
  lemma DigitIndexesOfSpell(alphabet: seq<byte>, ds: seq<nat>)
    requires |alphabet| >= Base && Distinct(alphabet)
    requires forall i :: 0 <= i < |ds| ==> ds[i] < Base
    ensures AllIn(alphabet, Spell(alphabet, ds))
    ensures DigitIndexes(alphabet, Spell(alphabet, ds)) == ds
  {
    var s := Spell(alphabet, ds);
    forall i | 0 <= i < |ds|
      ensures DigitIndexes(alphabet, s)[i] == ds[i]
    {
      IndexOfDistinct(alphabet, ds[i]);
    }
  }

  /** An input of zero bytes only encodes to the empty string: the leading zeros are lost. */
  lemma EncodeAllZero(n: nat)
    ensures Encode(Repeat<byte>(0, n)) == []
  {
    var zeros: seq<nat> := Repeat<byte>(0, n);
    ValueZero(256, zeros);
  }

  /**
   * Over any alphabet of at least 92 distinct symbols, decoding the
   * encoding of `b` gives `b` back exactly when `b` is empty or does not
   * start with a zero byte.
   */
  lemma {:induction false} RoundTripWith(alphabet: seq<byte>, b: seq<byte>)
    requires |alphabet| >= Base && Distinct(alphabet)
    ensures DecodeWith(alphabet, EncodeWith(alphabet, b)) == Success(b) <==> (b == [] || b[0] != 0)
  {
    var ds := Digits(Base, FromBytes(b));
    DigitIndexesOfSpell(alphabet, ds);
    if b == [] || b[0] != 0 {
      BytesRoundTrip(b);
      assert PrefixRun(b, 0) == 0;
      assert Repeat<byte>(0, 0) + ToBytes(FromBytes(b)) == ToBytes(FromBytes(b));
    }
  }

  /** The round trip of the `a2a` codec itself. */
  lemma RoundTrip(b: seq<byte>)
    ensures Decode(Encode(b)) == Success(b) <==> (b == [] || b[0] != 0)
  {
    AlphabetsDistinct();
    RoundTripWith(Base92Alphabet, b);
  }

  /** The symbols for digits 0 and 1, and the extra 93rd symbol, with their first positions. */
  lemma AlphabetLandmarks()
    ensures Base92Alphabet[0] == 33 && Base92Alphabet[1] == 35 && Base92Alphabet[92] == 126
    ensures FirstIndex(Base92Alphabet, 33) == 0
    ensures FirstIndex(Base92Alphabet, 35) == 1
    ensures FirstIndex(Base92Alphabet, 126) == 92
  {
    AlphabetsDistinct();
    IndexOfDistinct(Base92Alphabet, 0);
    IndexOfDistinct(Base92Alphabet, 1);
    IndexOfDistinct(Base92Alphabet, 92);
  }

  /** The byte 92 read as a big-endian number is 92, and 92 is written as that one byte. */
  lemma ByteNinetyTwo()
    ensures FromBytes([92]) == 92 && ToBytes(92) == [92]
  {
    assert [92][..0] == [];
    DigitsOfValue(256, [92]);
  }

  /** In base 92, the number 92 is the digit 92 read alone and is written as the digits 1, 0. */
  lemma DigitsNinetyTwo()
    ensures Value(Base, [92]) == 92 && Value(Base, [1, 0]) == 92
    ensures Digits(Base, 92) == [1, 0]
  {
    assert [92][..0] == [] && [1, 0][..1] == [1] && [1][..0] == [];
    DigitsOfValue(Base, [1, 0]);
  }

  lemma DecodeTilde()
    ensures Decode([126]) == Success([92])
  {
    AlphabetLandmarks();
    ByteNinetyTwo();
    DigitsNinetyTwo();
    assert AllIn(Base92Alphabet, [126]);
    assert DigitIndexes(Base92Alphabet, [126]) == [92];
  }

  lemma DecodeHashBang()
    ensures Decode([35, 33]) == Success([92])
  {
    AlphabetLandmarks();
    ByteNinetyTwo();
    DigitsNinetyTwo();
    assert AllIn(Base92Alphabet, [35, 33]);
    assert DigitIndexes(Base92Alphabet, [35, 33]) == [1, 0];
  }

  lemma EncodeNinetyTwo()
    ensures Encode([92]) == [35, 33]
  {
    AlphabetLandmarks();
    ByteNinetyTwo();
    DigitsNinetyTwo();
    assert Spell(Base92Alphabet, [1, 0]) == [35, 33];
  }

  /**
   * As written, the decoder accepts the 93rd symbol "~" as digit 92: "~"
   * and "#!" both decode to the byte 92, and encoding that byte gives "#!",
   * not "~".
   */
  lemma TildeIsDigitNinetyTwo()
    ensures Decode([126]) == Success([92])
    ensures Decode([35, 33]) == Success([92])
    ensures Encode([92]) == [35, 33]
  {
    DecodeTilde();
    DecodeHashBang();
    EncodeNinetyTwo();
  }

  /**
   * With exactly 92 distinct symbols, every decodable string that does not
   * start with the digit-0 symbol is the encoding of what it decodes to:
   * each accepted string has one meaning and one spelling.
   */
  lemma {:induction false} CanonicalDecode(alphabet: seq<byte>, s: seq<byte>)
    requires |alphabet| == Base && Distinct(alphabet)
    requires AllIn(alphabet, s) && (s == [] || s[0] != alphabet[0])
    ensures DecodeWith(alphabet, s).Success?
    ensures EncodeWith(alphabet, DecodeWith(alphabet, s).value) == s
  {
    if s != [] {
      var ds := DigitIndexes(alphabet, s);
      IndexOfDistinct(alphabet, 0);
      assert ds[0] != 0;
      DigitsOfValue(Base, ds);
      assert FromBytes(ToBytes(Value(Base, ds))) == Value(Base, ds);
      forall i | 0 <= i < |s|
        ensures Spell(alphabet, ds)[i] == s[i]
      {
      }
    }
  }

  /** The intended alphabet keeps the encoder's output and makes decoding canonical. */
  lemma IntendedAlphabetCanonical(b: seq<byte>, s: seq<byte>)
    ensures EncodeWith(IntendedAlphabet, b) == Encode(b)
    ensures DecodeWith(IntendedAlphabet, EncodeWith(IntendedAlphabet, b)) == Success(b) <==> (b == [] || b[0] != 0)
    ensures AllIn(IntendedAlphabet, s) && (s == [] || s[0] != IntendedAlphabet[0]) ==>
              EncodeWith(IntendedAlphabet, DecodeWith(IntendedAlphabet, s).value) == s
  {
    AlphabetsDistinct();
    RoundTripWith(IntendedAlphabet, b);
    if AllIn(IntendedAlphabet, s) && (s == [] || s[0] != IntendedAlphabet[0]) {
      CanonicalDecode(IntendedAlphabet, s);
    }
  }

  /** `base92encode`: the DivMod loop emits symbols least significant first, then the buffer is reversed. */
  method Base92Encode(data: seq<byte>) returns (s: seq<byte>)
    ensures s == Encode(data)
  {
    if |data| == 0 {
      return [];
    }

    var x: nat := FromBytes(data);
    ghost var value := x;
    var encoded: seq<byte> := [];
    while x > 0
      invariant encoded + Emitted(Base92Alphabet, x) == Emitted(Base92Alphabet, value)
    {
      var mod := x % Base;
      EmittedStep(Base92Alphabet, encoded, x);
      x := x / Base;
      encoded := encoded + [Base92Alphabet[mod]];
    }
    assert encoded == Emitted(Base92Alphabet, value) by {
      assert encoded + [] == encoded;
    }

    var buffer := new byte[|encoded|](k requires 0 <= k < |encoded| => encoded[k]);
    assert buffer[..] == encoded;
    ReverseInPlace(buffer);
    s := buffer[..];
    EmittedReversed(Base92Alphabet, value);
    assert s == Spell(Base92Alphabet, Digits(Base, value));
  }

  /**
   * The state of `base92decode`'s loop after the first `i` bytes of `s`:
   * all of them are symbols and `x` is the Horner value of their digits.
   */
  ghost predicate HornerPrefix(s: seq<byte>, i: nat, x: nat)
  {
    && i <= |s|
    && AllIn(Base92Alphabet, s[..i])
    && x == Value(Base, DigitIndexes(Base92Alphabet, s[..i]))
  }

  /** One more symbol: multiply by 92 and add the position the search found. */
  lemma HornerPrefixStep(s: seq<byte>, i: nat, x: nat)
    requires i < |s| && s[i] in Base92Alphabet
    requires HornerPrefix(s, i, x)
    ensures HornerPrefix(s, i + 1, x * Base + FirstIndex(Base92Alphabet, s[i]))
  {
    var pre, next := s[..i], s[..i + 1];
    assert next == pre + [s[i]];
    assert AllIn(Base92Alphabet, next) by {
      forall k | 0 <= k < |next| ensures next[k] in Base92Alphabet {
        if k < i { assert next[k] == pre[k]; }
      }
    }
    var ds := DigitIndexes(Base92Alphabet, next);
    assert ds == DigitIndexes(Base92Alphabet, pre) + [FirstIndex(Base92Alphabet, s[i]) as nat];
    ValueSnoc(Base, DigitIndexes(Base92Alphabet, pre), FirstIndex(Base92Alphabet, s[i]) as nat);
  }

  /** A byte that is not a symbol anywhere in `s` makes decoding fail. */
  lemma DecodeRejects(s: seq<byte>, i: nat)
    requires i < |s| && s[i] !in Base92Alphabet
    ensures Decode(s) == Failure(InvalidCharacter)
  {
  }

  /** Once every byte of a non-empty `s` is read, Decode is the minimal bytes of the Horner value. */
  lemma DecodeOfDecodable(s: seq<byte>, x: nat)
    requires |s| > 0 && HornerPrefix(s, |s|, x)
    ensures Decode(s) == Success(ToBytes(x))
  {
    assert s[..|s|] == s;
  }

  /** `base92decode`: Horner's rule, each symbol found by a linear search that stops at its first match. */
  method Base92Decode(s: seq<byte>) returns (r: Result<seq<byte>, Error>)
    ensures r == Decode(s)
  {
    if |s| == 0 {
      return Success([]);
    }

    var x: nat := 0;
    for i := 0 to |s|
      invariant HornerPrefix(s, i, x)
    {
      var c := s[i];
      var index := -1;
      var j := 0;
      while j < |Base92Alphabet|
        invariant 0 <= j <= |Base92Alphabet|
        invariant index == -1
        invariant forall k :: 0 <= k < j ==> Base92Alphabet[k] != c
      {
        if c == Base92Alphabet[j] {
          index := j;
          break;
        }
        j := j + 1;
      }
      if index == -1 {
        DecodeRejects(s, i);
        return Failure(InvalidCharacter);
      }
      assert index == FirstIndex(Base92Alphabet, c);
      HornerPrefixStep(s, i, x);
      x := x * Base + index;
    }
    DecodeOfDecodable(s, x);
    return Success(ToBytes(x));
  }
}
