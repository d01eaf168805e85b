/**
 * The base-92 codec of package `base92`: an `Encoding` holds a 92-entry
 * table from digit to symbol and a 256-entry table from byte to digit
 * (0xFF for bytes outside the alphabet). Encoding reads the input as a
 * big-endian number, writes its base-92 digits most significant first, and
 * puts one digit-0 symbol in front for every leading zero byte; decoding
 * undoes both steps.
 */
module Base92 {
  import opened Results
  import opened SeqUtil
  import opened BigNat
  import opened Bytes

  datatype Error =
    | AlphabetLength(length: nat)   // the panic of NewEncoding
    | InvalidCharacter              // "invalid base92 character"

  /** The marker the decode table holds for bytes that are not symbols. */
  const Invalid: byte := 0xFF

  /**
   * The alphabet of `DefaultEncoding`, as bytes: the ten decimal digits, the
   * lower-case letters, the upper-case letters, then thirty punctuation
   * symbols, written out below in two rows of fifteen.
   */
  const Alphabet: seq<byte> :=
    Ascending(48, 10) + Ascending(97, 26) + Ascending(65, 26) + PunctuationHead + PunctuationTail

  // . - : + = ^ ! / * ? & < > ( )
  const PunctuationHead: seq<byte> := [46, 45, 58, 43, 61, 94, 33, 47, 42, 63, 38, 60, 62, 40, 41]
  // [ ] { } @ % $ # | ; , _ ~ ` '
  const PunctuationTail: seq<byte> := [91, 93, 123, 125, 64, 37, 36, 35, 124, 59, 44, 95, 126, 96, 39]

  /** The thirty punctuation symbols do not repeat, and none is a digit or a letter. */
  lemma PunctuationRows()
    ensures Distinct(PunctuationHead + PunctuationTail)
    ensures forall i :: 0 <= i < |PunctuationHead| ==> PunctuationHead[i] < 48 || 57 < PunctuationHead[i] < 65 || 90 < PunctuationHead[i] < 97 || 122 < PunctuationHead[i]
    ensures forall i :: 0 <= i < |PunctuationTail| ==> PunctuationTail[i] < 48 || 57 < PunctuationTail[i] < 65 || 90 < PunctuationTail[i] < 97 || 122 < PunctuationTail[i]
  {
    PunctuationHeadDistinct();
    PunctuationTailDistinct();
    PunctuationRowsDisjoint();
    DistinctConcat(PunctuationHead, PunctuationTail);
  }

  lemma PunctuationHeadDistinct()
    ensures Distinct(PunctuationHead)
  {
  }

  lemma PunctuationTailDistinct()
    ensures Distinct(PunctuationTail)
  {
  }

  /** The two rows of punctuation have no symbol in common. */
  lemma PunctuationRowsDisjoint()
    ensures forall i, j :: 0 <= i < |PunctuationHead| && 0 <= j < |PunctuationTail| ==> PunctuationHead[i] != PunctuationTail[j]
  {
  }

  /** The default alphabet has 92 symbols and no symbol twice. */
  lemma AlphabetDistinct()
    ensures |Alphabet| == Base && Distinct(Alphabet)
  {
    var digits, lower, upper := Ascending(48, 10), Ascending(97, 26), Ascending(65, 26);
    PunctuationRows();
    DistinctConcat(digits, lower);
    DistinctConcat(digits + lower, upper);
    DistinctConcat(digits + lower + upper, PunctuationHead + PunctuationTail);
    assert Alphabet == digits + lower + upper + (PunctuationHead + PunctuationTail);
  }

  /**
   * The entry NewEncoding leaves in the decode table for byte `c`: the
   * position of `c` in the alphabet (its last position when it occurs more
   * than once, since later writes win), or 0xFF when `c` is not a symbol.
   */
  function DecodeEntry(alphabet: seq<byte>, c: byte): (d: byte)
    requires |alphabet| == Base
    ensures d == Invalid <==> c !in alphabet
    ensures d != Invalid ==> d < Base && alphabet[d] == c
    ensures d != Invalid ==> forall j :: d < j < Base ==> alphabet[j] != c
  {
    var k := LastIndex(alphabet, c);
    if k == -1 then Invalid else k
  }

  /** With distinct symbols the decode table inverts the encode table. */
  lemma DecodeEntryInverts(alphabet: seq<byte>, i: nat)
    requires |alphabet| == Base && Distinct(alphabet) && i < Base
    ensures DecodeEntry(alphabet, alphabet[i]) == i
  {
    IndexOfDistinct(alphabet, i);
  }

  /** The digit values the decode table gives the bytes of `s`. */
  function DigitValues(alphabet: seq<byte>, s: seq<byte>): (ds: seq<nat>)
    requires |alphabet| == Base
    ensures |ds| == |s|
    ensures forall i :: 0 <= i < |s| && s[i] in alphabet ==> ds[i] < Base && alphabet[ds[i]] == s[i]
  {
    seq(|s|, i requires 0 <= i < |s| => DecodeEntry(alphabet, s[i]) as nat)
  }

  /**
   * What `EncodeToString` returns: one digit-0 symbol for each leading zero
   * byte, then the base-92 digits of the input's big-endian value.
   */
  function Encode(alphabet: seq<byte>, src: seq<byte>): (s: seq<byte>)
    requires |alphabet| == Base
    ensures src == [] ==> s == []
    ensures forall i :: 0 <= i < |s| ==> s[i] in alphabet
  {
    Spell(alphabet, Repeat<nat>(0, PrefixRun(src, 0)) + Digits(Base, FromBytes(src)))
  }

  /**
   * What `DecodeString` returns: an error when some byte is not a symbol;
   * otherwise one zero byte for each leading digit-0 symbol, then the
   * minimal big-endian bytes of the Horner value of the digits.
   */
  function Decode(alphabet: seq<byte>, s: seq<byte>): (r: Result<seq<byte>, Error>)
    requires |alphabet| == Base
    ensures s == [] ==> r == Success([])
    ensures r.Failure? <==> exists i :: 0 <= i < |s| && s[i] !in alphabet
    ensures r.Failure? ==> r.error == InvalidCharacter
  {
    if |s| == 0 then Success([])
    else if AllIn(alphabet, s) then
      var ds := DigitValues(alphabet, s);
      Success(Repeat<byte>(0, PrefixRun(ds, 0)) + ToBytes(Value(Base, ds)))
    else
      Failure(InvalidCharacter)
  }

  /** An input of `n` zero bytes encodes to `n` digit-0 symbols (`{0}` gives "0"). */
  lemma EncodeAllZero(alphabet: seq<byte>, n: nat)
    requires |alphabet| == Base
    ensures Encode(alphabet, Repeat<byte>(0, n)) == Repeat(alphabet[0], n)
  {
    var zeros: seq<nat> := Repeat<byte>(0, n);
    PrefixRunOfRepeat<byte>(0, n, []);
    assert Repeat<byte>(0, n) + [] == Repeat<byte>(0, n);
    ValueZero(256, zeros);
    assert Digits(Base, FromBytes(Repeat<byte>(0, n))) == [];
    assert Repeat<nat>(0, n) + [] == Repeat<nat>(0, n);
  }

  /** The digit values of a spelled digit sequence are the digits themselves. */
  lemma DigitValuesOfSpell(alphabet: seq<byte>, ds: seq<nat>)
    requires |alphabet| == Base && Distinct(alphabet)
    requires forall i :: 0 <= i < |ds| ==> ds[i] < Base
    ensures AllIn(alphabet, Spell(alphabet, ds))
    ensures DigitValues(alphabet, Spell(alphabet, ds)) == ds
  {
    var s := Spell(alphabet, ds);
    forall i | 0 <= i < |ds|
      ensures DigitValues(alphabet, s)[i] == ds[i]
    {
      DecodeEntryInverts(alphabet, ds[i]);
    }
  }

  /**
   * The round trip the leading-zero bookkeeping exists for: decoding the
   * encoding of any byte sequence, leading and all-zero bytes included,
   * gives it back.
   */
  lemma {:induction false} RoundTrip(alphabet: seq<byte>, b: seq<byte>)
    requires |alphabet| == Base && Distinct(alphabet)
    ensures Decode(alphabet, Encode(alphabet, b)) == Success(b)
  {
    var z := PrefixRun(b, 0);
    var n := FromBytes(b);
    var ds := Repeat<nat>(0, z) + Digits(Base, n);
    DigitValuesOfSpell(alphabet, ds);
    PrefixRunOfRepeat<nat>(0, z, Digits(Base, n));
    ValueLeadingZeros(Base, z, Digits(Base, n));
    BytesRoundTrip(b);
  }

  /** One round of the Horner loop: the accumulator and the count of leading digit-0 symbols. */
  lemma HornerStep(ds: seq<nat>, i: nat)
    requires i < |ds|
    ensures Value(Base, ds[..i + 1]) == Value(Base, ds[..i]) * Base + ds[i]
    ensures PrefixRun(ds[..i + 1], 0) ==
            if ds[i] == 0 && Value(Base, ds[..i + 1]) == 0 then PrefixRun(ds[..i], 0) + 1
            else PrefixRun(ds[..i], 0)
  {
    assert ds[..i + 1] == ds[..i] + [ds[i]];
    ValueSnoc(Base, ds[..i], ds[i]);
    ValueZero(Base, ds[..i]);
    PrefixRunSnoc(ds[..i], 0, ds[i]);
  }

  /** A byte that is not a symbol anywhere in `s` makes decoding fail. */
  lemma DecodeRejects(alphabet: seq<byte>, s: seq<byte>, i: nat)
    requires |alphabet| == Base && i < |s| && s[i] !in alphabet
    ensures Decode(alphabet, s) == Failure(InvalidCharacter)
  {
  }

  /**
   * The state of DecodeString's loop after the first `i` bytes of `s`: all
   * of them are symbols, `x` is the Horner value of their digits and `z`
   * counts the digit-0 symbols read while `x` was still zero.
   */
  ghost predicate HornerPrefix(alphabet: seq<byte>, s: seq<byte>, i: nat, x: nat, z: nat)
    requires |alphabet| == Base
  {
    && i <= |s|
    && AllIn(alphabet, s[..i])
    && x == Value(Base, DigitValues(alphabet, s[..i]))
    && z == PrefixRun(DigitValues(alphabet, s[..i]), 0)
  }

  /** One more symbol: multiply by 92, add its digit, and count it if the value is still zero. */
  lemma HornerPrefixStep(alphabet: seq<byte>, s: seq<byte>, i: nat, x: nat, z: nat)
    requires |alphabet| == Base && i < |s| && s[i] in alphabet
    requires HornerPrefix(alphabet, s, i, x, z)
    ensures var d := DecodeEntry(alphabet, s[i]) as nat;
            var x' := x * Base + d;
            HornerPrefix(alphabet, s, i + 1, x', if d == 0 && x' == 0 then z + 1 else z)
  {
    var pre, next := s[..i], s[..i + 1];
    assert next == pre + [s[i]];
    assert AllIn(alphabet, next) by {
      forall k | 0 <= k < |next| ensures next[k] in alphabet {
        if k < i { assert next[k] == pre[k]; }
      }
    }
    var ds := DigitValues(alphabet, next);
    assert ds[..i] == DigitValues(alphabet, pre) && ds[..i + 1] == ds;
    assert ds[i] == DecodeEntry(alphabet, s[i]) as nat;
    HornerStep(ds, i);
  }

  /**
   * Once every byte of a non-empty `s` is read, Decode is the Horner value
   * with the leading zeros put back, which is what each of DecodeString's
   * three return statements produces.
   */
  lemma DecodeOfDecodable(alphabet: seq<byte>, s: seq<byte>, x: nat, z: nat)
    requires |alphabet| == Base && |s| > 0
    requires HornerPrefix(alphabet, s, |s|, x, z)
    ensures Decode(alphabet, s) == Success(Repeat<byte>(0, z) + ToBytes(x))
    ensures ToBytes(x) == [] ==> Decode(alphabet, s) == Success(Repeat<byte>(0, z))
    ensures z == 0 ==> Decode(alphabet, s) == Success(ToBytes(x))
  {
    assert s[..|s|] == s;
    assert Repeat<byte>(0, z) + [] == Repeat<byte>(0, z);
    assert z == 0 ==> Repeat<byte>(0, z) + ToBytes(x) == ToBytes(x);
  }

  class Encoding {
    /** Digit to symbol. */
    const encode: array<byte>
    /** Byte to digit, or 0xFF. */
    const decodeMap: array<byte>
    /** The alphabet the tables were built from. */
    ghost const alphabet: seq<byte>

    ghost predicate Valid()
      reads this, encode, decodeMap
    {
      && |alphabet| == Base
      && encode.Length == Base
      && decodeMap.Length == 256
      && encode[..] == alphabet
      && forall c: byte :: decodeMap[c] == DecodeEntry(alphabet, c)
    }

    /** The table-building part of NewEncoding, once the length is known to be 92. */
    constructor (encoder: seq<byte>)
      requires |encoder| == Base
      ensures Valid() && alphabet == encoder
      ensures fresh(encode) && fresh(decodeMap)
    {
      alphabet := encoder;
      encode := new byte[Base](i requires 0 <= i < Base => encoder[i]);
      decodeMap := new byte[256];
      new;
      assert encode[..] == encoder;
      for i := 0 to 256
        modifies decodeMap
        invariant forall c :: 0 <= c < i ==> decodeMap[c] == Invalid
      {
        decodeMap[i] := Invalid;
      }
      for i := 0 to Base
        modifies decodeMap
        invariant forall c: byte :: decodeMap[c] == if c in encoder[..i] then LastIndex(encoder[..i], c) else Invalid
      {
        assert encoder[..i + 1] == encoder[..i] + [encoder[i]];
        decodeMap[encoder[i]] := i;
      }
      assert encoder[..Base] == encoder;
    }

    /**
     * With distinct symbols the two tables are inverse: each symbol maps
     * back to its own digit, and every other byte to 0xFF.
     */
    lemma TablesInverse()
      requires Valid() && Distinct(alphabet)
      ensures forall i :: 0 <= i < Base ==> decodeMap[encode[i]] == i
      ensures forall c: byte :: c !in alphabet ==> decodeMap[c] == Invalid
    {
      forall i | 0 <= i < Base
        ensures decodeMap[encode[i]] == i
      {
        DecodeEntryInverts(alphabet, i);
      }
    }

    /**
     * The symbols produced: the leading zero bytes are counted, the rest is
     * divided down by 92 collecting symbols least significant first, one
     * digit-0 symbol is appended per zero byte, and the buffer is reversed.
     */
    method EncodeToString(src: seq<byte>) returns (s: seq<byte>)
      requires Valid()
      ensures s == Encode(alphabet, src)
    {
      if |src| == 0 {
        return [];
      }

      var leadingZeros := 0;
      while leadingZeros < |src| && src[leadingZeros] == 0
        invariant leadingZeros <= |src|
        invariant forall k :: 0 <= k < leadingZeros ==> src[k] == 0
      {
        leadingZeros := leadingZeros + 1;
      }
      PrefixRunUnique(src, 0, leadingZeros);

      var x: nat := FromBytes(src);
      ghost var value := x;
      var encoded: seq<byte> := [];
      while x > 0
        invariant encoded + Emitted(alphabet, x) == Emitted(alphabet, value)
      {
        var mod := x % Base;
        assert encode[mod] == alphabet[mod];
        EmittedStep(alphabet, encoded, x);
        x := x / Base;
        encoded := encoded + [encode[mod]];
      }

      for i := 0 to leadingZeros
        invariant encoded == Emitted(alphabet, value) + Repeat(alphabet[0], i)
      {
        assert encode[0] == alphabet[0];
        assert Repeat(alphabet[0], i + 1) == Repeat(alphabet[0], i) + [alphabet[0]];
        encoded := encoded + [encode[0]];
      }

      var buffer := new byte[|encoded|](k requires 0 <= k < |encoded| => encoded[k]);
      assert buffer[..] == encoded;
      ReverseInPlace(buffer);
      s := buffer[..];
      EmittedWithZeros(alphabet, value, leadingZeros);
    }

    /**
     * The bytes decoded: Horner's rule over the digit values, counting the
     * digit-0 symbols read while the accumulator is still zero, and failing
     * at the first byte that is not a symbol.
     */
    method DecodeString(s: seq<byte>) returns (r: Result<seq<byte>, Error>)
      requires Valid()
      ensures r == Decode(alphabet, s)
    {
      if |s| == 0 {
        return Success([]);
      }

      var x: nat := 0;
      var leadingZeros: nat := 0;
      for i := 0 to |s|
        invariant HornerPrefix(alphabet, s, i, x, leadingZeros)
      {
        var index := decodeMap[s[i]];
        if index == Invalid {
          DecodeRejects(alphabet, s, i);
          return Failure(InvalidCharacter);
        }
        HornerPrefixStep(alphabet, s, i, x, leadingZeros);
        x := x * Base + index;
        if index == 0 && x == 0 {
          leadingZeros := leadingZeros + 1;
        }
      }
      DecodeOfDecodable(alphabet, s, x, leadingZeros);

      var decoded := ToBytes(x);
      if |decoded| == 0 && |s| > 0 {
        return Success(Repeat<byte>(0, leadingZeros));
      }
      if leadingZeros > 0 {
        decoded := Repeat<byte>(0, leadingZeros) + decoded;
      }
      return Success(decoded);
    }
  }

  /** NewEncoding: panics unless the alphabet is exactly 92 bytes long, else builds both tables. */
  method NewEncoding(encoder: seq<byte>) returns (r: Result<Encoding, Error>)
    ensures r.Failure? <==> |encoder| != Base
    ensures r.Failure? ==> r.error == AlphabetLength(|encoder|)
    ensures r.Success? ==> fresh(r.value) && r.value.Valid() && r.value.alphabet == encoder
    ensures r.Success? && Distinct(encoder) ==>
              && (forall i :: 0 <= i < Base ==> r.value.decodeMap[r.value.encode[i]] == i)
              && (forall c: byte :: c !in encoder ==> r.value.decodeMap[c] == Invalid)
  {
    if |encoder| != Base {
      return Failure(AlphabetLength(|encoder|));
    }
    var e := new Encoding(encoder);
    if Distinct(encoder) {
      e.TablesInverse();
    }
    return Success(e);
  }

  /** `DefaultEncoding`: the encoding over the default alphabet, which NewEncoding accepts. */
  method DefaultEncoding() returns (e: Encoding)
    ensures fresh(e) && e.Valid() && e.alphabet == Alphabet
  {
    AlphabetDistinct();
    var r := NewEncoding(Alphabet);
    e := r.value;
  }

  /** Over the default alphabet the single byte 0 encodes as "0". */
  lemma DefaultZeroByte()
    ensures Encode(Alphabet, [0]) == [48]
  {
    EncodeAllZero(Alphabet, 1);
    assert Repeat<byte>(0, 1) == [0];
  }

  /** Over the default alphabet, every byte sequence survives encoding and decoding. */
  lemma DefaultRoundTrip(b: seq<byte>)
    ensures Decode(Alphabet, Encode(Alphabet, b)) == Success(b)
  {
    AlphabetDistinct();
    RoundTrip(Alphabet, b);
  }
}
