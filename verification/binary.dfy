/*******************************************************************************
 *  The payload codec: coils packed LSB-first into bytes, and 16-bit registers
 *  split into big-endian byte pairs (sections 6.1-6.4 and 6.11-6.12 of the
 *  MODBUS Application Protocol Specification V1.1b3).
 *******************************************************************************/

module Binary {
  import opened Modbus

  /** Bit `k` of `b`, counting from the least significant: `(b >> k) & 1 == 1`. */
  function Bit(b: nat, k: nat): bool
  {
    if k == 0 then b % 2 == 1 else Bit(b / 2, k - 1)
  }

  function Pow2(n: nat): (r: nat)
    ensures r >= 1
  {
    if n == 0 then 1 else 2 * Pow2(n - 1)
  }

  lemma {:induction false} Pow2AtMost256(n: nat)
    requires n <= 8
    ensures Pow2(n) <= 0x100
    decreases 8 - n
  {
    if n < 8 {
      Pow2AtMost256(n + 1);
    }
  }

  lemma {:induction false} BitOfZero(k: nat)
    ensures !Bit(0, k)
  {
    if k > 0 {
      BitOfZero(k - 1);
    }
  }

  /** Two numbers below 2^n that agree on their n low bits are equal. */
  lemma {:induction false} BitsDetermineValue(a: nat, b: nat, n: nat)
    requires a < Pow2(n) && b < Pow2(n)
    requires forall k :: 0 <= k < n ==> Bit(a, k) == Bit(b, k)
    ensures a == b
  {
    if n > 0 {
      assert Bit(a, 0) == Bit(b, 0);
      forall k | 0 <= k < n - 1
        ensures Bit(a / 2, k) == Bit(b / 2, k)
      {
        assert Bit(a, k + 1) == Bit(b, k + 1);
      }
      BitsDetermineValue(a / 2, b / 2, n - 1);
    }
  }

  /** Bytes needed for `n` packed bits: the `packed_size` of the source, ceil(n / 8). */
  function PackedSize(n: nat): (m: nat)
    ensures n <= 8 * m < n + 8
  {
    n / 8 + if n % 8 > 0 then 1 else 0
  }

  function CoilOf(isSet: bool): (c: Coil)
    ensures c == On <==> isSet
  {
    if isSet then On else Off
  }

  /**
   * `coils` are the first `|coils|` bits of `bytes`, LSB-first within each
   * byte: coil `i` is On exactly when bit `i % 8` of byte `i / 8` is set.
   */
  predicate BitsOf(coils: seq<Coil>, bytes: seq<byte>)
  {
    && |bytes| >= PackedSize(|coils|)
    && forall i :: 0 <= i < |coils| ==> (coils[i] == On <==> Bit(bytes[i / 8], i % 8))
  }

  /** `words` are `bytes` read two at a time, most significant byte first. */
  predicate WordsOf(words: seq<u16>, bytes: seq<byte>)
  {
    && |bytes| == 2 * |words|
    && forall k :: 0 <= k < |words| ==> words[k] == Word(bytes[2 * k], bytes[2 * k + 1])
  }

  /** `unpack_bits`: the first `count` bits of `bytes`, LSB-first within each byte. */
  function UnpackBits(bytes: seq<byte>, count: u16): (coils: seq<Coil>)
    requires |bytes| >= PackedSize(count)
    ensures |coils| == count
    ensures BitsOf(coils, bytes)
  {
    if count == 0 then []
    else UnpackBits(bytes, count - 1) + [CoilOf(Bit(bytes[(count - 1) / 8], (count - 1) % 8))]
  }

  /** One packed byte: `cs[j]` goes to bit `j`. */
  function PackByte(cs: seq<Coil>): (b: byte)
    requires |cs| <= 8
    ensures b < Pow2(|cs|)
  {
    Pow2AtMost256(|cs|);
    if |cs| == 0 then 0
    else (if cs[0] == On then 1 else 0) + 2 * PackByte(cs[1..])
  }

  lemma {:induction false} PackByteBits(cs: seq<Coil>, k: nat)
    requires |cs| <= 8
    ensures Bit(PackByte(cs), k) <==> k < |cs| && cs[k] == On
  {
    if |cs| == 0 {
      BitOfZero(k);
    } else if k > 0 {
      assert PackByte(cs) / 2 == PackByte(cs[1..]);
      PackByteBits(cs[1..], k - 1);
    }
  }

  /** `pack_bits`: coils packed eight to a byte, LSB-first. */
  function PackBits(coils: seq<Coil>): (bytes: seq<byte>)
    ensures |bytes| == PackedSize(|coils|)
    decreases |coils|
  {
    if |coils| == 0 then []
    else if |coils| <= 8 then [PackByte(coils)]
    else [PackByte(coils[..8])] + PackBits(coils[8..])
  }

  /**
   * Bit `i % 8` of packed byte `i / 8` is set exactly when coil `i` exists and
   * is `On`; in particular the padding bits of the last byte are zero.
   */
  lemma {:induction false} PackBitsBit(coils: seq<Coil>, i: nat)
    requires i < 8 * PackedSize(|coils|)
    ensures Bit(PackBits(coils)[i / 8], i % 8) <==> i < |coils| && coils[i] == On
    decreases |coils|
  {
    if |coils| <= 8 {
      PackByteBits(coils, i);
    } else if i < 8 {
      PackByteBits(coils[..8], i);
    } else {
      PackBitsBit(coils[8..], i - 8);
      assert PackBits(coils)[i / 8] == PackBits(coils[8..])[(i - 8) / 8];
    }
  }

  /** `PackBitsBit` for every bit position of the packed bytes. */
  lemma PackBitsBits(coils: seq<Coil>)
    ensures forall i :: 0 <= i < 8 * |PackBits(coils)| ==>
      (Bit(PackBits(coils)[i / 8], i % 8) <==> i < |coils| && coils[i] == On)
  {
    forall i | 0 <= i < 8 * |PackBits(coils)|
      ensures Bit(PackBits(coils)[i / 8], i % 8) <==> i < |coils| && coils[i] == On
    {
      PackBitsBit(coils, i);
    }
  }

  /** Unpacking packed coils gives the coils back. */
  lemma UnpackPackBits(coils: seq<Coil>)
    requires |coils| < 0x1_0000
    ensures UnpackBits(PackBits(coils), |coils|) == coils
  {
    var u := UnpackBits(PackBits(coils), |coils|);
    forall i | 0 <= i < |coils|
      ensures u[i] == coils[i]
    {
      PackBitsBit(coils, i);
    }
  }

  /**
   * Packing unpacked bits gives the bytes back, provided the bytes are exactly
   * as many as `count` bits need and carry no set bit beyond `count`.
   */
  lemma PackUnpackBits(bytes: seq<byte>, count: u16)
    requires |bytes| == PackedSize(count)
    requires forall i :: count <= i < 8 * |bytes| ==> !Bit(bytes[i / 8], i % 8)
    ensures PackBits(UnpackBits(bytes, count)) == bytes
  {
    var coils := UnpackBits(bytes, count);
    var packed := PackBits(coils);
    forall j | 0 <= j < |bytes|
      ensures packed[j] == bytes[j]
    {
      forall k | 0 <= k < 8
        ensures Bit(packed[j], k) == Bit(bytes[j], k)
      {
        var i := 8 * j + k;
        assert i / 8 == j && i % 8 == k;
        PackBitsBit(coils, i);
      }
      Pow2AtMost256(8);
      BitsDetermineValue(packed[j], bytes[j], 8);
    }
  }

  /** `unpack_bytes`: each register as its high byte followed by its low byte. */
  function UnpackBytes(words: seq<u16>): (bytes: seq<byte>)
    ensures WordsOf(words, bytes)
  {
    if |words| == 0 then []
    else Be16(words[0]) + UnpackBytes(words[1..])
  }

  /** The big-endian words of an even-length byte sequence. */
  function Words(bytes: seq<byte>): (words: seq<u16>)
    requires |bytes| % 2 == 0
    ensures WordsOf(words, bytes)
  {
    if |bytes| == 0 then []
    else [Word(bytes[0], bytes[1])] + Words(bytes[2..])
  }

  /**
   * `pack_bytes`: the bytes read two at a time as big-endian registers. An odd
   * length is refused rather than truncated; on even input every two-byte
   * read is in range, so the read never fails.
   */
  function PackBytes(bytes: seq<byte>): (r: Result<seq<u16>, Error>)
    ensures r.Err? <==> |bytes| % 2 != 0
    ensures r.Err? ==> r.error == InvalidData(BytecountNotEven)
    ensures r.Ok? ==> WordsOf(r.value, bytes)
  {
    if |bytes| % 2 != 0 then Err(InvalidData(BytecountNotEven))
    else Ok(Words(bytes))
  }

  /** Registers split into bytes pack back into the same registers. */
  lemma PackUnpackBytes(words: seq<u16>)
    ensures PackBytes(UnpackBytes(words)) == Ok(words)
  {
    var r := PackBytes(UnpackBytes(words));
    assert r.Ok?;
    forall k | 0 <= k < |words|
      ensures r.value[k] == words[k]
    {
      assert UnpackBytes(words)[2 * k] == words[k] / 0x100;
    }
    assert r.value == words;
  }

  /** Bytes that pack successfully split back into the same bytes. */
  lemma UnpackPackBytes(bytes: seq<byte>)
    requires PackBytes(bytes).Ok?
    ensures UnpackBytes(PackBytes(bytes).value) == bytes
  {
    var words := PackBytes(bytes).value;
    var u := UnpackBytes(words);
    assert |u| == |bytes|;
    forall i | 0 <= i < |bytes|
      ensures u[i] == bytes[i]
    {
      var k := i / 2;
      assert i == 2 * k || i == 2 * k + 1;
      WordSplitsBack(bytes[2 * k], bytes[2 * k + 1]);
      assert words[k] == Word(bytes[2 * k], bytes[2 * k + 1]);
      assert Be16(words[k]) == [u[2 * k], u[2 * k + 1]];
    }
  }

  /** A packed byte is the value whose eight bits are the coils it covers. */
  lemma PackedByteIs(coils: seq<Coil>, j: nat, v: byte)
    requires j < PackedSize(|coils|)
    requires forall k :: 0 <= k < 8 ==> (Bit(v, k) <==> 8 * j + k < |coils| && coils[8 * j + k] == On)
    ensures PackBits(coils)[j] == v
  {
    var packed := PackBits(coils);
    forall k | 0 <= k < 8
      ensures Bit(packed[j], k) == Bit(v, k)
    {
      var i := 8 * j + k;
      assert i / 8 == j && i % 8 == k;
      PackBitsBit(coils, i);
    }
    Pow2AtMost256(8);
    BitsDetermineValue(packed[j], v, 8);
  }

  /** The bits of a byte sequence determine the coils read from them. */
  lemma BitsOfUnique(a: seq<Coil>, b: seq<Coil>, bytes: seq<byte>)
    requires |a| == |b| && BitsOf(a, bytes) && BitsOf(b, bytes)
    ensures a == b
  {
    forall i | 0 <= i < |a|
      ensures a[i] == b[i]
    {
      assert a[i] == On <==> b[i] == On;
    }
  }

  /** The examples of the unit tests of `unpack_bits`. */
  lemma UnpackBitsExamples()
    ensures UnpackBits([], 0) == []
    ensures UnpackBits([0, 0], 0) == []
    ensures UnpackBits([0x01], 1) == [On]
  {
    assert Bit(1, 0);
    BitsOfUnique(UnpackBits([0x01], 1), [On], [0x01]);
  }

  /** Bits are read least significant first: 0x01 holds a set then a clear bit, 0x02 the reverse. */
  lemma UnpackBitsLowFirst()
    ensures UnpackBits([0x01], 2) == [On, Off]
    ensures UnpackBits([0x02], 2) == [Off, On]
  {
    assert Bit(1, 0) && !Bit(1, 1);
    BitsOfUnique(UnpackBits([0x01], 2), [On, Off], [0x01]);
    assert !Bit(2, 0) && Bit(2, 1);
    BitsOfUnique(UnpackBits([0x02], 2), [Off, On], [0x02]);
  }

  /** Three bits of 0x05: set, clear, set. */
  lemma UnpackBitsAlternate()
    ensures UnpackBits([0x05], 3) == [On, Off, On]
  {
    assert Bit(5, 0) && !Bit(5, 1) && Bit(5, 2);
    BitsOfUnique(UnpackBits([0x05], 3), [On, Off, On], [0x05]);
  }

  /** Bytes whose first `count` bits are all set unpack to `count` coils that are all On. */
  lemma UnpackBitsAllSet(bytes: seq<byte>, count: u16)
    requires |bytes| >= PackedSize(count)
    requires forall i :: 0 <= i < count ==> Bit(bytes[i / 8], i % 8)
    ensures UnpackBits(bytes, count) == seq(count, _ => On)
  {
    BitsOfUnique(UnpackBits(bytes, count), seq(count, _ => On), bytes);
  }

  /** Ten set bits spanning two bytes, from the unit tests of `unpack_bits`. */
  lemma UnpackBitsSpansBytes()
    ensures UnpackBits([0xFF, 0x03], 10) == [On, On, On, On, On, On, On, On, On, On]
  {
    var bytes: seq<byte> := [0xFF, 0x03];
    forall i | 0 <= i < 10
      ensures Bit(bytes[i / 8], i % 8)
    {
      if i < 8 {
        assert bytes[i / 8] == 0xFF;
        assert Bit(0xFF, 0) && Bit(0xFF, 1) && Bit(0xFF, 2) && Bit(0xFF, 3);
        assert Bit(0xFF, 4) && Bit(0xFF, 5) && Bit(0xFF, 6) && Bit(0xFF, 7);
      } else {
        assert bytes[i / 8] == 0x03 && i % 8 == i - 8;
        assert Bit(0x03, 0) && Bit(0x03, 1);
      }
    }
    UnpackBitsAllSet(bytes, 10);
  }

  /** The single-byte examples of the unit tests of `pack_bits`. */
  lemma PackBitsExamples()
    ensures PackBits([]) == []
    ensures PackBits([On]) == [1]
    ensures PackBits([Off]) == [0]
    ensures PackBits([On, Off]) == [1]
    ensures PackBits([Off, On]) == [2]
    ensures PackBits([On, On]) == [3]
  {
  }

  /** Eight coils fill exactly one byte: all on packs to 0xFF, all off to 0. */
  lemma PackBitsEight()
    ensures PackBits([On, On, On, On, On, On, On, On]) == [0xFF]
    ensures PackBits([Off, Off, Off, Off, Off, Off, Off, Off]) == [0]
  {
    assert Bit(0xFF, 0) && Bit(0xFF, 1) && Bit(0xFF, 2) && Bit(0xFF, 3);
    assert Bit(0xFF, 4) && Bit(0xFF, 5) && Bit(0xFF, 6) && Bit(0xFF, 7);
    PackedByteIs([On, On, On, On, On, On, On, On], 0, 0xFF);
    forall k | 0 <= k < 8
      ensures !Bit(0, k)
    {
      BitOfZero(k);
    }
    PackedByteIs([Off, Off, Off, Off, Off, Off, Off, Off], 0, 0);
  }

  /** Nine coils need a second byte; all on packs to `[0xFF, 0x01]`. */
  lemma PackBitsNineOn()
    ensures PackBits([On, On, On, On, On, On, On, On, On]) == [0xFF, 0x01]
  {
    assert Bit(0xFF, 0) && Bit(0xFF, 1) && Bit(0xFF, 2) && Bit(0xFF, 3);
    assert Bit(0xFF, 4) && Bit(0xFF, 5) && Bit(0xFF, 6) && Bit(0xFF, 7);
    assert Bit(1, 0) && !Bit(1, 1) && !Bit(1, 2) && !Bit(1, 3);
    assert !Bit(1, 4) && !Bit(1, 5) && !Bit(1, 6) && !Bit(1, 7);
    var ons := [On, On, On, On, On, On, On, On, On];
    PackedByteIs(ons, 0, 0xFF);
    PackedByteIs(ons, 1, 0x01);
  }

  /** Nine coils, all off, pack to two zero bytes. */
  lemma PackBitsNineOff()
    ensures PackBits([Off, Off, Off, Off, Off, Off, Off, Off, Off]) == [0, 0]
  {
    forall k | 0 <= k < 8
      ensures !Bit(0, k)
    {
      BitOfZero(k);
    }
    var offs := [Off, Off, Off, Off, Off, Off, Off, Off, Off];
    PackedByteIs(offs, 0, 0);
    PackedByteIs(offs, 1, 0);
  }

  /** `unpack_bytes` yields the only byte sequence that reads back as `words`. */
  lemma UnpackBytesIs(words: seq<u16>, bytes: seq<byte>)
    requires WordsOf(words, bytes)
    ensures UnpackBytes(words) == bytes
  {
    var u := UnpackBytes(words);
    forall i | 0 <= i < |bytes|
      ensures u[i] == bytes[i]
    {
      var k := i / 2;
      WordSplitsBack(u[2 * k], u[2 * k + 1]);
      WordSplitsBack(bytes[2 * k], bytes[2 * k + 1]);
    }
  }

  /** `pack_bytes` of an even-length sequence yields the only words it spells. */
  lemma PackBytesIs(bytes: seq<byte>, words: seq<u16>)
    requires WordsOf(words, bytes)
    ensures PackBytes(bytes) == Ok(words)
  {
    var r := PackBytes(bytes);
    assert |bytes| % 2 == 0;
    assert r.Ok? && |r.value| == |words|;
    forall k | 0 <= k < |words|
      ensures r.value[k] == words[k]
    {
    }
    assert r.value == words;
  }

  /** The examples of the unit tests of `unpack_bytes`. */
  lemma UnpackBytesExamples()
    ensures UnpackBytes([]) == []
    ensures UnpackBytes([0]) == [0, 0]
    ensures UnpackBytes([1]) == [0, 1]
    ensures UnpackBytes([0xFFFF]) == [0xFF, 0xFF]
    ensures UnpackBytes([0xFFFF, 0x0001]) == [0xFF, 0xFF, 0x00, 0x01]
    ensures UnpackBytes([0xFFFF, 0x1001]) == [0xFF, 0xFF, 0x10, 0x01]
  {
    UnpackBytesIs([], []);
    UnpackBytesIs([0], [0, 0]);
    UnpackBytesIs([1], [0, 1]);
    UnpackBytesIs([0xFFFF], [0xFF, 0xFF]);
    UnpackBytesIs([0xFFFF, 0x0001], [0xFF, 0xFF, 0x00, 0x01]);
    UnpackBytesIs([0xFFFF, 0x1001], [0xFF, 0xFF, 0x10, 0x01]);
  }

  /** The empty, single-register and odd-length examples of the unit tests of `pack_bytes`. */
  lemma PackBytesExamples()
    ensures PackBytes([]) == Ok([])
    ensures PackBytes([1, 0]) == Ok([256])
    ensures PackBytes([1]) == Err(InvalidData(BytecountNotEven))
    ensures PackBytes([1, 2, 3]) == Err(InvalidData(BytecountNotEven))
  {
    PackBytesIs([], []);
    PackBytesIs([1, 0], [256]);
  }

  /** The two-register examples of the unit tests of `pack_bytes`. */
  lemma PackBytesPairs()
    ensures PackBytes([0, 1, 0, 2]) == Ok([1, 2])
    ensures PackBytes([1, 1, 1, 2]) == Ok([257, 258])
  {
    PackBytesIs([0, 1, 0, 2], [1, 2]);
    PackBytesIs([1, 1, 1, 2], [257, 258]);
  }
}
