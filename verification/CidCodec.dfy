/** CIDs and OCI digests: hex (section 8 of RFC 4648), base32 (section 6 of RFC 4648, lower case and
    unpadded as multibase `b`), unsigned varints, multihashes, and the conversions between the two names. */
module CidCodec {
  import opened Text

  type Byte = x: int | 0 <= x < 256

  // ---------------------------------------------------------------- bits

  function Pow2(k: nat): nat {
    if k == 0 then 1 else 2 * Pow2(k - 1)
  }

  predicate AllBelow(ds: seq<nat>, bound: nat) {
    forall i :: 0 <= i < |ds| ==> ds[i] < bound
  }

  /** The k low bits of a number, highest first. */
  function Bits(v: nat, k: nat): (bits: seq<bool>)
    ensures |bits| == k
  {
    if k == 0 then [] else Bits(v / 2, k - 1) + [v % 2 == 1]
  }

  function FromBits(bits: seq<bool>): nat {
    if bits == [] then 0 else 2 * FromBits(bits[..|bits| - 1]) + (if bits[|bits| - 1] then 1 else 0)
  }

  lemma {:induction false} FromBitsOfBits(v: nat, k: nat)
    requires v < Pow2(k)
    ensures FromBits(Bits(v, k)) == v
  {
    if k > 0 {
      FromBitsOfBits(v / 2, k - 1);
      assert Bits(v, k)[..k - 1] == Bits(v / 2, k - 1);
    }
  }

  lemma {:induction false} BitsOfFromBits(bits: seq<bool>)
    ensures FromBits(bits) < Pow2(|bits|) && Bits(FromBits(bits), |bits|) == bits
    decreases |bits|
  {
    if bits != [] {
      BitsOfFromBits(bits[..|bits| - 1]);
    }
  }

  /** The bits of a sequence of k-bit digits, one after the other. */
  function Spread(ds: seq<nat>, k: nat): seq<bool>
    decreases |ds|
  {
    if ds == [] then [] else Bits(ds[0], k) + Spread(ds[1..], k)
  }

  /** The k-bit digits of a sequence of bits; fewer than k bits at the end are dropped. */
  function Gather(bits: seq<bool>, k: nat): seq<nat>
    requires k > 0
    decreases |bits|
  {
    if |bits| < k then [] else [FromBits(bits[..k])] + Gather(bits[k..], k)
  }

  /** What gathering drops from the end. */
  function Dropped(bits: seq<bool>, k: nat): seq<bool>
    requires k > 0
    decreases |bits|
  {
    if |bits| < k then bits else Dropped(bits[k..], k)
  }

  lemma GatherCons(chunk: seq<bool>, rest: seq<bool>, k: nat)
    requires k > 0 && |chunk| == k
    ensures Gather(chunk + rest, k) == [FromBits(chunk)] + Gather(rest, k)
    ensures Dropped(chunk + rest, k) == Dropped(rest, k)
  {
    var bits := chunk + rest;
    assert bits[..k] == chunk && bits[k..] == rest;
  }

  lemma SpreadCons(head: nat, rest: seq<nat>, k: nat)
    ensures Spread([head] + rest, k) == Bits(head, k) + Spread(rest, k)
  {
    assert ([head] + rest)[1..] == rest;
  }

  lemma Regroup<T>(a: seq<T>, b: seq<T>, c: seq<T>)
    ensures (a + b) + c == a + (b + c)
  {
  }

  lemma {:induction false} GatherSpread(ds: seq<nat>, k: nat, tail: seq<bool>)
    requires k > 0 && AllBelow(ds, Pow2(k)) && |tail| < k
    ensures Gather(Spread(ds, k) + tail, k) == ds
    ensures Dropped(Spread(ds, k) + tail, k) == tail
    decreases |ds|
  {
    if ds == [] {
      assert Spread(ds, k) + tail == tail;
    } else {
      var chunk, rest := Bits(ds[0], k), Spread(ds[1..], k);
      assert Spread(ds, k) + tail == chunk + (rest + tail) by { Regroup(chunk, rest, tail); }
      GatherSpread(ds[1..], k, tail);
      GatherCons(chunk, rest + tail, k);
      FromBitsOfBits(ds[0], k);
    }
  }

  lemma {:induction false} GatherBelow(bits: seq<bool>, k: nat)
    requires k > 0
    ensures AllBelow(Gather(bits, k), Pow2(k))
    decreases |bits|
  {
    if |bits| >= k {
      GatherBelow(bits[k..], k);
      BitsOfFromBits(bits[..k]);
    }
  }

  lemma {:induction false} SpreadGather(bits: seq<bool>, k: nat)
    requires k > 0
    ensures bits == Spread(Gather(bits, k), k) + Dropped(bits, k)
    ensures |Dropped(bits, k)| < k
    decreases |bits|
  {
    if |bits| >= k {
      var chunk, rest := bits[..k], bits[k..];
      assert bits == chunk + rest;
      SpreadGather(rest, k);
      GatherCons(chunk, rest, k);
      BitsOfFromBits(chunk);
      SpreadCons(FromBits(chunk), Gather(rest, k), k);
      Regroup(chunk, Spread(Gather(rest, k), k), Dropped(rest, k));
    }
  }

  // ---------------------------------------------------------------- alphabets

  /** The digits of base32, `a` to `z` then `2` to `7`, and of hex, `0` to `9` then `a` to `f`. */
  datatype Alphabet = Base32 | Hex {
    function Size(): nat {
      if Base32? then 32 else 16
    }

    function Char(d: nat): char
      requires d < Size()
    {
      if Base32? then (if d < 26 then 'a' + d as char else '2' + (d - 26) as char)
      else (if d < 10 then '0' + d as char else 'a' + (d - 10) as char)
    }

    /** The digit a character stands for, or Size() for none. */
    function Value(c: char): (d: nat)
      ensures d < Size() ==> Char(d) == c
    {
      if Base32? then
        (if 'a' <= c <= 'z' then (c - 'a') as nat else if '2' <= c <= '7' then (c - '2') as nat + 26 else 32)
      else
        (if '0' <= c <= '9' then (c - '0') as nat else if 'a' <= c <= 'f' then (c - 'a') as nat + 10 else 16)
    }

    lemma ValueOfChar(d: nat)
      requires d < Size()
      ensures Value(Char(d)) == d
    {
    }

    function Chars(ds: seq<nat>): (s: string)
      requires AllBelow(ds, Size())
      ensures |s| == |ds|
    {
      seq(|ds|, i requires 0 <= i < |ds| => Char(ds[i]))
    }

    function Digits(s: string): (ds: seq<nat>)
      ensures |ds| == |s|
    {
      seq(|s|, i requires 0 <= i < |s| => Value(s[i]))
    }

    predicate Spells(s: string) {
      AllBelow(Digits(s), Size())
    }

    lemma CharsDigits(s: string)
      requires Spells(s)
      ensures Chars(Digits(s)) == s
    {
      var ds := Digits(s);
      forall i | 0 <= i < |s| ensures Chars(ds)[i] == s[i] {
        assert ds[i] == Value(s[i]) < Size();
      }
    }

    lemma DigitsChars(ds: seq<nat>)
      requires AllBelow(ds, Size())
      ensures Digits(Chars(ds)) == ds && Spells(Chars(ds))
    {
      forall i | 0 <= i < |ds| ensures Digits(Chars(ds))[i] == ds[i] {
        ValueOfChar(ds[i]);
      }
    }
  }

  function Lower(c: char): char {
    if 'A' <= c <= 'Z' then (c as int - 'A' as int + 'a' as int) as char else c
  }

  /** Both alphabets are read in either case. */
  function Lowered(s: string): (t: string)
    ensures |t| == |s|
  {
    seq(|s|, i requires 0 <= i < |s| => Lower(s[i]))
  }

  lemma CharsAreLower(a: Alphabet, ds: seq<nat>)
    requires AllBelow(ds, a.Size())
    ensures Lowered(a.Chars(ds)) == a.Chars(ds)
  {
    assert forall d :: 0 <= d < a.Size() ==> Lower(a.Char(d)) == a.Char(d);
  }

  // ---------------------------------------------------------------- base32

  function Zeros(n: nat): (z: seq<bool>)
    ensures |z| == n
  {
    seq(n, _ => false)
  }

  function Naturals(bytes: seq<Byte>): (ds: seq<nat>)
    ensures |ds| == |bytes| && AllBelow(ds, 256)
  {
    seq(|bytes|, i requires 0 <= i < |bytes| => bytes[i])
  }

  function Bytes(ds: seq<nat>): (bytes: seq<Byte>)
    requires AllBelow(ds, 256)
    ensures Naturals(bytes) == ds
  {
    seq(|ds|, i requires 0 <= i < |ds| => ds[i])
  }

  /** Zero bits up to the next multiple of five. */
  function Pad5(bits: seq<bool>): seq<bool> {
    bits + Zeros((5 - |bits| % 5) % 5)
  }

  lemma {:induction false} SpreadLength(ds: seq<nat>, k: nat)
    requires k == 4 || k == 5 || k == 8
    ensures |Spread(ds, k)| == k * |ds|
    decreases |ds|
  {
    if ds != [] {
      SpreadLength(ds[1..], k);
    }
  }

  /** The padding that brings 8m bits to 5n is what is left over between the two. */
  lemma PaddingLength(m: nat, n: nat, unused: nat)
    requires 5 * n == 8 * m + unused && unused < 5
    ensures (5 - (8 * m) % 5) % 5 == unused
  {
  }

  lemma PaddedLength(m: nat) returns (n: nat)
    ensures 5 * n == 8 * m + (5 - (8 * m) % 5) % 5
  {
    n := (8 * m + 4) / 5;
  }

  /** Nothing is dropped from a whole number of digits. */
  lemma NothingDropped(bits: seq<bool>, k: nat, n: nat)
    requires (k == 4 && |bits| == 4 * n) || (k == 5 && |bits| == 5 * n) || (k == 8 && |bits| == 8 * n)
    ensures |Gather(bits, k)| == n
    ensures Dropped(bits, k) == [] && Spread(Gather(bits, k), k) == bits
  {
    SpreadGather(bits, k);
    SpreadLength(Gather(bits, k), k);
  }

  lemma GatherIsDigits(bits: seq<bool>, k: nat)
    requires k == 4 || k == 5 || k == 8
    ensures AllBelow(Gather(bits, k), if k == 4 then 16 else if k == 5 then 32 else 256)
  {
    GatherBelow(bits, k);
    assert Pow2(1) == 2 && Pow2(2) == 4 && Pow2(3) == 8 && Pow2(4) == 16;
    assert Pow2(5) == 32 && Pow2(6) == 64 && Pow2(7) == 128 && Pow2(8) == 256;
  }

  /** Eight-bit digits as five-bit digits, zero-padded at the end. */
  function ToFives(eights: seq<nat>): (fives: seq<nat>)
    ensures AllBelow(fives, 32)
  {
    GatherIsDigits(Pad5(Spread(eights, 8)), 5);
    Gather(Pad5(Spread(eights, 8)), 5)
  }

  /** Five-bit digits as eight-bit digits; the bits after the last whole one are ignored. */
  function ToEights(fives: seq<nat>): (eights: seq<nat>)
    ensures AllBelow(eights, 256)
  {
    GatherIsDigits(Spread(fives, 5), 8);
    Gather(Spread(fives, 5), 8)
  }

  /** The bits that ToEights ignores. */
  function Unused(fives: seq<nat>): seq<bool> {
    Dropped(Spread(fives, 5), 8)
  }

  lemma PowersOfTwo()
    ensures Pow2(4) == 16 && Pow2(5) == 32 && Pow2(8) == 256
  {
    assert Pow2(1) == 2 && Pow2(2) == 4 && Pow2(3) == 8 && Pow2(6) == 64 && Pow2(7) == 128;
  }

  lemma EightsBack(eights: seq<nat>)
    requires AllBelow(eights, 256)
    ensures ToEights(ToFives(eights)) == eights
    ensures var unused := Unused(ToFives(eights)); |unused| < 5 && unused == Zeros(|unused|)
  {
    var bits := Spread(eights, 8);
    var padding := Zeros((5 - |bits| % 5) % 5);
    PowersOfTwo();
    SpreadLength(eights, 8);
    var n := PaddedLength(|eights|);
    NothingDropped(bits + padding, 5, n);
    GatherSpread(eights, 8, padding);
  }

  lemma FivesBack(fives: seq<nat>)
    requires AllBelow(fives, 32) && |Unused(fives)| < 5 && Unused(fives) == Zeros(|Unused(fives)|)
    ensures ToFives(ToEights(fives)) == fives
  {
    var bits := Spread(fives, 5);
    var whole := Spread(ToEights(fives), 8);
    PowersOfTwo();
    SpreadLength(fives, 5);
    SpreadLength(ToEights(fives), 8);
    SpreadGather(bits, 8);
    assert bits == whole + Unused(fives);
    PaddingLength(|ToEights(fives)|, |fives|, |Unused(fives)|);
    assert Pad5(whole) == bits;
    assert bits + [] == bits;
    GatherSpread(fives, 5, []);
  }

  function EncodeBase32(bytes: seq<Byte>): string {
    Base32.Chars(ToFives(Naturals(bytes)))
  }

  /** Fails on characters outside the alphabet and on lengths that no bytes encode to; case and the
      bits after the last whole byte are ignored. */
  function DecodeBase32(s: string): Option<seq<Byte>> {
    if !Base32.Spells(Lowered(s)) || |Unused(Base32.Digits(Lowered(s)))| >= 5 then None
    else Some(Bytes(ToEights(Base32.Digits(Lowered(s)))))
  }

  /** Lower case, and the bits after the last whole byte are zero: what an encoder writes. */
  predicate Canonical(s: string) {
    var unused := Unused(Base32.Digits(s));
    Lowered(s) == s && unused == Zeros(|unused|)
  }

  /** Decoding undoes encoding, for all bytes. */
  lemma DecodeEncodeBase32(bytes: seq<Byte>)
    ensures DecodeBase32(EncodeBase32(bytes)) == Some(bytes)
    ensures Canonical(EncodeBase32(bytes))
  {
    CharsAreLower(Base32, ToFives(Naturals(bytes)));
    Base32.DigitsChars(ToFives(Naturals(bytes)));
    EightsBack(Naturals(bytes));
    assert Bytes(Naturals(bytes)) == bytes;
  }

  /** Encoding undoes decoding exactly for canonical texts. */
  lemma EncodeDecodeBase32(s: string)
    requires DecodeBase32(s).Some?
    ensures EncodeBase32(DecodeBase32(s).value) == s <==> Canonical(s)
  {
    if EncodeBase32(DecodeBase32(s).value) == s {
      DecodeEncodeBase32(DecodeBase32(s).value);
    }
    if Canonical(s) {
      FivesBack(Base32.Digits(s));
      Base32.CharsDigits(s);
    }
  }

  // ---------------------------------------------------------------- hex

  function ToFours(eights: seq<nat>): (fours: seq<nat>)
    ensures AllBelow(fours, 16)
  {
    GatherIsDigits(Spread(eights, 8), 4);
    Gather(Spread(eights, 8), 4)
  }

  function FromFours(fours: seq<nat>): (eights: seq<nat>)
    ensures AllBelow(eights, 256)
  {
    GatherIsDigits(Spread(fours, 4), 8);
    Gather(Spread(fours, 4), 8)
  }

  lemma FoursBack(eights: seq<nat>)
    requires AllBelow(eights, 256)
    ensures FromFours(ToFours(eights)) == eights && |ToFours(eights)| == 2 * |eights|
  {
    var bits := Spread(eights, 8);
    SpreadLength(eights, 8);
    NothingDropped(bits, 4, 2 * |eights|);
    assert Gather(bits, 8) == eights by {
      PowersOfTwo();
      GatherSpread(eights, 8, []);
      assert bits + [] == bits;
    }
  }

  lemma ToFoursBack(fours: seq<nat>)
    requires AllBelow(fours, 16) && |fours| % 2 == 0
    ensures ToFours(FromFours(fours)) == fours
  {
    var bits := Spread(fours, 4);
    PowersOfTwo();
    SpreadLength(fours, 4);
    NothingDropped(bits, 8, |fours| / 2);
    assert bits + [] == bits;
    GatherSpread(fours, 4, []);
  }

  function EncodeHex(bytes: seq<Byte>): string {
    Hex.Chars(ToFours(Naturals(bytes)))
  }

  function DecodeHex(s: string): Option<seq<Byte>> {
    if !Hex.Spells(Lowered(s)) || |s| % 2 != 0 then None
    else Some(Bytes(FromFours(Hex.Digits(Lowered(s)))))
  }

  lemma DecodeEncodeHex(bytes: seq<Byte>)
    ensures DecodeHex(EncodeHex(bytes)) == Some(bytes)
  {
    CharsAreLower(Hex, ToFours(Naturals(bytes)));
    Hex.DigitsChars(ToFours(Naturals(bytes)));
    FoursBack(Naturals(bytes));
    assert Bytes(Naturals(bytes)) == bytes;
  }

  /** Re-encoding what was decoded gives the lower-case text. */
  lemma EncodeDecodeHex(s: string)
    requires DecodeHex(s).Some?
    ensures EncodeHex(DecodeHex(s).value) == Lowered(s)
  {
    ToFoursBack(Hex.Digits(Lowered(s)));
    Hex.CharsDigits(Lowered(s));
  }

  // ---------------------------------------------------------------- varints and multihashes

  /** Seven bits a byte, lowest first, the high bit set on all but the last. */
  function Varint(n: nat): seq<Byte> {
    if n < 128 then [n] else [n % 128 + 128] + Varint(n / 128)
  }

  /** The number at the front and what follows it; a number not in its shortest form is refused. */
  function ReadVarint(bytes: seq<Byte>): Option<(nat, seq<Byte>)> {
    if bytes == [] then None
    else if bytes[0] < 128 then Some((bytes[0], bytes[1..]))
    else
      var more := ReadVarint(bytes[1..]);
      if more.None? || more.value.0 == 0 then None
      else Some((bytes[0] - 128 + 128 * more.value.0, more.value.1))
  }

  lemma {:induction false} ReadVarintBack(n: nat, rest: seq<Byte>)
    ensures ReadVarint(Varint(n) + rest) == Some((n, rest))
  {
    if n < 128 {
      assert ([n] + rest)[1..] == rest;
    } else {
      ReadVarintBack(n / 128, rest);
      assert (Varint(n) + rest)[1..] == Varint(n / 128) + rest;
    }
  }

  lemma {:induction false} VarintBack(bytes: seq<Byte>)
    requires ReadVarint(bytes).Some?
    ensures bytes == Varint(ReadVarint(bytes).value.0) + ReadVarint(bytes).value.1
    decreases |bytes|
  {
    if bytes[0] >= 128 {
      VarintBack(bytes[1..]);
      assert bytes == [bytes[0]] + bytes[1..];
    }
  }

  const SHA256_CODE := 0x12

  function EncodeMultihash(code: nat, digest: seq<Byte>): seq<Byte> {
    Varint(code) + Varint(|digest|) + digest
  }

  function DecodeMultihash(bytes: seq<Byte>): Option<(nat, seq<Byte>)> {
    var code := ReadVarint(bytes);
    if code.None? then None
    else
      var length := ReadVarint(code.value.1);
      if length.None? || length.value.0 != |length.value.1| then None
      else Some((code.value.0, length.value.1))
  }

  lemma DecodeMultihashBack(code: nat, digest: seq<Byte>)
    ensures DecodeMultihash(EncodeMultihash(code, digest)) == Some((code, digest))
  {
    assert EncodeMultihash(code, digest) == Varint(code) + (Varint(|digest|) + digest);
    ReadVarintBack(code, Varint(|digest|) + digest);
    ReadVarintBack(|digest|, digest);
  }

  lemma EncodeMultihashBack(bytes: seq<Byte>)
    requires DecodeMultihash(bytes).Some?
    ensures EncodeMultihash(DecodeMultihash(bytes).value.0, DecodeMultihash(bytes).value.1) == bytes
  {
    var code := ReadVarint(bytes).value;
    var length := ReadVarint(code.1).value;
    assert bytes == Varint(code.0) + code.1 by { VarintBack(bytes); }
    assert code.1 == Varint(length.0) + length.1 by { VarintBack(code.1); }
    Regroup(Varint(code.0), Varint(length.0), length.1);
  }

  // ---------------------------------------------------------------- CIDs

  datatype Cid = Cid(codec: nat, hash: seq<Byte>)

  function CidBytes(c: Cid): seq<Byte> {
    Varint(1) + Varint(c.codec) + c.hash
  }

  /** Reads version, codec and a well-formed multihash that takes up the rest. */
  function ReadCid(bytes: seq<Byte>): Option<Cid> {
    var version := ReadVarint(bytes);
    if version.None? || version.value.0 != 1 then None
    else
      var codec := ReadVarint(version.value.1);
      if codec.None? || DecodeMultihash(codec.value.1).None? then None
      else Some(Cid(codec.value.0, codec.value.1))
  }

  lemma ReadCidBack(c: Cid)
    requires DecodeMultihash(c.hash).Some?
    ensures ReadCid(CidBytes(c)) == Some(c)
  {
    assert CidBytes(c) == Varint(1) + (Varint(c.codec) + c.hash);
    ReadVarintBack(1, Varint(c.codec) + c.hash);
    ReadVarintBack(c.codec, c.hash);
  }

  lemma CidBytesBack(bytes: seq<Byte>)
    requires ReadCid(bytes).Some?
    ensures CidBytes(ReadCid(bytes).value) == bytes
  {
    var version := ReadVarint(bytes).value;
    var codec := ReadVarint(version.1).value;
    assert bytes == Varint(version.0) + version.1 by { VarintBack(bytes); }
    assert version.1 == Varint(codec.0) + codec.1 by { VarintBack(version.1); }
    Regroup(Varint(version.0), Varint(codec.0), codec.1);
  }

  /** The string form of a version 1 CID. */
  function CidString(c: Cid): string {
    "b" + EncodeBase32(CidBytes(c))
  }

  /** Reads a version 1 CID in base32. */
  function DecodeCid(s: string): Option<Cid> {
    if |s| < 2 || s[0] != 'b' || DecodeBase32(s[1..]).None? then None
    else ReadCid(DecodeBase32(s[1..]).value)
  }

  datatype Digest = Digest(algorithm: string, hex: string)

  datatype Error = UnsupportedAlgorithm | BadHex | BadCid | UnsupportedHash

  function ConvertDigestToCid(d: Digest): Result<string, Error> {
    if d.algorithm != "sha256" then Err(UnsupportedAlgorithm)
    else if DecodeHex(d.hex).None? then Err(BadHex)
    else Ok(CidString(Cid(1, EncodeMultihash(SHA256_CODE, DecodeHex(d.hex).value))))
  }

  function ConvertCidToDigest(s: string): Result<Digest, Error> {
    var cid := DecodeCid(s);
    if cid.None? then Err(BadCid)
    else
      var mh := DecodeMultihash(cid.value.hash).value;
      if mh.0 != SHA256_CODE then Err(UnsupportedHash)
      else Ok(Digest("sha256", EncodeHex(mh.1)))
  }

  lemma EmptyBase32()
    ensures DecodeBase32("") == Some([])
  {
    assert Lowered("") == "" && Base32.Digits("") == [] && ToEights([]) == [];
  }

  lemma DecodeCidString(c: Cid)
    requires DecodeMultihash(c.hash).Some?
    ensures DecodeCid(CidString(c)) == Some(c)
  {
    var text := EncodeBase32(CidBytes(c));
    assert CidString(c)[1..] == text;
    DecodeEncodeBase32(CidBytes(c));
    ReadCidBack(c);
    assert DecodeBase32("") == Some([]) by { EmptyBase32(); }
    assert CidBytes(c)[0] == 1;
  }

  /** Rewriting a CID with codec 1 gives back its text exactly when the codec is 1 and the text is
      canonical. */
  lemma RebuiltCid(s: string)
    requires DecodeCid(s).Some?
    ensures CidString(Cid(1, DecodeCid(s).value.hash)) == s <==> DecodeCid(s).value.codec == 1 && Canonical(s[1..])
  {
    var cid := DecodeCid(s).value;
    CidBytesBack(DecodeBase32(s[1..]).value);
    EncodeDecodeBase32(s[1..]);
    DecodeCidString(Cid(1, cid.hash));
    assert s == "b" + s[1..];
    if CidString(Cid(1, cid.hash)) == s {
      assert cid == Cid(1, cid.hash);
      assert s[1..] == EncodeBase32(CidBytes(cid));
    }
  }

  /** Digest to CID to digest: any sha256 digest comes back in lower case, so it comes back unchanged
      exactly when its hex is lower case. */
  lemma DigestRoundTrip(d: Digest)
    requires ConvertDigestToCid(d).Ok?
    ensures ConvertCidToDigest(ConvertDigestToCid(d).value) == Ok(Digest("sha256", Lowered(d.hex)))
    ensures ConvertCidToDigest(ConvertDigestToCid(d).value) == Ok(d) <==> Lowered(d.hex) == d.hex
  {
    var bytes := DecodeHex(d.hex).value;
    DecodeMultihashBack(SHA256_CODE, bytes);
    DecodeCidString(Cid(1, EncodeMultihash(SHA256_CODE, bytes)));
    EncodeDecodeHex(d.hex);
  }

  /** CID to digest to CID: the identity exactly on canonical codec-1 CIDs. */
  lemma CidRoundTrip(s: string)
    requires ConvertCidToDigest(s).Ok?
    ensures ConvertDigestToCid(ConvertCidToDigest(s).value) == Ok(s) <==>
            DecodeCid(s).value.codec == 1 && Canonical(s[1..])
  {
    var cid := DecodeCid(s).value;
    EncodeMultihashBack(cid.hash);
    DecodeEncodeHex(DecodeMultihash(cid.hash).value.1);
    RebuiltCid(s);
  }

  /** What a provider announcement names: the CID rebuilt, with codec 1, from the announced multihash. */
  function AnnouncedCid(key: seq<Byte>): Option<string> {
    if DecodeMultihash(key).None? then None else Some(CidString(Cid(1, key)))
  }

  /** Announcing the hash of a record's CID names that same CID at the receiver. */
  lemma AnnouncedCidBack(s: string)
    requires DecodeCid(s).Some?
    ensures AnnouncedCid(DecodeCid(s).value.hash) == Some(s) <==> DecodeCid(s).value.codec == 1 && Canonical(s[1..])
  {
    RebuiltCid(s);
  }

  /** In particular every CID made from a digest is announced under its own name. */
  lemma DigestCidsAreCanonical(d: Digest)
    requires ConvertDigestToCid(d).Ok?
    ensures var s := ConvertDigestToCid(d).value;
            DecodeCid(s).Some? && AnnouncedCid(DecodeCid(s).value.hash) == Some(s)
  {
    var hash := EncodeMultihash(SHA256_CODE, DecodeHex(d.hex).value);
    DecodeMultihashBack(SHA256_CODE, DecodeHex(d.hex).value);
    DecodeCidString(Cid(1, hash));
  }

  // ---------------------------------------------------------------- the texts, position by position

  function Halved(v: nat, n: nat): nat {
    if n == 0 then v else Halved(v / 2, n - 1)
  }

  /** The i-th of the k low bits of a number. */
  lemma {:induction false} BitsAt(v: nat, k: nat, i: nat)
    requires i < k
    ensures Bits(v, k)[i] <==> Halved(v, k - 1 - i) % 2 == 1
    decreases k
  {
    if i < k - 1 {
      BitsAt(v / 2, k - 1, i);
    }
  }

  lemma HalvedFew(v: nat)
    ensures Halved(v, 1) == v / 2 && Halved(v, 2) == v / 4 && Halved(v, 3) == v / 8
  {
    assert Halved(v / 2, 1) == Halved(v / 2 / 2, 0);
    assert Halved(v / 2, 2) == Halved(v / 2 / 2, 1) == Halved(v / 2 / 2 / 2, 0);
  }

  lemma {:induction false} HalvedSum(v: nat, m: nat, n: nat)
    ensures Halved(v, m + n) == Halved(Halved(v, m), n)
    decreases m
  {
    if m > 0 {
      HalvedSum(v / 2, m - 1, n);
    }
  }

  lemma HalvedMore(v: nat)
    ensures Halved(v, 4) == v / 16 && Halved(v, 5) == v / 32
  {
    HalvedFew(v);
    HalvedSum(v, 3, 1);
    HalvedSum(v, 3, 2);
    HalvedFew(v / 8);
    assert v / 8 / 2 == v / 16 && v / 8 / 4 == v / 32;
  }

  lemma HalvedMost(v: nat)
    ensures Halved(v, 6) == v / 64 && Halved(v, 7) == v / 128
  {
    HalvedMore(v);
    HalvedSum(v, 5, 1);
    HalvedSum(v, 5, 2);
    HalvedFew(v / 32);
    assert v / 32 / 2 == v / 64 && v / 32 / 4 == v / 128;
  }

  lemma HalvedPowers(v: nat, n: nat)
    requires n < 8
    ensures Halved(v, n) == v / [1, 2, 4, 8, 16, 32, 64, 128][n]
  {
    HalvedFew(v);
    HalvedMore(v);
    HalvedMost(v);
  }

  /** The j-th bit of a text of bytes, counted from the highest bit of the first; zero after the end. */
  function BitAt(bytes: seq<Byte>, j: nat): nat {
    if j >= 8 * |bytes| then 0
    else bytes[j / 8] / [128, 64, 32, 16, 8, 4, 2, 1][j % 8] % 2
  }

  lemma {:induction false} SpreadAt(ds: seq<nat>, j: nat)
    requires j < 8 * |ds|
    ensures |Spread(ds, 8)| == 8 * |ds| && Spread(ds, 8)[j] == Bits(ds[j / 8], 8)[j % 8]
    decreases |ds|
  {
    SpreadLength(ds, 8);
    if j >= 8 {
      SpreadAt(ds[1..], j - 8);
      assert (j - 8) / 8 == j / 8 - 1 && (j - 8) % 8 == j % 8;
    }
  }

  lemma BitOfByte(v: nat, i: nat)
    requires i < 8
    ensures Bits(v, 8)[i] <==> v / [128, 64, 32, 16, 8, 4, 2, 1][i] % 2 == 1
  {
    BitsAt(v, 8, i);
    HalvedPowers(v, 7 - i);
  }

  lemma ByteBit(bytes: seq<Byte>, j: nat)
    requires j < 8 * |bytes|
    ensures |Spread(Naturals(bytes), 8)| == 8 * |bytes|
    ensures Spread(Naturals(bytes), 8)[j] <==> BitAt(bytes, j) == 1
  {
    SpreadAt(Naturals(bytes), j);
    BitOfByte(bytes[j / 8], j % 8);
  }

  lemma {:induction false} GatherAt(bits: seq<bool>, i: nat)
    requires 5 * i + 5 <= |bits|
    ensures i < |Gather(bits, 5)| && Gather(bits, 5)[i] == FromBits(bits[5 * i..5 * i + 5])
    decreases |bits|
  {
    if i > 0 {
      GatherAt(bits[5..], i - 1);
      assert bits[5..][5 * (i - 1)..5 * (i - 1) + 5] == bits[5 * i..5 * i + 5];
    }
  }

  function Bit(b: bool): nat {
    if b then 1 else 0
  }

  lemma FiveBits(bits: seq<bool>)
    requires |bits| == 5
    ensures FromBits(bits) == 16 * Bit(bits[0]) + 8 * Bit(bits[1]) + 4 * Bit(bits[2]) + 2 * Bit(bits[3]) + Bit(bits[4])
  {
    assert FromBits(bits[..0]) == 0;
    assert bits[..1][..0] == bits[..0] && FromBits(bits[..1]) == Bit(bits[0]);
    assert bits[..2][..1] == bits[..1] && FromBits(bits[..2]) == 2 * FromBits(bits[..1]) + Bit(bits[1]);
    assert bits[..3][..2] == bits[..2] && FromBits(bits[..3]) == 2 * FromBits(bits[..2]) + Bit(bits[2]);
    assert bits[..4][..3] == bits[..3] && FromBits(bits[..4]) == 2 * FromBits(bits[..3]) + Bit(bits[3]);
  }

  /** The value of the five bits that the i-th character stands for. */
  function FiveAt(bytes: seq<Byte>, i: nat): nat {
    16 * BitAt(bytes, 5 * i) + 8 * BitAt(bytes, 5 * i + 1) + 4 * BitAt(bytes, 5 * i + 2)
    + 2 * BitAt(bytes, 5 * i + 3) + BitAt(bytes, 5 * i + 4)
  }

  lemma PaddedBit(bytes: seq<Byte>, j: nat)
    requires j < |Pad5(Spread(Naturals(bytes), 8))|
    ensures Bit(Pad5(Spread(Naturals(bytes), 8))[j]) == BitAt(bytes, j)
  {
    SpreadLength(Naturals(bytes), 8);
    if j < 8 * |bytes| {
      ByteBit(bytes, j);
    }
  }

  lemma AlphabetTexts(d: nat)
    ensures d < 32 ==> Base32.Char(d) == "abcdefghijklmnopqrstuvwxyz234567"[d]
    ensures d < 16 ==> Hex.Char(d) == "0123456789abcdef"[d]
  {
  }

  lemma FiveOfPadded(bytes: seq<Byte>, bits: seq<bool>, i: nat)
    requires bits == Pad5(Spread(Naturals(bytes), 8)) && 5 * i + 5 <= |bits|
    ensures FromBits(bits[5 * i..5 * i + 5]) == FiveAt(bytes, i)
  {
    var five := bits[5 * i..5 * i + 5];
    FiveBits(five);
    forall k | 0 <= k < 5 ensures Bit(five[k]) == BitAt(bytes, 5 * i + k) {
      PaddedBit(bytes, 5 * i + k);
    }
  }

  lemma RoomForFive(m: nat, n: nat, i: nat)
    requires 5 * i < 8 * m <= 5 * n
    ensures 5 * i + 5 <= 5 * n
  {
  }

  lemma FivesAt(bytes: seq<Byte>, i: nat)
    requires 5 * i < 8 * |bytes|
    ensures var fives := ToFives(Naturals(bytes)); i < |fives| && fives[i] == FiveAt(bytes, i)
  {
    var bits := Pad5(Spread(Naturals(bytes), 8));
    assert 5 * i + 5 <= |bits| by {
      SpreadLength(Naturals(bytes), 8);
      var n := PaddedLength(|bytes|);
      RoomForFive(|bytes|, n, i);
    }
    GatherAt(bits, i);
    FiveOfPadded(bytes, bits, i);
  }

  /** Base32 text: one character for every five bits begun, the i-th the letter of bits 5i to 5i + 4. */
  lemma Base32Text(bytes: seq<Byte>)
    ensures |EncodeBase32(bytes)| == (8 * |bytes| + 4) / 5
    ensures forall i :: 0 <= i < |EncodeBase32(bytes)| ==>
              FiveAt(bytes, i) < 32 && EncodeBase32(bytes)[i] == "abcdefghijklmnopqrstuvwxyz234567"[FiveAt(bytes, i)]
  {
    SpreadLength(Naturals(bytes), 8);
    var n := PaddedLength(|bytes|);
    NothingDropped(Pad5(Spread(Naturals(bytes), 8)), 5, n);
    forall i | 0 <= i < |EncodeBase32(bytes)|
      ensures FiveAt(bytes, i) < 32 && EncodeBase32(bytes)[i] == "abcdefghijklmnopqrstuvwxyz234567"[FiveAt(bytes, i)]
    {
      FivesAt(bytes, i);
      AlphabetTexts(FiveAt(bytes, i));
    }
  }

  lemma BitOfNibble(v: nat, i: nat)
    requires i < 4
    ensures Bits(v, 4)[i] <==> v / [8, 4, 2, 1][i] % 2 == 1
  {
    BitsAt(v, 4, i);
    HalvedPowers(v, 3 - i);
  }

  lemma HighNibble(b: nat, i: nat)
    requires b < 256 && i < 4
    ensures b / [128, 64, 32, 16, 8, 4, 2, 1][i] == b / 16 / [8, 4, 2, 1][i]
  {
    if i == 0 {} else if i == 1 {} else if i == 2 {} else {}
  }

  lemma LowNibble(b: nat, i: nat)
    requires b < 256 && i < 4
    ensures b / [128, 64, 32, 16, 8, 4, 2, 1][i + 4] % 2 == b % 16 / [8, 4, 2, 1][i] % 2
  {
    var h, l := b / 16, b % 16;
    if i == 0 {
      assert b / 8 == 2 * h + l / 8;
    } else if i == 1 {
      assert b / 4 == 2 * (2 * h) + l / 4;
    } else if i == 2 {
      assert b / 2 == 2 * (4 * h) + l / 2;
    } else {
      assert b == 2 * (8 * h) + l;
    }
  }

  lemma NibbleBit(b: nat, i: nat)
    requires b < 256 && i < 8
    ensures Bits(b, 8)[i] == (if i < 4 then Bits(b / 16, 4)[i] else Bits(b % 16, 4)[i - 4])
  {
    BitOfByte(b, i);
    if i < 4 {
      BitOfNibble(b / 16, i);
      HighNibble(b, i);
    } else {
      BitOfNibble(b % 16, i - 4);
      LowNibble(b, i - 4);
    }
  }

  lemma HexPair(b: nat, rest: seq<bool>)
    requires b < 256
    ensures Gather(Bits(b, 8) + rest, 4) == [b / 16, b % 16] + Gather(rest, 4)
  {
    var high, low := Bits(b / 16, 4), Bits(b % 16, 4);
    assert Bits(b, 8) == high + low by {
      forall i | 0 <= i < 8 ensures Bits(b, 8)[i] == (high + low)[i] {
        NibbleBit(b, i);
      }
    }
    Regroup(high, low, rest);
    PowersOfTwo();
    FromBitsOfBits(b / 16, 4);
    FromBitsOfBits(b % 16, 4);
    GatherCons(high, low + rest, 4);
    GatherCons(low, rest, 4);
  }

  lemma {:induction false} FoursAt(ds: seq<nat>, i: nat)
    requires AllBelow(ds, 256) && i < |ds|
    ensures var fours := Gather(Spread(ds, 8), 4);
            |fours| >= 2 * i + 2 && fours[2 * i] == ds[i] / 16 && fours[2 * i + 1] == ds[i] % 16
    decreases |ds|
  {
    HexPair(ds[0], Spread(ds[1..], 8));
    if i > 0 {
      FoursAt(ds[1..], i - 1);
    }
  }

  /** Hex text: two digits for every byte, the high one first. */
  lemma HexText(bytes: seq<Byte>)
    ensures |EncodeHex(bytes)| == 2 * |bytes|
    ensures forall i :: 0 <= i < |bytes| ==>
              && EncodeHex(bytes)[2 * i] == "0123456789abcdef"[bytes[i] / 16]
              && EncodeHex(bytes)[2 * i + 1] == "0123456789abcdef"[bytes[i] % 16]
  {
    FoursBack(Naturals(bytes));
    forall i | 0 <= i < |bytes|
      ensures EncodeHex(bytes)[2 * i] == "0123456789abcdef"[bytes[i] / 16]
      ensures EncodeHex(bytes)[2 * i + 1] == "0123456789abcdef"[bytes[i] % 16]
    {
      FoursAt(Naturals(bytes), i);
      AlphabetTexts(bytes[i] / 16);
      AlphabetTexts(bytes[i] % 16);
    }
  }

  /** Seven bits a byte, lowest first. */
  lemma VarintText(n: nat)
    ensures n < 128 ==> Varint(n) == [n]
    ensures 128 <= n < 16384 ==> Varint(n) == [n % 128 + 128, n / 128]
  {
    assert n < 16384 ==> n / 128 < 128;
  }

  /** The CID of a sha256 digest, byte by byte: version 1, codec 1, hash function 0x12, length, digest. */
  lemma DigestCidText(d: Digest)
    requires d.algorithm == "sha256" && DecodeHex(d.hex).Some? && |DecodeHex(d.hex).value| < 128
    ensures var b := DecodeHex(d.hex).value;
            var text := "b" + EncodeBase32([0x01, 0x01, 0x12, |b|] + b);
            ConvertDigestToCid(d) == Ok(text) && ConvertCidToDigest(text) == Ok(Digest("sha256", EncodeHex(b)))
  {
    var b := DecodeHex(d.hex).value;
    VarintText(1);
    VarintText(0x12);
    VarintText(|b|);
    assert CidBytes(Cid(1, EncodeMultihash(SHA256_CODE, b))) == [0x01, 0x01, 0x12, |b|] + b;
    DigestRoundTrip(d);
    EncodeDecodeHex(d.hex);
  }

  /** And the other way: any other hash function, and any digest that is not sha256, is refused. */
  lemma OtherHashesRefused(s: string, d: Digest)
    ensures ConvertCidToDigest(s).Ok? <==>
            DecodeCid(s).Some? && DecodeMultihash(DecodeCid(s).value.hash).value.0 == 0x12
    ensures ConvertDigestToCid(d).Ok? <==> d.algorithm == "sha256" && DecodeHex(d.hex).Some?
  {
  }
}
