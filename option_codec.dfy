/** The value codec of a CoAP option (pycolo/coap/Option.py): an option number
    and a raw byte value that callers read as an unsigned-minimal big-endian
    integer (the uint format of section 3.2 of RFC 7252, except that zero is one
    zero byte), as UTF-8 text, or as opaque bytes. */
module OptionCodec {
  import opened Wrappers
  import opened Text
  import Utf8

  type byte = Utf8.byte

  /** Java's `int`: `setIntValue` and `getIntValue` work on this range. */
  type Int32 = x: int | -0x8000_0000 <= x < 0x8000_0000

  const TWO32: nat := 0x1_0000_0000

  /** Max-Age default in seconds (section 5.10.5 of RFC 7252). */
  const DEFAULT_MAX_AGE: int := 60

  /** The option numbers this core distinguishes; their numeric codes live in
      the option registry, which is not part of this model. */
  datatype OptionNumber =
    | ContentType | MaxAge | ProxyUri | ETag | UriHost | LocationPath | UriPort
    | LocationQuery | UriPath | Observe | Token | UriQuery | Block1 | Block2
    | Other(code: int)

  /** The dynamic class of an option object: `Option` or its subclass `BlockOption`. */
  datatype Kind = Plain | Block

  /** An option: its class, its number, and its raw value (absent until set). */
  datatype CoapOption = CoapOption(kind: Kind, number: OptionNumber, value: Option<seq<byte>>)

  /** What `Option` raises: NullPointerException on an absent value,
      BufferOverflowException on an integer value longer than four bytes. */
  datatype CodecError = NoValue | TooLong

  // ------------------------------------------------------------ big-endian

  function Pow256(k: nat): (p: nat)
    ensures p >= 1
  {
    if k == 0 then 1 else 256 * Pow256(k - 1)
  }

  /** The unsigned big-endian number `s` spells. */
  function BigEndian(s: seq<byte>): nat
  {
    if s == [] then 0 else BigEndian(s[..|s| - 1]) * 256 + s[|s| - 1]
  }

  lemma {:induction false} BigEndianBound(s: seq<byte>)
    ensures BigEndian(s) < Pow256(|s|)
  {
    if s != [] {
      BigEndianBound(s[..|s| - 1]);
    }
  }

  /** Reading from the front: the first byte weighs 256^(|s|-1). */
  lemma {:induction false} BigEndianFront(s: seq<byte>)
    requires |s| >= 1
    ensures BigEndian(s) == s[0] * Pow256(|s| - 1) + BigEndian(s[1..])
  {
    var n := |s|;
    if n > 1 {
      var init := s[..n - 1];
      BigEndianFront(init);
      assert init[1..] == s[1..][..n - 2];
      calc {
        BigEndian(s);
        BigEndian(init) * 256 + s[n - 1];
        (s[0] * Pow256(n - 2) + BigEndian(init[1..])) * 256 + s[n - 1];
        s[0] * (Pow256(n - 2) * 256) + (BigEndian(s[1..][..n - 2]) * 256 + s[n - 1]);
        s[0] * Pow256(n - 1) + BigEndian(s[1..]);
      }
    } else {
      assert s[..0] == [] && s[1..] == [];
    }
  }

  lemma BigEndianLeadingZero(t: seq<byte>)
    ensures BigEndian([0] + t) == BigEndian(t)
  {
    BigEndianFront([0] + t);
    assert ([0] + t)[1..] == t;
  }

  lemma BigEndian4(w: seq<byte>)
    requires |w| == 4
    ensures BigEndian(w) == ((w[0] as int * 256 + w[1]) * 256 + w[2]) * 256 + w[3]
  {
    assert w[..3][..2][..1][..0] == [];
    assert BigEndian(w[..3][..2][..1]) == w[0];
    assert BigEndian(w[..3][..2]) == w[0] as int * 256 + w[1];
    assert BigEndian(w[..3]) == (w[0] as int * 256 + w[1]) * 256 + w[2];
  }

  lemma Digits256(u: nat)
    requires u < TWO32
    ensures u == ((u / 0x100_0000 * 256 + (u / 0x1_0000) % 256) * 256 + (u / 256) % 256) * 256 + u % 256
    ensures u / 0x100_0000 < 256
  {
    var q := u / 256;
    var q2 := u / 0x1_0000;
    assert u == q * 256 + u % 256;
    assert q / 256 == q2;
    assert q == q2 * 256 + q % 256;
    assert q2 / 256 == u / 0x100_0000;
    assert q2 == (u / 0x100_0000) * 256 + q2 % 256;
  }

  /** `ByteBuffer.putInt(v)`: the four bytes of `v`'s 32-bit two's complement, big-endian. */
  function Word(v: Int32): (w: seq<byte>)
    ensures |w| == 4 && BigEndian(w) == v % TWO32
  {
    var u := v % TWO32;
    Digits256(u);
    var w := [u / 0x100_0000, (u / 0x1_0000) % 256, (u / 256) % 256, u % 256];
    BigEndian4(w);
    w
  }

  /** The value with its leading zero bytes removed. */
  function StripZeros(s: seq<byte>): (r: seq<byte>)
    ensures |r| <= |s| && r == s[|s| - |r|..]
    ensures r == [] || r[0] != 0
    ensures BigEndian(r) == BigEndian(s)
    ensures forall k | 0 <= k < |s| - |r| :: s[k] == 0
  {
    if |s| > 0 && s[0] == 0 then
      var r := StripZeros(s[1..]);
      BigEndianLeadingZero(s[1..]);
      assert s == [0] + s[1..];
      r
    else s
  }

  // ------------------------------------------------------------ integers

  /** `setIntValue(v)`: the minimal big-endian form of `v`, except that zero is
      the single byte 0x00. */
  function EncodeInt(v: Int32): (r: seq<byte>)
    ensures 1 <= |r| <= 4
    ensures r == [0] <==> v == 0
    ensures v != 0 ==> r[0] != 0
    ensures BigEndian(r) == v % TWO32
  {
    if v == 0 then [0]
    else
      StripZeros(Word(v))
  }

  /** Reads a 32-bit pattern as a Java `int`. */
  function ToSigned(u: nat): (i: Int32)
    requires u < TWO32
    ensures i % TWO32 == u
  {
    if u >= 0x8000_0000 then u - TWO32 else u
  }

  /** `value` left-padded with zero bytes to four bytes. */
  function Pad4(s: seq<byte>): (r: seq<byte>)
    requires |s| <= 4
    ensures |r| == 4 && BigEndian(r) == BigEndian(s)
    decreases 4 - |s|
  {
    if |s| == 4 then s
    else
      BigEndianLeadingZero(s);
      Pad4([0] + s)
  }

  /** `getIntValue()`: the padded value read as a big-endian Java `int`;
      an absent value or one longer than four bytes raises. */
  function DecodeInt(value: Option<seq<byte>>): (r: Result<Int32, CodecError>)
    ensures r == Err(NoValue) <==> value.None?
    ensures r == Err(TooLong) <==> value.Some? && |value.value| > 4
    ensures r.Ok? ==> r.value % TWO32 == BigEndian(value.value)
  {
    match value
    case None => Err(NoValue)
    case Some(b) =>
      if |b| > 4 then Err(TooLong)
      else
        var padded := Pad4(b);
        BigEndianBound(padded);
        Ok(ToSigned(BigEndian(padded)))
  }

  /** Two Java `int`s with the same 32-bit pattern are equal. */
  lemma SamePattern(a: Int32, b: Int32)
    requires a % TWO32 == b % TWO32
    ensures a == b
  {
    if a < 0 { assert a % TWO32 == a + TWO32; } else { assert a % TWO32 == a; }
    if b < 0 { assert b % TWO32 == b + TWO32; } else { assert b % TWO32 == b; }
  }

  /** The integer codec round-trips for every Java `int`. */
  lemma IntRoundTrip(v: Int32)
    ensures DecodeInt(Some(EncodeInt(v))) == Ok(v)
  {
    var r := DecodeInt(Some(EncodeInt(v)));
    SamePattern(r.value, v);
  }

  lemma MulAtLeast(a: nat, p: nat)
    requires a >= 1
    ensures a * p >= p
  {
  }

  /** The encoding is minimal: a nonzero value takes exactly as many bytes as
      its 32-bit pattern needs (255 takes one, 256 takes two). */
  lemma EncodeIntMinimal(v: Int32)
    requires v != 0
    ensures Pow256(|EncodeInt(v)| - 1) <= v % TWO32 < Pow256(|EncodeInt(v)|)
  {
    var r := EncodeInt(v);
    BigEndianBound(r);
    BigEndianFront(r);
    MulAtLeast(r[0], Pow256(|r| - 1));
  }

  lemma EncodeIntExamples()
    ensures EncodeInt(0) == [0]
    ensures |EncodeInt(255)| == 1 && |EncodeInt(256)| == 2
    ensures |EncodeInt(65535)| == 2 && |EncodeInt(16777216)| == 4 && |EncodeInt(-1)| == 4
  {
    EncodeIntMinimal(255);
    EncodeIntMinimal(256);
    EncodeIntMinimal(65535);
    EncodeIntMinimal(16777216);
    EncodeIntMinimal(-1);
    assert Pow256(1) == 256 && Pow256(2) == 65536 && Pow256(3) == 16777216;
  }

  /** Stripping stops at the first nonzero byte. */
  lemma {:induction false} StripZerosAt(s: seq<byte>, k: nat)
    requires k < |s| && s[k] != 0
    requires forall j | 0 <= j < k :: s[j] == 0
    ensures StripZeros(s) == s[k..]
  {
    if k > 0 {
      StripZerosAt(s[1..], k - 1);
      assert s[1..][k - 1..] == s[k..];
    }
  }

  /** A 4-byte form with only zero bytes stands for zero. */
  lemma ZeroWord(v: Int32)
    requires forall k | 0 <= k < 4 :: Word(v)[k] == 0
    ensures v == 0
  {
    var w := Word(v);
    BigEndian4(w);
    SamePattern(v, 0);
  }

  /** The first loop of `setIntValue`: `i` counts down from 3 while the byte
      at `3 - i` is zero, and `neededBytes` with it. */
  method SkipZeroBytes(aux: seq<byte>) returns (i: int, neededBytes: int)
    requires |aux| == 4
    ensures -1 <= i <= 3 && neededBytes == i + 1
    ensures forall k | 0 <= k < 3 - i :: aux[k] == 0
    ensures i >= 0 ==> aux[3 - i] != 0
  {
    neededBytes := 4;
    i := 3;
    while i >= 0
      invariant -1 <= i <= 3 && neededBytes == i + 1
      invariant forall k | 0 <= k < 3 - i :: aux[k] == 0
    {
      if aux[3 - i] == 0 {
        neededBytes := neededBytes - 1;
      } else {
        break;
      }
      i := i - 1;
    }
  }

  /** The second loop of `setIntValue`: the bytes from `3 - i` on are put,
      in order, into a buffer of `neededBytes` bytes. */
  method CopyTail(aux: seq<byte>, i: int, neededBytes: nat) returns (value: seq<byte>)
    requires |aux| == 4 && 0 <= i <= 3 && neededBytes == i + 1
    ensures value == aux[3 - i..]
  {
    var buffer := new byte[neededBytes];
    var j, n := 0, i;
    while n >= 0
      invariant -1 <= n <= i && j == i - n
      invariant forall k | 0 <= k < j :: buffer[k] == aux[3 - i + k]
    {
      buffer[j] := aux[3 - n];
      j := j + 1;
      n := n - 1;
    }
    value := buffer[..];
    assert forall k | 0 <= k < |value| :: value[k] == aux[3 - i..][k];
  }

  /** `setIntValue`: 0 becomes the single byte 0; any other value is its
      32-bit pattern without the leading zero bytes. */
  method SetIntValue(val: Int32) returns (value: seq<byte>)
    ensures value == EncodeInt(val)
  {
    if val == 0 {
      var buffer := new byte[1];
      buffer[0] := 0;
      value := buffer[..];
      return;
    }
    var aux := Word(val);
    var i, neededBytes := SkipZeroBytes(aux);
    if i < 0 {
      ZeroWord(val);
      assert false;
    }
    StripZerosAt(aux, 3 - i);
    value := CopyTail(aux, i, neededBytes);
  }

  /** `getIntValue` with its two loops: zero padding, then the stored bytes,
      into a 4-byte buffer read as a big-endian `int`. */
  method GetIntValue(value: Option<seq<byte>>) returns (r: Result<Int32, CodecError>)
    ensures r == DecodeInt(value)
  {
    if value.None? {
      return Err(NoValue);
    }
    var bytes := value.value;
    var byteLength := |bytes|;
    var temp := new byte[4];
    var position := 0;
    var i := 0;
    while i < 4 - byteLength
      invariant 0 <= i && position == i
      invariant i <= 4 - byteLength || i == 0
      invariant forall k | 0 <= k < position :: temp[k] == 0
    {
      temp[position] := 0;
      position := position + 1;
      i := i + 1;
    }
    var pad := position;
    i := 0;
    while i < byteLength
      invariant 0 <= i <= byteLength && position == pad + i && position <= 4
      invariant forall k | 0 <= k < pad :: temp[k] == 0
      invariant temp[pad..position] == bytes[..i]
    {
      if position == 4 {
        return Err(TooLong);
      }
      temp[position] := bytes[i];
      position := position + 1;
      i := i + 1;
    }
    assert byteLength <= 4 && pad == 4 - byteLength && position == 4;
    assert bytes[..i] == bytes;
    assert temp[..][pad..] == temp[pad..position];
    ZerosThen(temp[..], pad, bytes);
    PadIsZeros(bytes);
    BigEndianBound(temp[..]);
    r := Ok(ToSigned(BigEndian(temp[..])));
  }

  /** A buffer of zeros up to `pad` and then `bytes`. */
  lemma ZerosThen(t: seq<byte>, pad: nat, bytes: seq<byte>)
    requires pad <= |t| && t[pad..] == bytes
    requires forall k | 0 <= k < pad :: t[k] == 0
    ensures t == seq(pad, _ => 0) + bytes
  {
    assert t == t[..pad] + t[pad..];
    assert t[..pad] == seq(pad, _ => 0);
  }

  lemma {:induction false} PadIsZeros(s: seq<byte>)
    requires |s| <= 4
    ensures Pad4(s) == seq(4 - |s|, _ => 0) + s
    decreases 4 - |s|
  {
    if |s| < 4 {
      PadIsZeros([0] + s);
      assert seq(4 - |s| - 1, _ => 0) + ([0] + s) == seq(4 - |s|, _ => 0) + s;
    }
  }

  // ------------------------------------------------------------ strings

  /** `getStringValue()`: the value decoded as UTF-8. An absent value raises;
      bytes that are not UTF-8 degrade to the empty string. */
  function GetStringValue(o: CoapOption): (r: Result<string, CodecError>)
    ensures r.Err? <==> o.value.None?
    ensures o.value.Some? && Utf8.Decode(o.value.value).Some? ==> r == Ok(Utf8.Decode(o.value.value).value)
  {
    match o.value
    case None => Err(NoValue)
    case Some(b) =>
      match Utf8.Decode(b)
      case None => Ok("")
      case Some(s) => Ok(s)
  }

  // ------------------------------------------------------------ constructors

  /** `Option(nr)`: a number and no value yet. */
  function ByNumber(nr: OptionNumber): (o: CoapOption)
    ensures o.number == nr && GetLength(o) == 0
    ensures GetStringValue(o) == Err(NoValue) && DecodeInt(o.value) == Err(NoValue)
  {
    CoapOption(Plain, nr, None)
  }

  /** `Option(raw, nr)`: the bytes kept as given. */
  function FromBytes(raw: seq<byte>, nr: OptionNumber): (o: CoapOption)
    ensures o.number == nr && GetLength(o) == |raw|
    ensures |raw| <= 4 ==> DecodeInt(o.value).Ok?
  {
    CoapOption(Plain, nr, Some(raw))
  }

  /** `Option(str, nr)`: the UTF-8 bytes of `str`; reading them back gives `str`. */
  function FromString(s: string, nr: OptionNumber): (o: CoapOption)
    ensures o.number == nr && o.kind == Plain
    ensures GetStringValue(o) == Ok(s)
    ensures GetLength(o) >= |s|
  {
    Utf8.DecodeEncode(s);
    CoapOption(Plain, nr, Some(Utf8.Encode(s)))
  }

  /** `Option(val, nr)`: the integer form of `val`; reading it back gives `val`. */
  function FromInt(v: Int32, nr: OptionNumber): (o: CoapOption)
    ensures o.number == nr && o.kind == Plain
    ensures DecodeInt(o.value) == Ok(v)
    ensures 1 <= GetLength(o) <= 4
  {
    IntRoundTrip(v);
    CoapOption(Plain, nr, Some(EncodeInt(v)))
  }

  /** `fromNumber(nr)`: a `BlockOption` for the two block-wise transfer numbers
      (BLOCK1 falls through to the BLOCK2 case), a plain option otherwise. */
  function FromNumber(nr: OptionNumber): (o: CoapOption)
    ensures o.number == nr && o.value.None?
    ensures o.kind == Block <==> (nr == Block1 || nr == Block2)
  {
    match nr
    case Block1 => CoapOption(Block, nr, None)
    case Block2 => CoapOption(Block, nr, None)
    case _ => ByNumber(nr)
  }

  // ------------------------------------------------------------ queries

  /** `getLength()`: the number of value bytes, 0 when there is no value. */
  function GetLength(o: CoapOption): (n: nat)
    ensures n == 0 <==> (o.value.None? || o.value.value == [])
  {
    match o.value
    case None => 0
    case Some(b) => |b|
  }

  /** `equals(obj)`: the very same object is equal; `obj == null`, another
      class or another number is unequal; otherwise both raw values are read,
      and `getRawValue` raises on an option without a value, so equality
      needs both values present and byte for byte identical. Object identity
      is the parameter `same`, which may hold only when `obj` is `a`. */
  function Equals(a: CoapOption, obj: Option<CoapOption>, same: bool): (r: Result<bool, CodecError>)
    requires same ==> obj == Some(a)
    ensures r.Err? <==> !same && obj.Some? && obj.value.kind == a.kind && obj.value.number == a.number
                        && (a.value.None? || obj.value.value.None?)
    ensures r.Err? ==> r.error == NoValue
    ensures r == Ok(true) <==> same || (obj == Some(a) && a.value.Some?)
  {
    if same then Ok(true)
    else match obj
      case None => Ok(false)
      case Some(b) =>
        if a.kind != b.kind then Ok(false)
        else if a.number != b.number then Ok(false)
        else if a.value.None? || b.value.None? then Err(NoValue)
        else Ok(a.value.value == b.value.value)
  }

  /** `isDefaultValue()`: Max-Age holding 60 seconds, or a Token of length
      zero; false for every other number. Reading Max-Age raises like
      `getIntValue`. */
  function IsDefaultValue(o: CoapOption): (r: Result<bool, CodecError>)
    ensures r.Err? ==> o.number == MaxAge && DecodeInt(o.value) == Err(r.error)
    ensures r == Ok(true) <==>
      (o.number == MaxAge && DecodeInt(o.value) == Ok(DEFAULT_MAX_AGE)) ||
      (o.number == Token && GetLength(o) == 0)
  {
    if o.number == MaxAge then
      match DecodeInt(o.value)
      case Err(e) => Err(e)
      case Ok(v) => Ok(v == DEFAULT_MAX_AGE)
    else if o.number == Token then Ok(GetLength(o) == 0)
    else Ok(false)
  }

  /** A Max-Age option built from an integer is default exactly when it is 60. */
  lemma MaxAgeDefault(v: Int32)
    ensures IsDefaultValue(FromInt(v, MaxAge)) == Ok(v == DEFAULT_MAX_AGE)
  {
  }

  // ------------------------------------------------------------ split and join

  /** One plain option numbered `nr` per string, in order. */
  function OptionsOf(segs: seq<string>, nr: OptionNumber): (r: seq<CoapOption>)
    ensures |r| == |segs|
    ensures forall i | 0 <= i < |r| :: r[i] == FromString(segs[i], nr)
  {
    seq(|segs|, i requires 0 <= i < |segs| => FromString(segs[i], nr))
  }

  lemma OptionsOfSnoc(segs: seq<string>, t: string, nr: OptionNumber)
    ensures OptionsOf(segs + [t], nr) == OptionsOf(segs, nr) + [FromString(t, nr)]
  {
    var L, R := OptionsOf(segs + [t], nr), OptionsOf(segs, nr) + [FromString(t, nr)];
    assert |L| == |R|;
    forall i | 0 <= i < |L|
      ensures L[i] == R[i]
    {
      if i < |segs| {
        assert (segs + [t])[i] == segs[i];
      }
    }
  }

  /** `split(nr, s, d)`: an option for every non-empty piece of `s` between
      delimiters, in order; no options when `s` is absent. */
  function SplitSpec(nr: OptionNumber, s: Option<string>, d: char): (r: seq<CoapOption>)
    ensures s.None? ==> r == []
    ensures forall i | 0 <= i < |r| ::
      r[i].number == nr && r[i].kind == Plain &&
      exists t :: GetStringValue(r[i]) == Ok(t) && t != "" && d !in t
  {
    match s
    case None => []
    case Some(t) =>
      var segs := NonEmpty(Split(t, d));
      assert forall i | 0 <= i < |segs| :: GetStringValue(OptionsOf(segs, nr)[i]) == Ok(segs[i]);
      NonEmptyNoDelimiter(Split(t, d), d);
      OptionsOf(segs, nr)
  }

  /** The string values of options that all have one. */
  function StringValues(opts: seq<CoapOption>): (r: seq<string>)
    requires forall i | 0 <= i < |opts| :: opts[i].value.Some?
    ensures |r| == |opts|
    ensures forall i | 0 <= i < |r| :: GetStringValue(opts[i]) == Ok(r[i])
  {
    seq(|opts|, i requires 0 <= i < |opts| => GetStringValue(opts[i]).value)
  }

  /** `join(opts, d)`: `d` followed by the string value, for every option in
      order; "" when `opts` is absent. An option without a value raises. */
  function JoinSpec(opts: Option<seq<CoapOption>>, d: char): (r: Result<string, CodecError>)
    ensures opts.None? ==> r == Ok("")
    ensures r.Err? <==> opts.Some? && exists i | 0 <= i < |opts.value| :: opts.value[i].value.None?
  {
    match opts
    case None => Ok("")
    case Some(os) =>
      if exists i | 0 <= i < |os| :: os[i].value.None? then Err(NoValue)
      else Ok(Prefixed(StringValues(os), d))
  }

  /** `split` with its loop over the pieces of `s`. */
  method SplitOptions(nr: OptionNumber, s: Option<string>, d: char) returns (options: seq<CoapOption>)
    ensures options == SplitSpec(nr, s, d)
  {
    options := [];
    if s.Some? {
      var segments := Split(s.value, d);
      for k := 0 to |segments|
        invariant options == OptionsOf(NonEmpty(segments[..k]), nr)
      {
        NonEmptySnoc(segments[..k], segments[k]);
        assert segments[..k + 1] == segments[..k] + [segments[k]];
        if segments[k] != "" {
          OptionsOfSnoc(NonEmpty(segments[..k]), segments[k], nr);
          options := options + [FromString(segments[k], nr)];
        }
      }
      assert segments[..|segments|] == segments;
    }
  }

  /** `join` with its loop appending to a builder. */
  method JoinOptions(opts: Option<seq<CoapOption>>, d: char) returns (r: Result<string, CodecError>)
    ensures r == JoinSpec(opts, d)
  {
    if opts.None? {
      return Ok("");
    }
    var os := opts.value;
    var builder := "";
    for k := 0 to |os|
      invariant forall i | 0 <= i < k :: os[i].value.Some?
      invariant builder == Prefixed(StringValues(os[..k]), d)
    {
      var value := GetStringValue(os[k]);
      if value.Err? {
        return Err(value.error);
      }
      assert StringValues(os[..k + 1]) == StringValues(os[..k]) + [value.value];
      PrefixedSnoc(StringValues(os[..k]), value.value, d);
      builder := builder + [d] + value.value;
    }
    assert os[..|os|] == os;
    r := Ok(builder);
  }

  /** `join` after `split` gives the delimited non-empty pieces of `s`: it
      restores `s` up to a leading delimiter and empty pieces. */
  lemma JoinSplit(nr: OptionNumber, s: string, d: char)
    ensures JoinSpec(Some(SplitSpec(nr, Some(s), d)), d) == Ok(Prefixed(NonEmpty(Split(s, d)), d))
  {
    var segs := NonEmpty(Split(s, d));
    var opts := SplitSpec(nr, Some(s), d);
    assert StringValues(opts) == segs;
  }

  /** The round trip: a text that starts with `d` and has no empty pieces is
      restored exactly by `join(split(...))`. */
  lemma JoinSplitRoundTrip(nr: OptionNumber, segs: seq<string>, d: char)
    requires NoDelimiter(segs, d)
    requires forall i | 0 <= i < |segs| :: segs[i] != ""
    ensures JoinSpec(Some(SplitSpec(nr, Some(Prefixed(segs, d)), d)), d) == Ok(Prefixed(segs, d))
  {
    SplitOfPrefixed(segs, d);
    NonEmptyKeepsNonEmpty(segs);
    assert NonEmpty([""] + segs) == NonEmpty(segs);
    JoinSplit(nr, Prefixed(segs, d), d);
  }

  /** The other direction: splitting the joined text gives back the options. */
  lemma SplitJoinRoundTrip(nr: OptionNumber, segs: seq<string>, d: char)
    requires NoDelimiter(segs, d)
    requires forall i | 0 <= i < |segs| :: segs[i] != ""
    ensures JoinSpec(Some(OptionsOf(segs, nr)), d) == Ok(Prefixed(segs, d))
    ensures SplitSpec(nr, Some(Prefixed(segs, d)), d) == OptionsOf(segs, nr)
  {
    var opts := OptionsOf(segs, nr);
    assert StringValues(opts) == segs;
    SplitOfPrefixed(segs, d);
    NonEmptyKeepsNonEmpty(segs);
    assert NonEmpty([""] + segs) == NonEmpty(segs);
  }

  /** "a//b" splits into exactly the options "a" and "b". */
  lemma SplitDropsEmptyPieces(nr: OptionNumber)
    ensures SplitSpec(nr, Some("a//b"), '/') == [FromString("a", nr), FromString("b", nr)]
  {
    PiecesOfDoubled();
    OptionsOfTwo(nr);
    assert SplitSpec(nr, Some("a//b"), '/') == OptionsOf(NonEmpty(Split("a//b", '/')), nr);
  }

  lemma PiecesOfDoubled()
    ensures NonEmpty(Split("a//b", '/')) == ["a", "b"]
  {
    assert Interleave(["a", "", "b"], '/') == "a//b";
    SplitInterleave(["a", "", "b"], '/');
    assert NonEmpty(["a", "", "b"]) == ["a", "b"];
  }

  lemma OptionsOfTwo(nr: OptionNumber)
    ensures OptionsOf(["a", "b"], nr) == [FromString("a", nr), FromString("b", nr)]
  {
    OptionsOfSnoc(["a"], "b", nr);
    OptionsOfSnoc([], "a", nr);
    assert [] + ["a"] == ["a"] && ["a"] + ["b"] == ["a", "b"];
  }

  // ------------------------------------------------------------ hex

  function HexDigit(k: nat): (c: char)
    requires k < 16
    ensures '0' <= c <= '9' || 'A' <= c <= 'F'
  {
    if k < 10 then ('0' as int + k) as char else ('A' as int + k - 10) as char
  }

  function HexDigitValue(c: char): (k: nat)
    ensures k < 16
  {
    if '0' <= c <= '9' then c as int - '0' as int
    else if 'A' <= c <= 'F' then c as int - 'A' as int + 10
    else 0
  }

  /** `"%02X"` of one byte. */
  function HexByte(b: byte): (s: string)
    ensures |s| == 2
    ensures forall j | 0 <= j < 2 :: '0' <= s[j] <= '9' || 'A' <= s[j] <= 'F'
  {
    [HexDigit(b / 16), HexDigit(b % 16)]
  }

  /** Two upper-case hex digits per byte, one space between bytes. */
  function HexBytes(bs: seq<byte>): (s: string)
    requires |bs| >= 1
    ensures |s| == 3 * |bs| - 1
    ensures forall k | 0 <= k < |bs| :: s[3 * k..3 * k + 2] == HexByte(bs[k])
    ensures forall k | 0 <= k < |bs| - 1 :: s[3 * k + 2] == ' '
  {
    if |bs| == 1 then HexByte(bs[0])
    else HexBytes(bs[..|bs| - 1]) + " " + HexByte(bs[|bs| - 1])
  }

  /** `hex(data)` as intended: "--" for an absent or empty value. */
  function Hex(data: Option<seq<byte>>): (s: string)
  {
    if data.None? || data.value == [] then "--" else HexBytes(data.value)
  }

  /** Reads back the bytes of a hex rendering. */
  function ParseHex(s: string): (bs: seq<byte>)
  {
    if |s| < 2 then []
    else if |s| <= 3 then [HexDigitValue(s[0]) * 16 + HexDigitValue(s[1])]
    else ParseHex(s[..|s| - 3]) + [HexDigitValue(s[|s| - 2]) * 16 + HexDigitValue(s[|s| - 1])]
  }

  lemma HexByteRoundTrip(b: byte)
    ensures HexDigitValue(HexByte(b)[0]) * 16 + HexDigitValue(HexByte(b)[1]) == b
  {
  }

  /** The rendering loses nothing: the bytes can be read back. */
  lemma {:induction false} HexRoundTrip(bs: seq<byte>)
    requires |bs| >= 1
    ensures ParseHex(HexBytes(bs)) == bs
  {
    var s := HexBytes(bs);
    var last := bs[|bs| - 1];
    HexByteRoundTrip(last);
    if |bs| > 1 {
      var init := bs[..|bs| - 1];
      assert s[..|s| - 3] == HexBytes(init);
      assert s[|s| - 2..] == HexByte(last);
      HexRoundTrip(init);
      assert init + [last] == bs;
    }
  }

  /** `hex` with the intended loop: a space after every byte but the last. */
  method HexString(data: Option<seq<byte>>) returns (s: string)
    ensures s == Hex(data)
  {
    if data.None? || |data.value| == 0 {
      return "--";
    }
    var bs := data.value;
    s := "";
    var i := 0;
    while i < |bs|
      invariant 0 <= i <= |bs|
      invariant i == 0 ==> s == ""
      invariant i > 0 ==> s == HexBytes(bs[..i]) + (if i < |bs| then " " else "")
    {
      if i > 0 {
        assert bs[..i + 1][..i] == bs[..i];
      }
      s := s + HexByte(bs[i]);
      if i < |bs| - 1 {
        s := s + " ";
      }
      i := i + 1;
    }
    assert bs[..|bs|] == bs;
  }

  /** Every byte followed by a space: what the loop of `hex` builds as
      written, since its test `i < len(data)` holds on every iteration.
      The loop's own condition `len(data)` stays true, so as written it
      ends only when `data[i]` raises `IndexError` at `i == len(data)`;
      this reading stops after the last byte and leaves that exception out. */
  function HexSpacedAll(bs: seq<byte>): (s: string)
  {
    if bs == [] then "" else HexSpacedAll(bs[..|bs| - 1]) + HexByte(bs[|bs| - 1]) + " "
  }

  function HexAsWritten(data: Option<seq<byte>>): (s: string)
  {
    if data.None? || data.value == [] then "--" else HexSpacedAll(data.value)
  }

  /** As written, the rendering of a non-empty value ends in a stray space. */
  lemma {:induction false} HexAsWrittenTrailingSpace(bs: seq<byte>)
    requires |bs| >= 1
    ensures HexAsWritten(Some(bs)) == Hex(Some(bs)) + " "
    ensures HexAsWritten(Some(bs))[|HexAsWritten(Some(bs))| - 1] == ' '
  {
    var init := bs[..|bs| - 1];
    if |bs| > 1 {
      HexAsWrittenTrailingSpace(init);
      assert HexSpacedAll(init) == HexBytes(init) + " ";
    } else {
      assert init == [];
    }
    assert HexSpacedAll(bs) == HexBytes(bs) + " ";
  }
}
