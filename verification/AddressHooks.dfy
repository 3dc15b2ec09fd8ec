/** Addresses that carry hook data behind a base address. */
module AddressHooks {
  import opened Wrappers

  type byte = x: int | 0 <= x < 256

  const ADDRESS_HOOK_VERSION := 0
  const BASE_ADDRESS_LENGTH_BYTES := 2
  const ADDRESS_HOOK_BYTE_PREFIX: seq<byte> := [0x78, 0xf1, 0x70]
  const MAX_BASE := 0x8000 + 1

  /** Bech32 (BIP-173, section "Bech32") with the conversion between 8-bit and
      5-bit groups.  Both directions are partial; what an address decodes to
      has a prefix in lower case. */
  datatype Bech32 = Bech32(
    decode: string -> Result<(string, seq<byte>), string>,
    encode: (string, seq<byte>) -> Result<string, string>
  )

  /** Encoding under a prefix that an address has, and decoding that, gives
      back what was encoded, unless one of the two fails: addresses over 1023
      characters can be encoded, but not decoded. */
  ghost predicate Lawful(codec: Bech32) {
    forall addr, bz |
      && codec.decode(addr).Success?
      && codec.encode(codec.decode(addr).value.0, bz).Success?
      && codec.decode(codec.encode(codec.decode(addr).value.0, bz).value).Success? ::
      codec.decode(codec.encode(codec.decode(addr).value.0, bz).value).value == (codec.decode(addr).value.0, bz)
  }

  function BytesOf(addr: string): (bz: seq<byte>)
    requires forall i | 0 <= i < |addr| :: (addr[i] as int) < 256
    ensures |bz| == |addr| && forall i | 0 <= i < |addr| :: bz[i] == addr[i] as int
  {
    seq(|addr|, i requires 0 <= i < |addr| => addr[i] as int % 256)
  }

  function TextOf(bz: seq<byte>): (addr: string)
    ensures |addr| == |bz| && forall i | 0 <= i < |bz| :: addr[i] as int == bz[i]
  {
    seq(|bz|, i requires 0 <= i < |bz| => bz[i] as char)
  }

  /** A codec that writes every byte as a character, and reads every text of
      such characters. */
  function PlainDecode(addr: string): Result<(string, seq<byte>), string> {
    if forall i | 0 <= i < |addr| :: (addr[i] as int) < 256 then Success(("plain", BytesOf(addr)))
    else Failure("not a byte")
  }

  function PlainEncode(prefix: string, bz: seq<byte>): Result<string, string> {
    Success(TextOf(bz))
  }

  const PLAIN_CODEC := Bech32(PlainDecode, PlainEncode)

  lemma PlainRoundTrip(prefix: string, bz: seq<byte>)
    ensures PLAIN_CODEC.encode(prefix, bz) == Success(TextOf(bz))
    ensures PLAIN_CODEC.decode(TextOf(bz)) == Success(("plain", bz))
  {
    assert PLAIN_CODEC.encode(prefix, bz) == PlainEncode(prefix, bz);
    assert PLAIN_CODEC.decode(TextOf(bz)) == PlainDecode(TextOf(bz));
    assert BytesOf(TextOf(bz)) == bz;
  }

  /** So there are lawful codecs that succeed on everything. */
  lemma PlainCodecIsLawful()
    ensures Lawful(PLAIN_CODEC)
    ensures forall prefix, bz :: PLAIN_CODEC.encode(prefix, bz) == Success(TextOf(bz))
    ensures forall bz :: PLAIN_CODEC.decode(TextOf(bz)) == Success(("plain", bz))
  {
    forall prefix, bz
      ensures PLAIN_CODEC.encode(prefix, bz) == Success(TextOf(bz))
      ensures PLAIN_CODEC.decode(TextOf(bz)) == Success(("plain", bz))
    {
      PlainRoundTrip(prefix, bz);
    }
    forall addr ensures PLAIN_CODEC.decode(addr).Success? ==> PLAIN_CODEC.decode(addr).value.0 == "plain" {
      assert PLAIN_CODEC.decode(addr) == PlainDecode(addr);
    }
  }

  /** The way the codec itself writes an address that it can read. */
  function Canonical(codec: Bech32, addr: string): Result<string, string> {
    var decoded :- codec.decode(addr);
    codec.encode(decoded.0, decoded.1)
  }

  // ------------------------------------------------------- base-256 numbers

  function BigEndian(s: seq<byte>): nat {
    if s == [] then 0 else BigEndian(s[..|s| - 1]) * 256 + s[|s| - 1]
  }

  function BigEndianBytes(n: nat, width: nat): (s: seq<byte>)
    ensures |s| == width
    decreases width
  {
    if width == 0 then [] else BigEndianBytes(n / 256, width - 1) + [n % 256]
  }

  function Pow256(width: nat): nat {
    if width == 0 then 1 else 256 * Pow256(width - 1)
  }

  lemma {:induction false} BytesThenNumber(n: nat, width: nat)
    requires n < Pow256(width)
    ensures BigEndian(BigEndianBytes(n, width)) == n
    decreases width
  {
    if width == 0 {
    } else {
      BytesThenNumber(n / 256, width - 1);
      var s := BigEndianBytes(n, width);
      assert s[..|s| - 1] == BigEndianBytes(n / 256, width - 1);
    }
  }

  lemma {:induction false} NumberThenBytes(s: seq<byte>)
    ensures BigEndian(s) < Pow256(|s|)
    ensures BigEndianBytes(BigEndian(s), |s|) == s
    decreases |s|
  {
    if s == [] {
    } else {
      NumberThenBytes(s[..|s| - 1]);
      assert s == s[..|s| - 1] + [s[|s| - 1]];
    }
  }

  lemma TwoBytes()
    ensures Pow256(2) == 0x1_0000
  {
    assert Pow256(1) == 256 * Pow256(0);
  }

  // -------------------------------------------------------- the payload

  function Payload(base: seq<byte>, hook: seq<byte>): seq<byte> {
    ADDRESS_HOOK_BYTE_PREFIX + base + hook + BigEndianBytes(|base|, BASE_ADDRESS_LENGTH_BYTES)
  }

  datatype Parsed =
    | Plain
    | Hooked(base: seq<byte>, hook: seq<byte>)
    | UnsupportedVersion(version: int)
    | TooShort
    | LengthTooLong(length: nat, payloadEnd: nat)

  function Parse(payload: seq<byte>): Parsed {
    if |payload| < 3 || payload[..2] != ADDRESS_HOOK_BYTE_PREFIX[..2] || payload[2] / 16 != 7 then Plain
    else if payload[2] % 16 != ADDRESS_HOOK_VERSION then UnsupportedVersion(payload[2] % 16)
    else ParseBody(payload[3..])
  }

  function ParseBody(bz: seq<byte>): Parsed {
    if |bz| < BASE_ADDRESS_LENGTH_BYTES then TooShort
    else
      var payloadEnd := |bz| - BASE_ADDRESS_LENGTH_BYTES;
      var b := BigEndian(bz[payloadEnd..]);
      if b > payloadEnd then LengthTooLong(b, payloadEnd) else Hooked(bz[..b], bz[b..payloadEnd])
  }

  lemma ParsesBody(base: seq<byte>, hook: seq<byte>)
    requires |base| < 0x1_0000
    ensures ParseBody(base + hook + BigEndianBytes(|base|, 2)) == Hooked(base, hook)
  {
    var length := BigEndianBytes(|base|, 2);
    var bz := base + hook + length;
    TwoBytes();
    BytesThenNumber(|base|, 2);
    assert bz[|bz| - 2..] == length;
    assert bz[..|base|] == base && bz[|base|..|bz| - 2] == hook;
  }

  lemma ParsesPayload(base: seq<byte>, hook: seq<byte>)
    requires |base| < 0x1_0000
    ensures Parse(Payload(base, hook)) == Hooked(base, hook)
  {
    var payload := Payload(base, hook);
    var bz := base + hook + BigEndianBytes(|base|, 2);
    assert payload == ADDRESS_HOOK_BYTE_PREFIX + bz;
    assert payload[..2] == ADDRESS_HOOK_BYTE_PREFIX[..2] && payload[3..] == bz;
    ParsesBody(base, hook);
  }

  lemma RebuildsPayload(payload: seq<byte>)
    requires Parse(payload).Hooked?
    ensures payload == Payload(Parse(payload).base, Parse(payload).hook)
    ensures |Parse(payload).base| < 0x1_0000
  {
    var bz := payload[3..];
    var p := Parse(payload);
    NumberThenBytes(bz[|bz| - 2..]);
    TwoBytes();
    assert bz == p.base + p.hook + BigEndianBytes(|p.base|, 2);
    assert payload[..2] == ADDRESS_HOOK_BYTE_PREFIX[..2];
    assert payload == ADDRESS_HOOK_BYTE_PREFIX + bz;
  }

  /** The parser accepts just what the printer can print, and takes it apart
      in the only way there is. */
  lemma ParseInvertsPayload(payload: seq<byte>, base: seq<byte>, hook: seq<byte>)
    ensures Parse(payload) == Hooked(base, hook) <==> payload == Payload(base, hook) && |base| < 0x1_0000
  {
    if Parse(payload) == Hooked(base, hook) {
      RebuildsPayload(payload);
    } else if |base| < 0x1_0000 {
      ParsesPayload(base, hook);
    }
  }

  // ------------------------------------------------------------ addresses

  function Join(codec: Bech32, baseAddr: string, hookData: seq<byte>): Result<string, string> {
    var decoded :- codec.decode(baseAddr);
    if |decoded.1| > MAX_BASE then Failure("base address too long")
    else codec.encode(decoded.0, Payload(decoded.1, hookData))
  }

  function Split(codec: Bech32, addr: string): Result<(string, seq<byte>), string> {
    var decoded :- codec.decode(addr);
    match Parse(decoded.1)
    case Plain => Success((addr, []))
    case Hooked(base, hook) => var baseAddress :- codec.encode(decoded.0, base); Success((baseAddress, hook))
    case UnsupportedVersion(_) => Failure("unsupported address hook version")
    case TooShort => Failure("hooked address too short")
    case LengthTooLong(_, _) => Failure("base address length is longer than payload end")
  }

  /** The bytes of a joined address: three that mark it, the base, the hook and
      the length of the base, high byte first; bases of more than 2^15 + 1
      bytes are refused. */
  lemma JoinWrites(codec: Bech32, baseAddr: string, hookData: seq<byte>)
    requires codec.decode(baseAddr).Success?
    ensures
      var (prefix, base) := codec.decode(baseAddr).value;
      if |base| <= 32769 then
        Join(codec, baseAddr, hookData) ==
        codec.encode(prefix, [0x78, 0xf1, 0x70] + base + hookData + [|base| / 256, |base| % 256])
      else Join(codec, baseAddr, hookData) == Failure("base address too long")
  {
    var base := codec.decode(baseAddr).value.1;
    var n := |base|;
    if n <= 32769 {
      assert BigEndianBytes(n / 256, 1) == BigEndianBytes(n / 256 / 256, 0) + [n / 256 % 256] == [n / 256];
      assert BigEndianBytes(n, 2) == [n / 256] + [n % 256] == [n / 256, n % 256];
    }
  }

  /** What becomes of the bytes of an address when it is split: they are hooked
      if they begin with the mark, whose last four bits are the version; the
      last two bytes are the length of the base, which comes first. */
  lemma SplitReads(codec: Bech32, addr: string)
    requires codec.decode(addr).Success?
    ensures
      var (prefix, bz) := codec.decode(addr).value;
      if |bz| < 3 || bz[0] != 0x78 || bz[1] != 0xf1 || bz[2] < 0x70 || bz[2] > 0x7f then
        Split(codec, addr) == Success((addr, []))
      else if bz[2] != 0x70 then Split(codec, addr) == Failure("unsupported address hook version")
      else if |bz| < 5 then Split(codec, addr) == Failure("hooked address too short")
      else
        var n := bz[|bz| - 2] as int * 256 + bz[|bz| - 1] as int;
        if 3 + n > |bz| - 2 then Split(codec, addr) == Failure("base address length is longer than payload end")
        else
          match codec.encode(prefix, bz[3..3 + n])
          case Success(base) => Split(codec, addr) == Success((base, bz[3 + n..|bz| - 2]))
          case Failure(error) => Split(codec, addr) == Failure(error)
  {
    var payload := codec.decode(addr).value.1;
    if |payload| >= 3 {
      assert payload[..2] == [payload[0], payload[1]];
      assert ADDRESS_HOOK_BYTE_PREFIX[..2] == [0x78, 0xf1];
      var bz := payload[3..];
      if |bz| >= 2 {
        TwoByteNumber(bz[|bz| - 2..]);
        var n := BigEndian(bz[|bz| - 2..]);
        if n <= |bz| - 2 {
          assert bz[..n] == payload[3..3 + n] && bz[n..|bz| - 2] == payload[3 + n..|payload| - 2];
        }
      }
    }
  }

  lemma TwoByteNumber(s: seq<byte>)
    requires |s| == 2
    ensures BigEndian(s) == s[0] as int * 256 + s[1] as int
  {
    assert s[..1] == [s[0]] && [s[0]][..0] == [];
    assert BigEndian([s[0]]) == BigEndian([]) * 256 + s[0];
  }

  method ExtractBaseAddress(codec: Bech32, addr: string) returns (base: Result<string, string>)
    ensures base == match Split(codec, addr) { case Success(r) => Success(r.0) case Failure(e) => Failure(e) }
  {
    var split := SplitHookedAddress(codec, addr);
    if split.Failure? {
      return Failure(split.error);
    }
    base := Success(split.value.0);
  }

  function TrimPrefix(s: seq<byte>, prefix: seq<byte>): seq<byte> {
    if prefix <= s then s[|prefix|..] else s
  }

  /** The number in the last bytes. */
  method ReadLength(bz: seq<byte>) returns (b: nat)
    requires |bz| >= BASE_ADDRESS_LENGTH_BYTES
    ensures b == BigEndian(bz[|bz| - BASE_ADDRESS_LENGTH_BYTES..])
  {
    b := 0;
    ghost var tail := bz[|bz| - BASE_ADDRESS_LENGTH_BYTES..];
    var i := BASE_ADDRESS_LENGTH_BYTES - 1;
    while i >= 0
      invariant -1 <= i < BASE_ADDRESS_LENGTH_BYTES
      invariant b == BigEndian(tail[..BASE_ADDRESS_LENGTH_BYTES - 1 - i])
    {
      var byteVal := bz[|bz| - 1 - i];
      BigEndianSnoc(tail, BASE_ADDRESS_LENGTH_BYTES - 1 - i);
      b := b * 256;
      b := b + byteVal;
      i := i - 1;
    }
    assert tail[..BASE_ADDRESS_LENGTH_BYTES] == tail;
  }

  lemma BigEndianSnoc(s: seq<byte>, n: nat)
    requires n < |s|
    ensures BigEndian(s[..n + 1]) == BigEndian(s[..n]) * 256 + s[n]
  {
    assert s[..n + 1][..n] == s[..n];
  }

  method WriteLength(n: nat) returns (baLen: array<byte>)
    ensures baLen[..] == BigEndianBytes(n, BASE_ADDRESS_LENGTH_BYTES)
  {
    baLen := new byte[BASE_ADDRESS_LENGTH_BYTES];
    var b := n;
    var i := BASE_ADDRESS_LENGTH_BYTES - 1;
    while i >= 0
      invariant -1 <= i < BASE_ADDRESS_LENGTH_BYTES && 0 <= b
      invariant BigEndianBytes(n, BASE_ADDRESS_LENGTH_BYTES) == BigEndianBytes(b, i + 1) + baLen[i + 1..]
    {
      ghost var written := baLen[i + 1..];
      baLen[i] := b % 256;
      assert baLen[i..] == [b % 256] + written;
      b := b / 256;
      i := i - 1;
    }
  }

  /** Trimming the prefix and looking at the next byte is looking at all three
      bytes. */
  lemma Trimmed(payload: seq<byte>)
    ensures
      var bz := TrimPrefix(payload, ADDRESS_HOOK_BYTE_PREFIX[..2]);
      if |bz| == |payload| || |bz| == 0 || bz[0] - bz[0] % 16 != ADDRESS_HOOK_BYTE_PREFIX[2] then
        Parse(payload) == Plain
      else
        Parse(payload) ==
        if bz[0] % 16 != ADDRESS_HOOK_VERSION then UnsupportedVersion(bz[0] % 16) else ParseBody(bz[1..])
  {
    var bz := TrimPrefix(payload, ADDRESS_HOOK_BYTE_PREFIX[..2]);
    if ADDRESS_HOOK_BYTE_PREFIX[..2] <= payload {
      assert payload[..2] == ADDRESS_HOOK_BYTE_PREFIX[..2];
      assert |bz| > 0 ==> bz[1..] == payload[3..];
    }
  }

  method SplitHookedAddress(codec: Bech32, addr: string) returns (r: Result<(string, seq<byte>), string>)
    ensures r == Split(codec, addr)
  {
    var decoded := codec.decode(addr);
    if decoded.Failure? {
      return Failure(decoded.error);
    }
    var prefix, payload := decoded.value.0, decoded.value.1;
    var bz := TrimPrefix(payload, ADDRESS_HOOK_BYTE_PREFIX[..2]);
    Trimmed(payload);
    if |bz| == |payload| || |bz| == 0 || bz[0] - bz[0] % 16 != ADDRESS_HOOK_BYTE_PREFIX[2] {
      return Success((addr, []));
    }
    var version := bz[0] % 16;
    bz := bz[1..];
    if version != ADDRESS_HOOK_VERSION {
      return Failure("unsupported address hook version");
    }
    if |bz| < BASE_ADDRESS_LENGTH_BYTES {
      return Failure("hooked address too short");
    }
    var b := ReadLength(bz);
    var payloadEnd := |bz| - BASE_ADDRESS_LENGTH_BYTES;
    if b > payloadEnd {
      return Failure("base address length is longer than payload end");
    }
    var baseAddress := codec.encode(prefix, bz[..b]);
    if baseAddress.Failure? {
      return Failure(baseAddress.error);
    }
    r := Success((baseAddress.value, bz[b..payloadEnd]));
  }

  method JoinHookedAddress(codec: Bech32, baseAddr: string, hookData: seq<byte>) returns (r: Result<string, string>)
    ensures r == Join(codec, baseAddr, hookData)
  {
    var decoded := codec.decode(baseAddr);
    if decoded.Failure? {
      return Failure(decoded.error);
    }
    var prefix, bz := decoded.value.0, decoded.value.1;
    var b := |bz|;
    if b > MAX_BASE {
      return Failure("base address too long");
    }
    var payload := ADDRESS_HOOK_BYTE_PREFIX;
    payload := payload[|payload| - 1 := payload[|payload| - 1] + ADDRESS_HOOK_VERSION];
    payload := payload + bz;
    payload := payload + hookData;
    var baLen := WriteLength(b);
    payload := payload + baLen[..];
    assert payload == Payload(bz, hookData);
    r := codec.encode(prefix, payload);
  }

  // --------------------------------------------------------- main results

  /** Splitting a joined address gives the base, in the codec's own spelling,
      and the hook, if and only if the codec can read the address and write
      the base. */
  lemma SplitUndoesJoin(codec: Bech32, baseAddr: string, hookData: seq<byte>)
    requires Lawful(codec)
    requires Join(codec, baseAddr, hookData).Success?
    ensures
      var joined := Join(codec, baseAddr, hookData).value;
      var canonical := Canonical(codec, baseAddr);
      && (Split(codec, joined).Success? <==> codec.decode(joined).Success? && canonical.Success?)
      && (Split(codec, joined).Success? ==> Split(codec, joined).value == (canonical.value, hookData))
  {
    var base := codec.decode(baseAddr).value;
    ParsesPayload(base.1, hookData);
    var joined := codec.encode(base.0, Payload(base.1, hookData)).value;
    assert codec.decode(joined).Success? ==> codec.decode(joined).value == (base.0, Payload(base.1, hookData));
  }

  /** Joining again what a hooked address was split into rebuilds its payload
      byte for byte, if and only if the base is no longer than `Join` takes;
      the parser takes bases that are longer.  A codec that reads at most 1023
      characters never decodes to one of those. */
  lemma JoinUndoesSplit(codec: Bech32, addr: string)
    requires Lawful(codec)
    requires codec.decode(addr).Success? && Parse(codec.decode(addr).value.1).Hooked?
    requires Split(codec, addr).Success? && codec.decode(Split(codec, addr).value.0).Success?
    ensures
      var split := Split(codec, addr).value;
      var again := Join(codec, split.0, split.1);
      if |codec.decode(split.0).value.1| <= MAX_BASE
      then again == Canonical(codec, addr)
      else again.Failure?
  {
    var decoded := codec.decode(addr).value;
    var p := Parse(decoded.1);
    RebuildsPayload(decoded.1);
    var baseAddr := codec.encode(decoded.0, p.base).value;
    assert codec.decode(baseAddr).value == (decoded.0, p.base);
  }

  /** Different bases or hooks have different joined addresses. */
  lemma JoinIsInjective(codec: Bech32, a: string, h: seq<byte>, b: string, g: seq<byte>)
    requires Lawful(codec)
    requires Join(codec, a, h).Success? && Join(codec, a, h) == Join(codec, b, g)
    requires codec.decode(Join(codec, a, h).value).Success?
    ensures codec.decode(a) == codec.decode(b) && h == g
  {
    var x, y := codec.decode(a).value, codec.decode(b).value;
    var joined := Join(codec, a, h).value;
    assert codec.decode(joined).value == (x.0, Payload(x.1, h));
    assert codec.decode(joined).value == (y.0, Payload(y.1, g));
    ParsesPayload(x.1, h);
    ParsesPayload(y.1, g);
  }

  /** A hook on top of a hook comes off alone: the base that is extracted
      still carries the inner one. */
  lemma HooksComeOffOneByOne(codec: Bech32, addr: string, inner: seq<byte>, outer: seq<byte>)
    requires Lawful(codec)
    requires Join(codec, addr, inner).Success?
    requires
      var once := Join(codec, addr, inner).value;
      codec.decode(once).Success? && Join(codec, once, outer).Success? &&
      codec.decode(Join(codec, once, outer).value).Success?
    ensures
      var once := Join(codec, addr, inner).value;
      Split(codec, Join(codec, once, outer).value) == Success((once, outer))
  {
    var once := Join(codec, addr, inner).value;
    SplitUndoesJoin(codec, once, outer);
    var base := codec.decode(addr).value;
    assert codec.decode(once).value == (base.0, Payload(base.1, inner));
  }

  /** What is not hooked is left as it is spelled; what looks hooked and is
      not a payload that can be printed is refused. */
  lemma SplitElsewhere(codec: Bech32, addr: string)
    requires codec.decode(addr).Success?
    ensures
      var payload := codec.decode(addr).value.1;
      var looksHooked := |payload| >= 3 && payload[0] == 0x78 && payload[1] == 0xf1 && 0x70 <= payload[2] < 0x80;
      && (!looksHooked ==> Split(codec, addr) == Success((addr, [])))
      && (looksHooked && (forall base, hook :: payload != Payload(base, hook)) ==> Split(codec, addr).Failure?)
  {
    var payload := codec.decode(addr).value.1;
    if |payload| >= 3 {
      assert payload[..2] == ADDRESS_HOOK_BYTE_PREFIX[..2] <==> payload[0] == 0x78 && payload[1] == 0xf1;
    }
    if Parse(payload).Hooked? {
      RebuildsPayload(payload);
    }
  }
}
