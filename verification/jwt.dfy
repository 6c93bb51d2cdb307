/**
 * The Zoom bot's token generator: base64url without padding (section 5
 * of RFC 4648, padding dropped as in Appendix C of RFC 7515) and the JWS
 * compact serialisation (section 7.1 of RFC 7515) of a fixed HS256 header
 * and the Zoom SDK payload. HMAC-SHA256 and the clock are parameters.
 */
module Jwt {
  import opened Wrappers
  import opened MachineInts
  import opened Text
  import opened Arith

  // ---------------------------------------------------------------------
  // The alphabet
  // ---------------------------------------------------------------------

  /** Character `i` of the standard base64 alphabet (section 4 of RFC 4648). */
  function StandardChar(i: nat): char
    requires i < 64
  {
    if i < 26 then ('A' as int + i) as char
    else if i < 52 then ('a' as int + (i - 26)) as char
    else if i < 62 then ('0' as int + (i - 52)) as char
    else if i == 62 then '+'
    else '/'
  }

  /** The table the encoder indexes: `A-Z`, `a-z`, `0-9`, then `+` and `/`. */
  function StandardTable(): (t: string)
    ensures |t| == 64
  {
    seq(64, i requires 0 <= i < 64 => StandardChar(i))
  }

  const PadChar: char := '='

  /** Character `i` of the URL-safe alphabet (section 5 of RFC 4648). */
  function UrlChar(i: nat): (c: char)
    requires i < 64
    ensures UrlIndex(c) == Some(i)
  {
    if i < 62 then StandardChar(i)
    else if i == 62 then '-'
    else '_'
  }

  /** The position of `c` in the URL-safe alphabet, if it is one of its letters. */
  function UrlIndex(c: char): (i: Option<nat>)
    ensures i.Some? ==> i.value < 64
  {
    if 'A' <= c <= 'Z' then Some(c as int - 'A' as int)
    else if 'a' <= c <= 'z' then Some(c as int - 'a' as int + 26)
    else if '0' <= c <= '9' then Some(c as int - '0' as int + 52)
    else if c == '-' then Some(62)
    else if c == '_' then Some(63)
    else None
  }

  predicate IsUrlChar(c: char) {
    UrlIndex(c).Some?
  }

  lemma UrlIndexInverse(c: char)
    requires IsUrlChar(c)
    ensures UrlChar(UrlIndex(c).value) == c
  {
  }

  /** The replacement the encoder's second pass makes. */
  function UrlSafeChar(c: char): char {
    if c == '+' then '-' else if c == '/' then '_' else c
  }

  /** After the replacement the standard table is the URL-safe alphabet. */
  lemma TableIsUrlAlphabet(i: nat)
    requires i < 64
    ensures UrlSafeChar(StandardTable()[i]) == UrlChar(i)
  {
  }

  // ---------------------------------------------------------------------
  // The encoding by its definition
  // ---------------------------------------------------------------------

  predicate Sextets(ix: seq<nat>) {
    forall k :: 0 <= k < |ix| ==> ix[k] < 64
  }

  /** A group of one to three bytes made up to three with zero bytes. */
  function ZeroFilled(g: seq<byte>): (full: seq<byte>)
    requires 1 <= |g| <= 3
    ensures |full| == 3 && full[..|g|] == g
    ensures forall k :: |g| <= k < 3 ==> full[k] == 0
  {
    g + seq(3 - |g|, _ => 0)
  }

  /** The four 6-bit indices of three bytes, most significant first. */
  function FullSextets(f: seq<byte>): (ix: seq<nat>)
    requires |f| == 3
    ensures |ix| == 4 && Sextets(ix)
  {
    var b0, b1, b2 := f[0] as nat, f[1] as nat, f[2] as nat;
    [b0 / 4, (b0 % 4) * 16 + b1 / 16, (b1 % 16) * 4 + b2 / 64, b2 % 64]
  }

  /**
   * The indices of a group of one to three bytes, missing bytes as zero
   * bits: four for a full group, two or three for a final partial one.
   */
  function GroupSextets(g: seq<byte>): (ix: seq<nat>)
    requires 1 <= |g| <= 3
    ensures |ix| == |g| + 1 && Sextets(ix)
  {
    FullSextets(ZeroFilled(g))[..|g| + 1]
  }

  /** The URL-safe letters of some indices. */
  function Letters(ix: seq<nat>): (s: string)
    requires Sextets(ix)
    ensures |s| == |ix|
    ensures forall k :: 0 <= k < |s| ==> s[k] == UrlChar(ix[k]) && IsUrlChar(s[k])
  {
    seq(|ix|, k requires 0 <= k < |ix| => UrlChar(ix[k]))
  }

  /** The length of the unpadded encoding of `len` bytes. */
  function UnpaddedLength(len: nat): nat {
    if len == 0 then 0 else if len <= 3 then len + 1 else 4 + UnpaddedLength(len - 3)
  }

  /** Padded, every group takes four characters; unpadded, a final partial one takes two or three. */
  lemma {:induction false} LengthFormulas(len: nat)
    ensures UnpaddedLength(len) + Padding(len) == 4 * ((len + 2) / 3)
    ensures UnpaddedLength(len) == 4 * (len / 3) + (if len % 3 == 0 then 0 else if len % 3 == 1 then 2 else 3)
    decreases len
  {
    if len > 3 {
      LengthFormulas(len - 3);
    }
  }

  /**
   * Unpadded base64url by section 5 of RFC 4648 with the padding dropped
   * as in Appendix C of RFC 7515: four letters per three bytes, two or
   * three for a final one or two.
   */
  function UrlEncode(data: seq<byte>): (s: string)
    ensures |s| == UnpaddedLength(|data|)
    ensures forall i :: 0 <= i < |s| ==> IsUrlChar(s[i])
    decreases |data|
  {
    if |data| == 0 then ""
    else if |data| <= 3 then Letters(GroupSextets(data))
    else Letters(GroupSextets(data[..3])) + UrlEncode(data[3..])
  }

  lemma {:induction false} UrlEncodeCompositional(a: seq<byte>, b: seq<byte>)
    requires |a| % 3 == 0
    ensures UrlEncode(a + b) == UrlEncode(a) + UrlEncode(b)
    decreases |a|
  {
    if |a| == 0 {
      assert a + b == b;
    } else {
      var rest := a[3..];
      assert |rest| % 3 == 0;
      assert (a + b)[..3] == a[..3] && (a + b)[3..] == rest + b;
      UrlEncodeCompositional(rest, b);
      EncodeFirstGroup(a + b);
      if |rest| > 0 {
        EncodeFirstGroup(a);
      }
    }
  }

  lemma EncodeFirstGroup(data: seq<byte>)
    requires |data| >= 3
    ensures UrlEncode(data) == Letters(GroupSextets(data[..3])) + UrlEncode(data[3..])
  {
    if |data| == 3 {
      assert data[..3] == data;
    }
  }

  // ---------------------------------------------------------------------
  // The encoder as written: padded standard base64, then two passes
  // ---------------------------------------------------------------------

  /** The 24-bit group value of up to three bytes, missing ones as zero. */
  function GroupValue(g: seq<byte>): (n: nat)
    requires 1 <= |g| <= 3
    ensures n < 0x100_0000
  {
    var b0 := g[0] as nat;
    var b1 := if |g| > 1 then g[1] as nat else 0;
    var b2 := if |g| > 2 then g[2] as nat else 0;
    b0 * 0x1_0000 + b1 * 0x100 + b2
  }

  /** The four characters of one group, `=` for positions past the input. */
  function StandardGroup(g: seq<byte>): (s: string)
    requires 1 <= |g| <= 3
    ensures |s| == 4
  {
    var n := GroupValue(g);
    [ StandardTable()[(n / 0x4_0000) % 64],
      StandardTable()[(n / 0x1000) % 64],
      if |g| > 1 then StandardTable()[(n / 64) % 64] else PadChar,
      if |g| > 2 then StandardTable()[n % 64] else PadChar ]
  }

  /** The first loop: padded standard base64. */
  function StandardEncode(data: seq<byte>): (s: string)
    ensures |s| == UnpaddedLength(|data|) + Padding(|data|)
    decreases |data|
  {
    if |data| == 0 then ""
    else if |data| <= 3 then StandardGroup(data)
    else StandardGroup(data[..3]) + StandardEncode(data[3..])
  }

  /** The second loop: `+` and `/` replaced in place. */
  function ToUrlSafe(s: string): (r: string)
    ensures |r| == |s|
    ensures forall i :: 0 <= i < |s| ==> r[i] == UrlSafeChar(s[i])
  {
    seq(|s|, i requires 0 <= i < |s| => UrlSafeChar(s[i]))
  }

  /** The third loop: trailing `=` removed. */
  function StripPadding(s: string): (r: string)
    ensures |r| <= |s| && r == s[..|r|]
    ensures |r| > 0 ==> r[|r| - 1] != PadChar
    ensures forall k :: |r| <= k < |s| ==> s[k] == PadChar
    decreases |s|
  {
    if |s| > 0 && s[|s| - 1] == PadChar then StripPadding(s[..|s| - 1]) else s
  }

  /** `base64UrlEncode`, as the source computes it. */
  function Base64UrlEncode(data: seq<byte>): string {
    StripPadding(ToUrlSafe(StandardEncode(data)))
  }


  /** The shifts and masks of the first loop pick out the group's 6-bit indices. */
  lemma GroupIndices(g: seq<byte>)
    requires 1 <= |g| <= 3
    ensures var n := GroupValue(g);
      var ix := FullSextets(ZeroFilled(g));
      && (n / 0x4_0000) % 64 == ix[0]
      && (n / 0x1000) % 64 == ix[1]
      && (n / 64) % 64 == ix[2]
      && n % 64 == ix[3]
  {
    var n := GroupValue(g);
    var full := ZeroFilled(g);
    assert full[0] == g[0];
    GroupDigits(full[0] as nat, full[1] as nat, full[2] as nat);
  }

  lemma GroupDigits(b0: nat, b1: nat, b2: nat)
    requires b0 < 256 && b1 < 256 && b2 < 256
    ensures var n := b0 * 0x1_0000 + b1 * 0x100 + b2;
      && (n / 0x4_0000) % 64 == b0 / 4
      && (n / 0x1000) % 64 == (b0 % 4) * 16 + b1 / 16
      && (n / 64) % 64 == (b1 % 16) * 4 + b2 / 64
      && n % 64 == b2 % 64
  {
    FirstDigit(b0, b1, b2);
    SecondDigit(b0, b1, b2);
    ThirdDigit(b0, b1, b2);
    var n := b0 * 0x1_0000 + b1 * 0x100 + b2;
    var q := b0 * 0x400 + b1 * 4 + b2 / 64;
    assert n == q * 64 + b2 % 64;
    DivOfBracket(n, 64, q);
    assert n % 64 == n - (n / 64) * 64;
  }

  lemma FirstDigit(b0: nat, b1: nat, b2: nat)
    requires b0 < 256 && b1 < 256 && b2 < 256
    ensures (b0 * 0x1_0000 + b1 * 0x100 + b2) / 0x4_0000 == b0 / 4
  {
    var n := b0 * 0x1_0000 + b1 * 0x100 + b2;
    assert n == (b0 / 4) * 0x4_0000 + ((b0 % 4) * 0x1_0000 + b1 * 0x100 + b2);
    DivOfBracket(n, 0x4_0000, b0 / 4);
  }

  lemma SecondDigit(b0: nat, b1: nat, b2: nat)
    requires b0 < 256 && b1 < 256 && b2 < 256
    ensures ((b0 * 0x1_0000 + b1 * 0x100 + b2) / 0x1000) % 64 == (b0 % 4) * 16 + b1 / 16
  {
    var n := b0 * 0x1_0000 + b1 * 0x100 + b2;
    var m := b0 * 16 + b1 / 16;
    assert n == m * 0x1000 + ((b1 % 16) * 0x100 + b2);
    DivOfBracket(n, 0x1000, m);
    assert m == (b0 / 4) * 64 + ((b0 % 4) * 16 + b1 / 16);
    DivOfBracket(m, 64, b0 / 4);
  }

  lemma ThirdDigit(b0: nat, b1: nat, b2: nat)
    requires b0 < 256 && b1 < 256 && b2 < 256
    ensures ((b0 * 0x1_0000 + b1 * 0x100 + b2) / 64) % 64 == (b1 % 16) * 4 + b2 / 64
  {
    var n := b0 * 0x1_0000 + b1 * 0x100 + b2;
    var m := b0 * 0x400 + b1 * 4 + b2 / 64;
    assert n == m * 64 + b2 % 64;
    DivOfBracket(n, 64, m);
    var k := b0 * 16 + b1 / 16;
    assert m == k * 64 + ((b1 % 16) * 4 + b2 / 64);
    DivOfBracket(m, 64, k);
  }

  /** One group as written: the definition's letters followed by the padding. */
  lemma StandardGroupIsUrlGroup(g: seq<byte>)
    requires 1 <= |g| <= 3
    ensures ToUrlSafe(StandardGroup(g)) == Letters(GroupSextets(g)) + seq(3 - |g|, _ => PadChar)
  {
    GroupIndices(g);
    var full := FullSextets(ZeroFilled(g));
    var got := ToUrlSafe(StandardGroup(g));
    var want := Letters(GroupSextets(g)) + seq(3 - |g|, _ => PadChar);
    assert GroupSextets(g) == full[..|g| + 1];
    forall k | 0 <= k < 4
      ensures got[k] == want[k]
    {
      if k <= |g| {
        TableIsUrlAlphabet(full[k]);
      }
    }
  }

  /** The padded URL-safe text is the definition plus the padding of the last group. */
  lemma {:induction false} UrlSafeStandardIsPaddedUrl(data: seq<byte>)
    ensures ToUrlSafe(StandardEncode(data)) == UrlEncode(data) + seq(Padding(|data|), _ => PadChar)
    decreases |data|
  {
    if |data| == 0 {
    } else if |data| <= 3 {
      StandardGroupIsUrlGroup(data);
    } else {
      var g, rest := data[..3], data[3..];
      var head := StandardGroup(g);
      StandardGroupIsUrlGroup(g);
      assert ToUrlSafe(head) == Letters(GroupSextets(g));
      UrlSafeStandardIsPaddedUrl(rest);
      ToUrlSafeAppend(head, StandardEncode(rest));
    }
  }

  lemma ToUrlSafeAppend(a: string, b: string)
    ensures ToUrlSafe(a + b) == ToUrlSafe(a) + ToUrlSafe(b)
  {
    assert forall i :: 0 <= i < |a + b| ==> (a + b)[i] == if i < |a| then a[i] else b[i - |a|];
  }

  /** The `=` characters standard base64 appends after `len` bytes. */
  function Padding(len: nat): nat {
    if len == 0 then 0 else if len <= 3 then 3 - len else Padding(len - 3)
  }

  lemma {:induction false} StripPaddingOfPadded(s: string, pad: nat)
    requires |s| == 0 || s[|s| - 1] != PadChar
    ensures StripPadding(s + seq(pad, _ => PadChar)) == s
    decreases pad
  {
    var t := s + seq(pad, _ => PadChar);
    if pad == 0 {
      assert t == s;
    } else {
      assert t[..|t| - 1] == s + seq(pad - 1, _ => PadChar);
      StripPaddingOfPadded(s, pad - 1);
    }
  }

  /** The source's three passes compute exactly the unpadded base64url encoding. */
  lemma AsWrittenIsUrlEncode(data: seq<byte>)
    ensures Base64UrlEncode(data) == UrlEncode(data)
  {
    UrlSafeStandardIsPaddedUrl(data);
    var e := UrlEncode(data);
    if |e| > 0 {
      assert IsUrlChar(e[|e| - 1]);
    }
    StripPaddingOfPadded(e, Padding(|data|));
  }

  // ---------------------------------------------------------------------
  // Properties of the encoding
  // ---------------------------------------------------------------------

  /** Only `A-Z a-z 0-9 - _`: never `+`, `/`, `=` or `.`. */
  lemma EncodedAlphabet(data: seq<byte>)
    ensures forall i :: 0 <= i < |Base64UrlEncode(data)| ==> IsUrlChar(Base64UrlEncode(data)[i])
    ensures '+' !in Base64UrlEncode(data) && '/' !in Base64UrlEncode(data)
    ensures PadChar !in Base64UrlEncode(data) && '.' !in Base64UrlEncode(data)
  {
    AsWrittenIsUrlEncode(data);
  }

  /** Four characters per full group, then two or three for a partial one; nothing for no input. */
  lemma EncodedLength(data: seq<byte>)
    ensures |Base64UrlEncode(data)| == 4 * (|data| / 3) + (if |data| % 3 == 0 then 0 else if |data| % 3 == 1 then 2 else 3)
  {
    AsWrittenIsUrlEncode(data);
    LengthFormulas(|data|);
  }

  /** Encoding splits at any whole number of groups. */
  lemma EncodeCompositional(a: seq<byte>, b: seq<byte>)
    requires |a| % 3 == 0
    ensures Base64UrlEncode(a + b) == Base64UrlEncode(a) + Base64UrlEncode(b)
  {
    AsWrittenIsUrlEncode(a + b);
    AsWrittenIsUrlEncode(a);
    AsWrittenIsUrlEncode(b);
    UrlEncodeCompositional(a, b);
  }

  // ---------------------------------------------------------------------
  // Decoding, by the same definition
  // ---------------------------------------------------------------------

  function Indices(s: string): (r: Option<seq<nat>>)
    ensures r.Some? ==> |r.value| == |s| && Sextets(r.value)
    ensures r.Some? ==> forall i :: 0 <= i < |s| ==> UrlIndex(s[i]) == Some(r.value[i])
    ensures r.None? <==> exists i :: 0 <= i < |s| && !IsUrlChar(s[i])
  {
    if |s| == 0 then Some([])
    else
      match UrlIndex(s[0])
      case None => None
      case Some(i) =>
        match Indices(s[1..])
        case None => None
        case Some(rest) =>
          Some([i] + rest)
  }

  lemma IndicesOfLetters(ix: seq<nat>)
    requires Sextets(ix)
    ensures Indices(Letters(ix)) == Some(ix)
  {
    var r := Indices(Letters(ix));
    assert r.Some?;
    assert r.value == ix;
  }

  /** The bytes of two to four indices; the low bits of a final partial group are dropped. */
  function GroupBytes(ix: seq<nat>): (g: seq<byte>)
    requires 2 <= |ix| <= 4 && Sextets(ix)
    ensures |g| == |ix| - 1
  {
    var i2 := if |ix| > 2 then ix[2] else 0;
    var i3 := if |ix| > 3 then ix[3] else 0;
    [(ix[0] * 4 + ix[1] / 16) as byte, ((ix[1] % 16) * 16 + i2 / 4) as byte, ((i2 % 4) * 64 + i3) as byte][..|ix| - 1]
  }

  /** Unpadded base64url decoding; a dangling single character or a foreign one fails. */
  function UrlDecode(s: string): (r: Option<seq<byte>>)
    decreases |s|
  {
    if |s| == 0 then Some([])
    else if |s| == 1 then None
    else
      var k := if |s| < 4 then |s| else 4;
      match Indices(s[..k])
      case None => None
      case Some(ix) =>
        match UrlDecode(s[k..])
        case None => None
        case Some(rest) => Some(GroupBytes(ix) + rest)
  }

  lemma GroupRoundTrip(g: seq<byte>)
    requires 1 <= |g| <= 3
    ensures GroupBytes(GroupSextets(g)) == g
  {
    var f := ZeroFilled(g);
    var b0, b1, b2 := f[0] as nat, f[1] as nat, f[2] as nat;
    var i1 := (b0 % 4) * 16 + b1 / 16;
    var i2 := (b1 % 16) * 4 + b2 / 64;
    assert i1 / 16 == b0 % 4 && i1 % 16 == b1 / 16;
    assert i2 / 4 == b1 % 16 && i2 % 4 == b2 / 64;
  }

  lemma {:induction false} UrlDecodeEncode(data: seq<byte>)
    ensures UrlDecode(UrlEncode(data)) == Some(data)
    decreases |data|
  {
    var s := UrlEncode(data);
    if |data| == 0 {
    } else {
      var g := if |data| <= 3 then data else data[..3];
      var rest := if |data| <= 3 then [] else data[3..];
      var ix := GroupSextets(g);
      var group := Letters(ix);
      assert s == group + UrlEncode(rest);
      assert s[..|group|] == group;
      assert s[|group|..] == UrlEncode(rest);
      IndicesOfLetters(ix);
      GroupRoundTrip(g);
      UrlDecodeEncode(rest);
      assert data == g + rest;
    }
  }

  /** Decoding recovers every byte string from its encoding. */
  lemma DecodeEncode(data: seq<byte>)
    ensures UrlDecode(Base64UrlEncode(data)) == Some(data)
  {
    AsWrittenIsUrlEncode(data);
    UrlDecodeEncode(data);
  }

  // ---------------------------------------------------------------------
  // The token
  // ---------------------------------------------------------------------

  /** The declared default lifetime of a token, in seconds. */
  const DefaultExpirySeconds: int := 7200

  const Header: string := "{\"alg\":\"HS256\",\"typ\":\"JWT\"}"

  /**
   * The bytes of a `std::string`: one per character, its code modulo 256,
   * which is the code itself for the ASCII texts assembled here.
   */
  function AsciiBytes(s: string): (b: seq<byte>)
    ensures |b| == |s|
    ensures forall i :: 0 <= i < |s| ==> b[i] as int == s[i] as int % 256
    ensures IsAscii(s) ==> forall i :: 0 <= i < |s| ==> b[i] as int == s[i] as int
  {
    seq(|s|, i requires 0 <= i < |s| => (s[i] as int % 256) as byte)
  }

  predicate IsAscii(s: string) {
    forall i :: 0 <= i < |s| ==> s[i] as int < 128
  }

  lemma IntToStringIsAscii(i: int)
    ensures IsAscii(IntToString(i))
  {
    var s := IntToString(i);
    forall k | 0 <= k < |s| ensures s[k] as int < 128 {
      assert s[k] == '-' || IsDigit(s[k]);
    }
  }

  /** The payload bytes: the key is spliced in verbatim, the numbers in decimal. */
  function Payload(sdkKey: seq<byte>, now: int, exp: int): seq<byte> {
    AsciiBytes("{\"appKey\":\"") + sdkKey
      + AsciiBytes("\",\"iat\":") + AsciiBytes(IntToString(now))
      + AsciiBytes(",\"exp\":") + AsciiBytes(IntToString(exp))
      + AsciiBytes(",\"tokenExp\":") + AsciiBytes(IntToString(exp))
      + AsciiBytes("}")
  }

  /** The first two sections of a token, and the text the signature covers. */
  function SigningInput(sdkKey: seq<byte>, now: int, exp: int): string {
    Base64UrlEncode(AsciiBytes(Header)) + "." + Base64UrlEncode(Payload(sdkKey, now, exp))
  }

  /**
   * `generateZoomJWT` at time `now`, with `hmac(key, message)` standing
   * for HMAC-SHA256: header and payload encoded and joined by `.`, that
   * text signed with the secret, and the encoded signature appended after
   * another `.`. The result has exactly three dot-separated sections.
   */
  function GenerateZoomJwt(
    sdkKey: seq<byte>, sdkSecret: seq<byte>, expirySeconds: int, now: int,
    hmac: (seq<byte>, seq<byte>) -> seq<byte>): (token: string)
    ensures
      var signingInput := SigningInput(sdkKey, now, now + expirySeconds);
      Split(token, '.') == [
        Base64UrlEncode(AsciiBytes(Header)),
        Base64UrlEncode(Payload(sdkKey, now, now + expirySeconds)),
        Base64UrlEncode(hmac(sdkSecret, AsciiBytes(signingInput)))]
  {
    var signingInput := SigningInput(sdkKey, now, now + expirySeconds);
    var signature := hmac(sdkSecret, AsciiBytes(signingInput));
    EncodedAlphabet(AsciiBytes(Header));
    EncodedAlphabet(Payload(sdkKey, now, now + expirySeconds));
    EncodedAlphabet(signature);
    ThreeSections(
      Base64UrlEncode(AsciiBytes(Header)),
      Base64UrlEncode(Payload(sdkKey, now, now + expirySeconds)),
      Base64UrlEncode(signature));
    signingInput + "." + Base64UrlEncode(signature)
  }

  /** Three dot-free texts joined by dots split back into those three. */
  lemma ThreeSections(x: string, y: string, z: string)
    requires '.' !in x && '.' !in y && '.' !in z
    ensures Split(x + "." + y + "." + z, '.') == [x, y, z]
  {
    assert Join([y, z], '.') == y + "." + z;
    assert Join([x, y, z], '.') == x + "." + y + "." + z;
    SplitJoin([x, y, z], '.');
  }

  /**
   * A receiver can take a token apart: the sections decode to the header,
   * the payload and the signature, and the signature is the HMAC of the
   * text before the second dot.
   */
  lemma TokenSectionsDecode(
    sdkKey: seq<byte>, sdkSecret: seq<byte>, expirySeconds: int, now: int,
    hmac: (seq<byte>, seq<byte>) -> seq<byte>)
    ensures
      var parts := Split(GenerateZoomJwt(sdkKey, sdkSecret, expirySeconds, now, hmac), '.');
      && |parts| == 3
      && UrlDecode(parts[0]) == Some(AsciiBytes(Header))
      && UrlDecode(parts[1]) == Some(Payload(sdkKey, now, now + expirySeconds))
      && UrlDecode(parts[2]) == Some(hmac(sdkSecret, AsciiBytes(parts[0] + "." + parts[1])))
  {
    DecodeEncode(AsciiBytes(Header));
    DecodeEncode(Payload(sdkKey, now, now + expirySeconds));
    DecodeEncode(hmac(sdkSecret, AsciiBytes(SigningInput(sdkKey, now, now + expirySeconds))));
  }
}
