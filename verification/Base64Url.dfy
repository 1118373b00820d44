/** Unpadded base64url text (section 5 of RFC 4648; padding is section 3.2) as the token
    formats use it (backend/core/passphrase_cipher.py). The decoder is the lenient one of
    Python's `base64` module, character by character. */
module Base64Url {
  import opened Common

  type Byte = b: nat | b < 256

  type Bytes = seq<Byte>

  // ----- Encoding -----

  /** The URL-safe alphabet. */
  function Symbol(v: nat): char
    requires v < 64
  {
    if v < 26 then 'A' + v as char
    else if v < 52 then 'a' + (v - 26) as char
    else if v < 62 then '0' + (v - 52) as char
    else if v == 62 then '-' else '_'
  }

  /** `base64.urlsafe_b64encode`: groups of three bytes, the last one padded. */
  function Encode(raw: Bytes): string {
    if raw == [] then ""
    else if |raw| == 1 then
      [Symbol(raw[0] / 4), Symbol(raw[0] % 4 * 16)] + "=="
    else if |raw| == 2 then
      [Symbol(raw[0] / 4), Symbol(raw[0] % 4 * 16 + raw[1] / 16), Symbol(raw[1] % 16 * 4)] + "="
    else Group(raw[0], raw[1], raw[2]) + Encode(raw[3..])
  }

  function Group(a: Byte, b: Byte, c: Byte): string {
    [Symbol(a / 4), Symbol(a % 4 * 16 + b / 16), Symbol(b % 16 * 4 + c / 64), Symbol(c % 64)]
  }

  /** `bytes.rstrip(b"=")`. */
  function StripPadding(s: string): string {
    if s != "" && s[|s| - 1] == '=' then StripPadding(s[..|s| - 1]) else s
  }

  /** `_b64e`. */
  function B64e(raw: Bytes): string {
    StripPadding(Encode(raw))
  }

  // ----- Decoding -----

  /** The value of a character; both alphabets are accepted, everything else is not data. */
  function SymbolValue(c: char): (v: Option<nat>)
    ensures v.Some? ==> v.value < 64
  {
    if 'A' <= c <= 'Z' then Some((c - 'A') as nat)
    else if 'a' <= c <= 'z' then Some((c - 'a') as nat + 26)
    else if '0' <= c <= '9' then Some((c - '0') as nat + 52)
    else if c == '-' || c == '+' then Some(62)
    else if c == '_' || c == '/' then Some(63)
    else None
  }

  type Bits6 = v: nat | v < 64
  type Bits4 = v: nat | v < 16
  type Bits2 = v: nat | v < 4

  /** The decoder's state: how many characters of the current group it has seen and the bits
      left over from them. */
  datatype Decoder =
    | Start(out: Bytes)
    | One(out: Bytes, left6: Bits6)
    | Two(out: Bytes, left4: Bits4, padded: bool)
    | Three(out: Bytes, left2: Bits2)
    | Closed(out: Bytes)

  /** One character: data fills the group, padding after two or three characters closes the
      text, anything else is skipped. */
  function Feed(d: Decoder, c: char): Decoder {
    if c == '=' then
      match d
      case Two(out, left, padded) => if padded then Closed(out) else Two(out, left, true)
      case Three(out, _) => Closed(out)
      case _ => d
    else if SymbolValue(c).None? then d
    else
      var v := SymbolValue(c).value;
      match d
      case Start(out) => One(out, v)
      case One(out, left) => Two(out + [left * 4 + v / 16], v % 16, false)
      case Two(out, left, _) => Three(out + [left * 16 + v / 4], v % 4)
      case Three(out, left) => Start(out + [left * 64 + v])
      case Closed(_) => d
  }

  function FeedAll(d: Decoder, s: string): Decoder
    decreases |s|
  {
    if s == "" then d else FeedAll(Feed(d, s[0]), s[1..])
  }

  /** A text that stops inside a group is malformed. */
  function Decoded(d: Decoder): Option<Bytes> {
    match d
    case Start(out) => Some(out)
    case Closed(out) => Some(out)
    case _ => None
  }

  predicate Ascii(s: string) {
    forall i | 0 <= i < |s| :: s[i] < '\U{80}'
  }

  /** `-len(text) % 4`. */
  function PadCount(length: int): (p: nat)
    ensures p < 4 && (length + p) % 4 == 0
  {
    -length % 4
  }

  function Padding(length: nat): string {
    seq(PadCount(length), _ => '=')
  }

  /** `_b64d`: restore the padding, then decode; `None` stands for the malformed-token error. */
  function B64d(text: string): Option<Bytes> {
    if !Ascii(text) then None else Decoded(FeedAll(Start([]), text + Padding(|text|)))
  }

  // ----- Round trip -----

  predicate InAlphabet(s: string) {
    forall i | 0 <= i < |s| :: SymbolValue(s[i]).Some?
  }

  lemma SymbolRoundTrip(v: nat)
    requires v < 64
    ensures SymbolValue(Symbol(v)) == Some(v)
  {
  }

  lemma {:induction false} FeedConcat(d: Decoder, a: string, b: string)
    ensures FeedAll(d, a + b) == FeedAll(FeedAll(d, a), b)
    decreases |a|
  {
    if a == "" {
      assert a + b == b;
    } else {
      assert (a + b)[1..] == a[1..] + b;
      FeedConcat(Feed(d, a[0]), a[1..], b);
    }
  }

  lemma FeedTwo(d: Decoder, a: char, b: char)
    ensures FeedAll(d, [a, b]) == Feed(Feed(d, a), b)
  {
    assert [a, b][1..] == [b];
    assert FeedAll(Feed(d, a), [b]) == FeedAll(Feed(Feed(d, a), b), []);
  }

  lemma FeedFour(d: Decoder, a: char, b: char, c: char, e: char)
    ensures FeedAll(d, [a, b, c, e]) == Feed(Feed(Feed(Feed(d, a), b), c), e)
  {
    FeedTwo(d, a, b);
    FeedTwo(Feed(Feed(d, a), b), c, e);
    FeedConcat(d, [a, b], [c, e]);
    assert [a, b] + [c, e] == [a, b, c, e];
  }

  /** Feeding the symbol of a value is feeding the value. */
  lemma FeedSymbol(out: Bytes, v: nat, w: nat)
    requires v < 64
    ensures Feed(Start(out), Symbol(v)) == One(out, v)
    ensures w < 64 ==> Feed(One(out, w), Symbol(v)) == Two(out + [w * 4 + v / 16], v % 16, false)
    ensures w < 16 ==> Feed(Two(out, w, false), Symbol(v)) == Three(out + [w * 16 + v / 4], v % 4)
    ensures w < 4 ==> Feed(Three(out, w), Symbol(v)) == Start(out + [w * 64 + v])
  {
    SymbolRoundTrip(v);
  }

  /** The first two symbols carry the first byte and four bits of the second. */
  lemma FirstByteDecodes(out: Bytes, a: Byte, high: nat)
    requires high < 16
    ensures Feed(Feed(Start(out), Symbol(a / 4)), Symbol(a % 4 * 16 + high)) == Two(out + [a], high, false)
  {
    FeedSymbol(out, a / 4, 0);
    FeedSymbol(out, a % 4 * 16 + high, a / 4);
  }

  /** The third symbol completes the second byte. */
  lemma SecondByteDecodes(out: Bytes, b: Byte, high: nat)
    requires high < 4
    ensures Feed(Two(out, b / 16, false), Symbol(b % 16 * 4 + high)) == Three(out + [b], high)
  {
    FeedSymbol(out, b % 16 * 4 + high, b / 16);
  }

  lemma GroupDecodes(out: Bytes, a: Byte, b: Byte, c: Byte)
    ensures FeedAll(Start(out), Group(a, b, c)) == Start(out + [a, b, c])
  {
    var g := Group(a, b, c);
    FeedFour(Start(out), g[0], g[1], g[2], g[3]);
    var two := out + [a] + [b];
    assert Feed(Feed(Feed(Start(out), g[0]), g[1]), g[2]) == Three(two, c / 64) by {
      FirstByteDecodes(out, a, b / 16);
      SecondByteDecodes(out + [a], b, c / 64);
    }
    assert Feed(Three(two, c / 64), g[3]) == Start(two + [c]) by {
      FeedSymbol(two, c % 64, c / 64);
    }
    assert out + [a] + [b] + [c] == out + [a, b, c];
  }

  lemma OneByteDecodes(out: Bytes, a: Byte)
    ensures FeedAll(Start(out), Encode([a])) == Closed(out + [a])
  {
    var s := Encode([a]);
    assert s == [s[0], s[1], '=', '='];
    FeedFour(Start(out), s[0], s[1], '=', '=');
    FirstByteDecodes(out, a, 0);
  }

  lemma TwoBytesDecode(out: Bytes, a: Byte, b: Byte)
    ensures FeedAll(Start(out), Encode([a, b])) == Closed(out + [a, b])
  {
    var s := Encode([a, b]);
    assert s == [s[0], s[1], s[2], '='];
    FeedFour(Start(out), s[0], s[1], s[2], '=');
    FirstByteDecodes(out, a, b / 16);
    SecondByteDecodes(out + [a], b, 0);
    assert out + [a] + [b] == out + [a, b];
  }

  /** The padded text decodes to the bytes it was made from. */
  lemma {:induction false} PaddedRoundTrip(out: Bytes, raw: Bytes)
    ensures Decoded(FeedAll(Start(out), Encode(raw))) == Some(out + raw)
    decreases |raw|
  {
    if |raw| < 3 {
      RestDecodes(out, raw);
    } else {
      GroupFeeds(out, raw);
      PaddedRoundTrip(out + raw[..3], raw[3..]);
      assert out + raw[..3] + raw[3..] == out + raw;
    }
  }

  lemma {:induction false} RestDecodes(out: Bytes, raw: Bytes)
    requires |raw| < 3
    ensures Decoded(FeedAll(Start(out), Encode(raw))) == Some(out + raw)
  {
    if raw == [] {
      assert out + raw == out;
    } else if |raw| == 1 {
      assert raw == [raw[0]];
      OneByteDecodes(out, raw[0]);
    } else {
      assert raw == [raw[0], raw[1]];
      TwoBytesDecode(out, raw[0], raw[1]);
    }
  }

  lemma {:induction false} GroupFeeds(out: Bytes, raw: Bytes)
    requires |raw| >= 3
    ensures FeedAll(Start(out), Encode(raw)) == FeedAll(Start(out + raw[..3]), Encode(raw[3..]))
  {
    var g, rest := Group(raw[0], raw[1], raw[2]), Encode(raw[3..]);
    EncodeGroup(raw);
    FeedConcat(Start(out), g, rest);
    GroupDecodes(out, raw[0], raw[1], raw[2]);
    assert raw[..3] == [raw[0], raw[1], raw[2]];
    calc {
      FeedAll(Start(out), g + rest);
      FeedAll(FeedAll(Start(out), g), rest);
      FeedAll(Start(out + raw[..3]), rest);
    }
  }

  lemma {:induction false} EncodeGroup(raw: Bytes)
    requires |raw| >= 3
    ensures Encode(raw) == Group(raw[0], raw[1], raw[2]) + Encode(raw[3..])
  {
  }

  lemma SymbolShape(v: nat)
    requires v < 64
    ensures SymbolValue(Symbol(v)).Some? && Symbol(v) < '\U{80}'
  {
  }

  /** The characters that carry data. */
  function Body(raw: Bytes): string {
    if raw == [] then ""
    else if |raw| == 1 then [Symbol(raw[0] / 4), Symbol(raw[0] % 4 * 16)]
    else if |raw| == 2 then
      [Symbol(raw[0] / 4), Symbol(raw[0] % 4 * 16 + raw[1] / 16), Symbol(raw[1] % 16 * 4)]
    else Group(raw[0], raw[1], raw[2]) + Body(raw[3..])
  }

  lemma GroupShape(a: Byte, b: Byte, c: Byte)
    ensures InAlphabet(Group(a, b, c)) && Ascii(Group(a, b, c))
  {
    SymbolShape(a / 4);
    SymbolShape(a % 4 * 16 + b / 16);
    SymbolShape(b % 16 * 4 + c / 64);
    SymbolShape(c % 64);
  }

  lemma ShapeConcat(a: string, b: string)
    requires InAlphabet(a) && Ascii(a) && InAlphabet(b) && Ascii(b)
    ensures InAlphabet(a + b) && Ascii(a + b)
  {
  }

  lemma {:induction false} BodyIsPlain(raw: Bytes)
    ensures InAlphabet(Body(raw)) && Ascii(Body(raw))
    decreases |raw|
  {
    if |raw| >= 3 {
      GroupShape(raw[0], raw[1], raw[2]);
      BodyIsPlain(raw[3..]);
      ShapeConcat(Group(raw[0], raw[1], raw[2]), Body(raw[3..]));
    }
  }

  lemma PaddingPeriod(a: string, b: string)
    requires |a| == 4
    ensures Padding(|a + b|) == Padding(|b|)
  {
    assert |a + b| == 4 + |b|;
    assert PadCount(4 + |b|) == PadCount(|b|);
  }

  /** The padded text is the body followed by the padding its length calls for. */
  lemma {:induction false} EncodeShape(raw: Bytes)
    ensures Encode(raw) == Body(raw) + Padding(|Body(raw)|)
    decreases |raw|
  {
    if raw == [] {
    } else if |raw| == 1 {
      assert Padding(2) == "==";
    } else if |raw| == 2 {
      assert Padding(3) == "=";
    } else {
      var g, rest := Group(raw[0], raw[1], raw[2]), raw[3..];
      calc {
        Encode(raw);
        g + Encode(rest);
        { EncodeShape(rest); }
        g + (Body(rest) + Padding(|Body(rest)|));
        { PaddingPeriod(g, Body(rest)); }
        Body(raw) + Padding(|Body(raw)|);
      }
    }
  }

  lemma {:induction false} StripUndoesPadding(body: string, pad: string)
    requires InAlphabet(body) && forall i | 0 <= i < |pad| :: pad[i] == '='
    ensures StripPadding(body + pad) == body
    decreases |pad|
  {
    if pad == "" {
      assert body + pad == body;
    } else {
      assert (body + pad)[..|body + pad| - 1] == body + pad[..|pad| - 1];
      StripUndoesPadding(body, pad[..|pad| - 1]);
    }
  }

  lemma EncodedIsPlain(raw: Bytes)
    ensures InAlphabet(B64e(raw)) && Ascii(B64e(raw))
    ensures B64e(raw) + Padding(|B64e(raw)|) == Encode(raw)
  {
    EncodeShape(raw);
    BodyIsPlain(raw);
    StripUndoesPadding(Body(raw), Padding(|Body(raw)|));
  }

  /** Main result: for every byte string, decoding the unpadded text gives it back. */
  lemma RoundTrip(raw: Bytes)
    ensures B64d(B64e(raw)) == Some(raw)
  {
    EncodedIsPlain(raw);
    PaddedRoundTrip([], raw);
    assert [] + raw == raw;
  }

  /** The alphabet of table 2 of RFC 4648: three runs of consecutive characters and two more. */
  lemma AlphabetIs(v: nat)
    requires v < 64
    ensures Symbol(0) == 'A' && Symbol(25) == 'Z' && Symbol(26) == 'a' && Symbol(51) == 'z'
    ensures Symbol(52) == '0' && Symbol(61) == '9' && Symbol(62) == '-' && Symbol(63) == '_'
    ensures v !in {25, 51, 61, 62, 63} ==> Symbol(v + 1) as int == Symbol(v) as int + 1
    ensures SymbolValue(Symbol(v)) == Some(v) && SymbolValue('+') == Some(62) && SymbolValue('/') == Some(63)
  {
  }

  /** The test vectors of section 10 of RFC 4648. */
  lemma TestVectors()
    ensures Encode([]) == ""
    ensures Encode([102]) == "Zg=="
    ensures Encode([102, 111]) == "Zm8="
    ensures Encode([102, 111, 111]) == "Zm9v"
    ensures Encode([102, 111, 111, 98]) == "Zm9vYg=="
    ensures Encode([251, 255]) == "-_8="
  {
    assert [102, 111, 111][3..] == [];
    assert [102, 111, 111, 98][3..] == [98];
  }

  // ----- Which texts decode -----

  /** How far into a group alphabet characters bring the decoder. */
  lemma {:induction false} AlphabetFillsGroups(d: Decoder, s: string)
    requires InAlphabet(s) && !d.Closed?
    ensures var e := FeedAll(d, s);
            && !e.Closed? && Filled(e) == (Filled(d) + |s|) % 4
            && (s != "" && e.Two? ==> !e.padded)
    decreases |s|
  {
    if s != "" {
      AlphabetFillsGroups(Feed(d, s[0]), s[1..]);
    }
  }

  function Filled(d: Decoder): nat {
    match d
    case Start(_) => 0
    case One(_, _) => 1
    case Two(_, _, _) => 2
    case Three(_, _) => 3
    case Closed(_) => 0
  }

  /** The padding of `n` characters closes the decoder, unless one character is left over. */
  lemma PaddingCloses(d: Decoder, n: nat)
    requires !d.Closed? && Filled(d) == n % 4 && (d.Two? ==> !d.padded)
    ensures Decoded(FeedAll(d, Padding(n))).Some? <==> n % 4 != 1
  {
    assert FeedAll(Feed(d, '='), "") == Feed(d, '=');
    if n % 4 == 0 {
      assert Padding(n) == "";
    } else if n % 4 == 3 {
      assert Padding(n) == ['='] && ['='][1..] == "";
    } else if n % 4 == 2 {
      assert Padding(n) == ['=', '='];
      FeedTwo(d, '=', '=');
    } else {
      assert Padding(n) == ['=', '='] + ['='];
      FeedTwo(d, '=', '=');
      FeedConcat(d, ['=', '='], ['=']);
    }
  }

  /** A text over the alphabet decodes exactly when its length is not one more than a
      multiple of four: the restored padding closes every other length. */
  lemma DecodesIffWholeBytes(s: string)
    requires InAlphabet(s) && Ascii(s)
    ensures B64d(s).Some? <==> |s| % 4 != 1
  {
    AlphabetFillsGroups(Start([]), s);
    FeedConcat(Start([]), s, Padding(|s|));
    PaddingCloses(FeedAll(Start([]), s), |s|);
  }
}
