/** The byte <-> text codec that lib/db.ts uses to keep the SQLite image in
    a string slot: bytes become a "binary string" (one character per byte),
    which `btoa` turns into base64 as defined in section 4 of RFC 4648;
    `atob` undoes it with the forgiving base64 decoding of the WHATWG HTML
    standard, and the characters are read back into a `Uint8Array`. */
module Base64 {
  import opened Types
  import Text

  type byte = x: int | 0 <= x < 256
  type sextet = x: int | 0 <= x < 64

  /** The DOMException both `btoa` and `atob` throw. */
  datatype Failure = InvalidCharacter

  // ---------------------------------------------------------------------------
  // The alphabet of Table 1, section 4 of RFC 4648.

  function CharOf(v: sextet): char {
    if v < 26 then ('A' as int + v) as char
    else if v < 52 then ('a' as int + (v - 26)) as char
    else if v < 62 then ('0' as int + (v - 52)) as char
    else if v == 62 then '+'
    else '/'
  }

  predicate IsAlphabet(c: char) {
    ('A' <= c <= 'Z') || ('a' <= c <= 'z') || ('0' <= c <= '9') || c == '+' || c == '/'
  }

  /** The value of an alphabet character (0 for any other character, which
      decoding refuses before it gets here). */
  function ValueOf(c: char): sextet {
    if 'A' <= c <= 'Z' then c as int - 'A' as int
    else if 'a' <= c <= 'z' then c as int - 'a' as int + 26
    else if '0' <= c <= '9' then c as int - '0' as int + 52
    else if c == '+' then 62
    else if c == '/' then 63
    else 0
  }

  lemma ValueOfCharOf(v: sextet)
    ensures IsAlphabet(CharOf(v)) && ValueOf(CharOf(v)) == v
  {
  }

  /** Each sextet as its alphabet character. */
  function Chars(vs: seq<sextet>): (s: string)
    ensures |s| == |vs| && AllAlphabet(s)
  {
    seq(|vs|, i requires 0 <= i < |vs| => CharOf(vs[i]))
  }

  /** Each character as its sextet. */
  function Values(s: string): (vs: seq<sextet>)
    ensures |vs| == |s|
  {
    seq(|s|, i requires 0 <= i < |s| => ValueOf(s[i]))
  }

  /** Reading the characters of sextets gives the sextets back. */
  lemma ValuesChars(vs: seq<sextet>)
    ensures Values(Chars(vs)) == vs
  {
    forall i | 0 <= i < |vs| ensures Values(Chars(vs))[i] == vs[i] {
      ValueOfCharOf(vs[i]);
    }
  }

  // ---------------------------------------------------------------------------
  // Encoding: each 24-bit group of input becomes four sextets; a final
  // group of one or two bytes becomes two or three sextets, whose missing
  // low bits are zero, and "=="/"=".

  function Sextets(b: seq<byte>): (vs: seq<sextet>)
    decreases |b|
  {
    if |b| == 0 then []
    else if |b| == 1 then [b[0] / 4, (b[0] % 4) * 16]
    else if |b| == 2 then [b[0] / 4, (b[0] % 4) * 16 + b[1] / 16, (b[1] % 16) * 4]
    else
      [b[0] / 4, (b[0] % 4) * 16 + b[1] / 16, (b[1] % 16) * 4 + b[2] / 64, b[2] % 64]
      + Sextets(b[3..])
  }

  /** Four sextets per full group, two or three for a partial one. */
  lemma {:induction false} SextetsLength(b: seq<byte>)
    ensures |Sextets(b)| == 4 * (|b| / 3) + (if |b| % 3 == 0 then 0 else |b| % 3 + 1)
    decreases |b|
  {
    if |b| >= 3 {
      SextetsLength(b[3..]);
      assert |b[3..]| / 3 == |b| / 3 - 1 && |b[3..]| % 3 == |b| % 3;
    }
  }

  /** The sextets past the last full group of four. */
  lemma {:induction false} SextetsRemainder(b: seq<byte>)
    ensures |Sextets(b)| % 4 == (if |b| % 3 == 0 then 0 else |b| % 3 + 1)
    decreases |b|
  {
    if |b| >= 3 {
      SextetsRemainder(b[3..]);
      assert |Sextets(b)| == |Sextets(b[3..])| + 4;
      assert (|b[3..]| + 3) % 3 == |b[3..]| % 3;
      assert (|Sextets(b[3..])| + 4) % 4 == |Sextets(b[3..])| % 4;
    }
  }

  /** The alphabet characters of the input, without padding. */
  function EncodeCore(b: seq<byte>): string {
    Chars(Sextets(b))
  }

  function Padding(n: nat): string {
    if n % 3 == 1 then "==" else if n % 3 == 2 then "=" else ""
  }

  /** The padding fills the last group up to four characters. */
  lemma PaddingFills(n: nat, m: int)
    requires m % 4 == (if n % 3 == 0 then 0 else n % 3 + 1)
    ensures (m + |Padding(n)|) % 4 == 0
  {
    var q := m / 4;
    assert m == 4 * q + m % 4;
  }

  function Encode(b: seq<byte>): (s: string)
    ensures |s| % 4 == 0
  {
    SextetsRemainder(b);
    PaddingFills(|b|, |EncodeCore(b)|);
    EncodeCore(b) + Padding(|b|)
  }

  // ---------------------------------------------------------------------------
  // Forgiving decoding: ASCII white space is ignored, one or two trailing "="
  // are dropped when the length is a multiple of four, and then every
  // remaining character must be in the alphabet and the length must not be
  // one more than a multiple of four. Leftover bits of a partial group are
  // discarded.

  predicate IsAsciiWhitespace(c: char) {
    c == '\t' || c == '\n' || c == '\U{000C}' || c == '\r' || c == ' '
  }

  function RemoveAsciiWhitespace(s: string): (r: string)
    ensures |r| <= |s|
    decreases |s|
  {
    if |s| == 0 then ""
    else if IsAsciiWhitespace(s[0]) then RemoveAsciiWhitespace(s[1..])
    else [s[0]] + RemoveAsciiWhitespace(s[1..])
  }

  function DropPadding(s: string): string {
    if |s| % 4 != 0 then s
    else if Text.EndsWith(s, "==") then s[..|s| - 2]
    else if Text.EndsWith(s, "=") then s[..|s| - 1]
    else s
  }

  predicate AllAlphabet(s: string) {
    forall i :: 0 <= i < |s| ==> IsAlphabet(s[i])
  }

  /** Four sextets give three bytes; a final two or three give one or two,
      and the leftover low bits are discarded. A single leftover sextet,
      which decoding refuses, gives none. */
  function Bytes(vs: seq<sextet>): seq<byte>
    decreases |vs|
  {
    if |vs| < 2 then []
    else
      var v0, v1, v2 := vs[0] as int, vs[1] as int, if |vs| == 2 then 0 else vs[2] as int;
      if |vs| == 2 then [v0 * 4 + v1 / 16]
      else if |vs| == 3 then [v0 * 4 + v1 / 16, (v1 % 16) * 16 + v2 / 4]
      else [v0 * 4 + v1 / 16, (v1 % 16) * 16 + v2 / 4, (v2 % 4) * 64 + vs[3]] + Bytes(vs[4..])
  }

  function DecodeCore(s: string): seq<byte> {
    Bytes(Values(s))
  }

  function Decode(s: string): Result<seq<byte>, Failure> {
    var t := DropPadding(RemoveAsciiWhitespace(s));
    if |t| % 4 == 1 || !AllAlphabet(t) then Err(InvalidCharacter)
    else Ok(DecodeCore(t))
  }

  // ---------------------------------------------------------------------------
  // Binary strings and the two browser functions.

  /** `String.fromCharCode` applied to each byte. */
  function Latin1(b: seq<byte>): (s: string)
    ensures |s| == |b|
    ensures forall i :: 0 <= i < |s| ==> s[i] as int == b[i] && s[i] as int < 256
  {
    seq(|b|, i requires 0 <= i < |b| => b[i] as char)
  }

  predicate IsBinary(s: string) {
    forall i :: 0 <= i < |s| ==> s[i] as int < 256
  }

  /** `charCodeAt` of each character of a binary string. */
  function Codes(s: string): (b: seq<byte>)
    requires IsBinary(s)
    ensures |b| == |s|
    ensures forall i :: 0 <= i < |b| ==> b[i] == s[i] as int
  {
    seq(|s|, i requires 0 <= i < |s| => s[i] as int)
  }

  /** `btoa`: refuses a character above U+00FF, else base64 of the codes. */
  function Btoa(s: string): Result<string, Failure> {
    if IsBinary(s) then Ok(Encode(Codes(s))) else Err(InvalidCharacter)
  }

  /** `atob`: the decoded bytes as a binary string. */
  function Atob(s: string): (r: Result<string, Failure>)
    ensures r.Ok? ==> IsBinary(r.value)
  {
    match Decode(s)
    case Ok(b) => Ok(Latin1(b))
    case Err(e) => Err(e)
  }

  // ---------------------------------------------------------------------------
  // Round trip.

  /** The bit arithmetic of one full group: the four sextets of three bytes
      recombine into those bytes. */
  lemma GroupArithmetic(x: byte, y: byte, z: byte)
    ensures (x / 4) * 4 + ((x % 4) * 16 + y / 16) / 16 == x
    ensures (((x % 4) * 16 + y / 16) % 16) * 16 + ((y % 16) * 4 + z / 64) / 4 == y
    ensures (((y % 16) * 4 + z / 64) % 4) * 64 + z % 64 == z
  {
    assert ((x % 4) * 16 + y / 16) / 16 == x % 4;
    assert ((x % 4) * 16 + y / 16) % 16 == y / 16;
    assert ((y % 16) * 4 + z / 64) / 4 == y % 16;
    assert ((y % 16) * 4 + z / 64) % 4 == z / 64;
  }

  /** Recombining the sextets of bytes gives the bytes back. */
  lemma {:induction false} BytesSextets(b: seq<byte>)
    ensures Bytes(Sextets(b)) == b
    decreases |b|
  {
    if |b| == 1 {
      OneByte(b[0]);
      assert b == [b[0]];
    } else if |b| == 2 {
      TwoBytes(b[0], b[1]);
      assert b == [b[0], b[1]];
    } else if |b| >= 3 {
      BytesGroup(b[0], b[1], b[2], Sextets(b[3..]));
      BytesSextets(b[3..]);
      assert b == [b[0], b[1], b[2]] + b[3..];
    }
  }

  /** A final group of one byte. */
  lemma OneByte(x: byte)
    ensures Bytes(Sextets([x])) == [x]
  {
    assert Sextets([x]) == [x / 4, (x % 4) * 16];
  }

  /** A final group of two bytes. */
  lemma TwoBytes(x: byte, y: byte)
    ensures Bytes(Sextets([x, y])) == [x, y]
  {
    assert Sextets([x, y]) == [x / 4, (x % 4) * 16 + y / 16, (y % 16) * 4];
    GroupArithmetic(x, y, 0);
  }

  /** A full group of three bytes, followed by any sextets. */
  lemma BytesGroup(x: byte, y: byte, z: byte, rest: seq<sextet>)
    ensures Bytes([x / 4, (x % 4) * 16 + y / 16, (y % 16) * 4 + z / 64, z % 64] + rest)
         == [x, y, z] + Bytes(rest)
  {
    var vs := [x / 4, (x % 4) * 16 + y / 16, (y % 16) * 4 + z / 64, z % 64] + rest;
    assert vs[4..] == rest;
    GroupArithmetic(x, y, z);
  }

  lemma DecodeEncodeCore(b: seq<byte>)
    ensures DecodeCore(EncodeCore(b)) == b
  {
    ValuesChars(Sextets(b));
    BytesSextets(b);
  }

  lemma NoWhitespaceInEncoding(s: string)
    requires forall i :: 0 <= i < |s| ==> IsAlphabet(s[i]) || s[i] == '='
    ensures RemoveAsciiWhitespace(s) == s
    decreases |s|
  {
    if |s| > 0 {
      NoWhitespaceInEncoding(s[1..]);
      assert [s[0]] + s[1..] == s;
    }
  }

  /** Alphabet text followed by the padding a group remainder calls for:
      white-space removal keeps it, and dropping the padding gives the
      alphabet text back. */
  lemma CleanPadded(core: string, r: nat)
    requires AllAlphabet(core) && r < 3
    requires |core| % 4 == (if r == 0 then 0 else r + 1)
    ensures DropPadding(RemoveAsciiWhitespace(core + Padding(r))) == core
  {
    if r == 1 {
      assert Padding(r) == "==";
      CleanWith(core, "==");
    } else if r == 2 {
      assert Padding(r) == "=";
      CleanWith(core, "=");
    } else {
      assert Padding(r) == "";
      CleanWith(core, "");
    }
  }

  /** One padding at a time: white-space removal keeps it, then dropping it
      gives the alphabet text back. */
  lemma CleanWith(core: string, pad: string)
    requires AllAlphabet(core)
    requires pad == "" || pad == "=" || pad == "=="
    requires |core| % 4 == (if pad == "" then 0 else 4 - |pad|)
    ensures DropPadding(RemoveAsciiWhitespace(core + pad)) == core
  {
    PaddedHasNoWhitespace(core, pad);
    if pad == "==" {
      PaddedTwice(core);
    } else if pad == "=" {
      PaddedOnce(core);
    } else {
      PaddedNone(core);
    }
  }

  lemma PaddedHasNoWhitespace(core: string, pad: string)
    requires AllAlphabet(core)
    requires forall i :: 0 <= i < |pad| ==> pad[i] == '='
    ensures RemoveAsciiWhitespace(core + pad) == core + pad
  {
    var s := core + pad;
    forall i | 0 <= i < |s| ensures IsAlphabet(s[i]) || s[i] == '=' {
      if i < |core| { assert s[i] == core[i]; } else { assert s[i] == pad[i - |core|]; }
    }
    NoWhitespaceInEncoding(s);
  }

  lemma PaddedNone(core: string)
    requires AllAlphabet(core) && |core| % 4 == 0
    ensures DropPadding(core + "") == core
  {
    assert core + "" == core;
    assert |core| > 0 ==> IsAlphabet(core[|core| - 1]);
  }

  lemma PaddedTwice(core: string)
    requires AllAlphabet(core) && |core| % 4 == 2
    ensures DropPadding(core + "==") == core
  {
    var s := core + "==";
    assert Text.EndsWith(s, "==");
    assert s[..|s| - 2] == core;
  }

  lemma PaddedOnce(core: string)
    requires AllAlphabet(core) && |core| % 4 == 3
    ensures DropPadding(core + "=") == core
  {
    var s := core + "=";
    assert s[|s| - 2] == core[|core| - 1];
    assert !Text.EndsWith(s, "==");
    assert Text.EndsWith(s, "=");
    assert s[..|s| - 1] == core;
  }

  /** `atob` undoes base64 encoding, padding included. */
  lemma DecodeEncode(b: seq<byte>)
    ensures Decode(Encode(b)) == Ok(b)
  {
    var core := EncodeCore(b);
    var r := |b| % 3;
    SextetsRemainder(b);
    assert Padding(|b|) == Padding(r);
    CleanPadded(core, r);
    DecodeEncodeCore(b);
  }

  /** The binary string of any bytes is accepted by `btoa`, and `atob` gives
      it back: the encoding used for the stored database is lossless. */
  lemma AtobBtoa(b: seq<byte>)
    ensures Btoa(Latin1(b)) == Ok(Encode(b))
    ensures Atob(Encode(b)) == Ok(Latin1(b))
  {
    assert Codes(Latin1(b)) == b;
    DecodeEncode(b);
  }

  // ---------------------------------------------------------------------------
  // The two helpers of lib/db.ts, with their loops.

  /** `uint8ArrayToBase64`: builds the binary string one `fromCharCode` at a
      time, then hands it to `btoa`. */
  method Uint8ArrayToBase64(u8: array<byte>) returns (r: Result<string, Failure>)
    ensures r == Ok(Encode(u8[..]))
  {
    var bin := "";
    for i := 0 to u8.Length
      invariant bin == Latin1(u8[..i])
    {
      bin := bin + [u8[i] as char];
    }
    assert u8[..u8.Length] == u8[..];
    AtobBtoa(u8[..]);
    r := Btoa(bin);
  }

  /** `base64ToUint8Array`: `atob`, then each `charCodeAt` stored into a new
      `Uint8Array` (which keeps the value modulo 256). */
  method Base64ToUint8Array(text: string) returns (r: Result<array<byte>, Failure>)
    ensures r.Err? <==> Decode(text).Err?
    ensures r.Ok? ==> r.value[..] == Decode(text).value
  {
    var decoded := Atob(text);
    if decoded.Err? {
      return Err(decoded.error);
    }
    var bin := decoded.value;
    var u8 := new byte[|bin|];
    for i := 0 to |bin|
      invariant forall j :: 0 <= j < i ==> u8[j] == bin[j] as int
    {
      u8[i] := (bin[i] as int) % 256;
    }
    r := Ok(u8);
  }

  /** Encoding any byte array and decoding the text gives the same bytes. */
  method RoundTrip(u8: array<byte>) returns (back: array<byte>)
    ensures back[..] == u8[..]
  {
    var text := Uint8ArrayToBase64(u8);
    DecodeEncode(u8[..]);
    var decoded := Base64ToUint8Array(text.value);
    back := decoded.value;
  }
}
