/**
  PKCE string shaping of src/util.rs: `encode_base64` (the padded standard
  alphabet of section 4 of RFC 4648), `fix_base64_string` (its rewrite into
  the unpadded URL-safe alphabet of section 5 of RFC 4648),
  `generate_random_string` and `generate_code_challenge` (S256 of section
  4.2 of RFC 7636). The random bytes and the SHA-256 digest come in as
  values.
*/
module Base64Url {
  import opened Wrappers

  type byte = x: int | 0 <= x < 256

  /** A 6-bit group: an index into a 64-letter alphabet. */
  type Sextet = v: nat | v < 64

  /** 32 bytes: what `generate_random_string(32)` draws, and a SHA-256 digest. */
  type Bytes32 = d: seq<byte> | |d| == 32 witness seq(32, _ => 0)

  type Digest = Bytes32

  /** The 6-bit groups of section 4 of RFC 4648, without padding: each 3 bytes give 4 groups, a final 1 or 2 bytes give 2 or 3. */
  function Sextets(b: seq<byte>): (r: seq<Sextet>)
    decreases |b|
  {
    if |b| == 0 then []
    else if |b| == 1 then [Sextet0(b[0]), Sextet1(b[0], 0)]
    else if |b| == 2 then [Sextet0(b[0]), Sextet1(b[0], b[1]), Sextet2(b[1], 0)]
    else [Sextet0(b[0]), Sextet1(b[0], b[1]), Sextet2(b[1], b[2]), Sextet3(b[2])] + Sextets(b[3..])
  }

  /** `n` bytes give (4n+2)/3 sextets: four per full group of three, and two or three for a final one or two bytes. */
  lemma {:induction false} SextetsLength(b: seq<byte>)
    ensures |Sextets(b)| == (4 * |b| + 2) / 3
    decreases |b|
  {
    if |b| >= 3 {
      SextetsLength(b[3..]);
    }
  }

  /** The four sextets of a group of three bytes: the high six bits of the first, and so on. */
  function Sextet0(b0: byte): Sextet {
    b0 / 4
  }

  function Sextet1(b0: byte, b1: byte): Sextet {
    b0 % 4 * 16 + b1 / 16
  }

  function Sextet2(b1: byte, b2: byte): Sextet {
    b1 % 16 * 4 + b2 / 64
  }

  function Sextet3(b2: byte): Sextet {
    b2 % 64
  }

  /** The standard alphabet (Table 1 of RFC 4648). */
  function StdChar(v: Sextet): char
  {
    if v < 26 then ('A' as int + v) as char
    else if v < 52 then ('a' as int + v - 26) as char
    else if v < 62 then ('0' as int + v - 52) as char
    else if v == 62 then '+'
    else '/'
  }

  /** The URL- and filename-safe alphabet (Table 2 of RFC 4648). */
  function UrlChar(v: Sextet): (c: char)
    ensures IsUrlSafe(c)
  {
    if v < 62 then StdChar(v) else if v == 62 then '-' else '_'
  }

  /** `[A-Za-z0-9_-]` */
  predicate IsUrlSafe(c: char) {
    'A' <= c <= 'Z' || 'a' <= c <= 'z' || '0' <= c <= '9' || c == '-' || c == '_'
  }

  function StdChars(x: seq<Sextet>): string
  {
    if x == [] then [] else [StdChar(x[0])] + StdChars(x[1..])
  }

  function UrlChars(x: seq<Sextet>): (s: string)
    ensures |s| == |x| && forall i :: 0 <= i < |s| ==> IsUrlSafe(s[i])
  {
    if x == [] then [] else [UrlChar(x[0])] + UrlChars(x[1..])
  }

  /** `base64::engine::general_purpose::STANDARD.encode`: the groups in the standard alphabet, padded with `=` to a multiple of 4. */
  function Base64(b: seq<byte>): string {
    StdChars(Sextets(b)) + (if |b| % 3 == 1 then "==" else if |b| % 3 == 2 then "=" else "")
  }

  /** `s.replace(c, "")` */
  function RemoveAll(s: string, c: char): string {
    if s == [] then [] else (if s[0] == c then [] else [s[0]]) + RemoveAll(s[1..], c)
  }

  /** `s.replace(from, to)` for one-character patterns. */
  function ReplaceAll(s: string, from: char, to: char): string {
    if s == [] then [] else [if s[0] == from then to else s[0]] + ReplaceAll(s[1..], from, to)
  }

  /** `fix_base64_string`: three successive replacements. */
  function FixBase64String(s: string): string {
    ReplaceAll(ReplaceAll(RemoveAll(s, '='), '+', '-'), '/', '_')
  }

  /** The one-pass reading of `fix_base64_string`: drop `=`, turn `+` into `-` and `/` into `_`, keep the rest in order. */
  function UrlSafeOf(s: string): string {
    if s == [] then []
    else if s[0] == '=' then UrlSafeOf(s[1..])
    else [if s[0] == '+' then '-' else if s[0] == '/' then '_' else s[0]] + UrlSafeOf(s[1..])
  }

  /** The three replacements of `fix_base64_string` amount to the one-pass rewrite. */
  lemma {:induction false} FixIsOnePass(s: string)
    ensures FixBase64String(s) == UrlSafeOf(s)
  {
    if s != [] {
      FixIsOnePass(s[1..]);
      var t := RemoveAll(s[1..], '=');
      if s[0] != '=' {
        var c := if s[0] == '+' then '-' else s[0];
        assert RemoveAll(s, '=') == [s[0]] + t;
        assert ([s[0]] + t)[0] == s[0] && ([s[0]] + t)[1..] == t;
        var u := ReplaceAll(t, '+', '-');
        assert ReplaceAll([s[0]] + t, '+', '-') == [c] + u;
        assert ([c] + u)[0] == c && ([c] + u)[1..] == u;
        assert ReplaceAll([c] + u, '/', '_') == [if c == '/' then '_' else c] + ReplaceAll(u, '/', '_');
      } else {
        assert RemoveAll(s, '=') == [] + t == t;
      }
    }
  }

  lemma {:induction false} UrlSafeOfAppend(a: string, b: string)
    ensures UrlSafeOf(a + b) == UrlSafeOf(a) + UrlSafeOf(b)
  {
    if a == [] {
      assert a + b == b;
    } else {
      assert (a + b)[0] == a[0] && (a + b)[1..] == a[1..] + b;
      UrlSafeOfAppend(a[1..], b);
    }
  }

  /** The output of `fix_base64_string` holds no `=`, `+` or `/`. */
  lemma {:induction false} FixRemovesSpecials(s: string)
    ensures '=' !in FixBase64String(s) && '+' !in FixBase64String(s) && '/' !in FixBase64String(s)
  {
    FixIsOnePass(s);
    UrlSafeOfClean(s);
  }

  lemma {:induction false} UrlSafeOfClean(s: string)
    ensures '=' !in UrlSafeOf(s) && '+' !in UrlSafeOf(s) && '/' !in UrlSafeOf(s)
  {
    if s != [] {
      UrlSafeOfClean(s[1..]);
    }
  }

  /** Fixing twice is fixing once. */
  lemma {:induction false} FixIdempotent(s: string)
    ensures FixBase64String(FixBase64String(s)) == FixBase64String(s)
  {
    FixIsOnePass(s);
    FixIsOnePass(UrlSafeOf(s));
    UrlSafeOfIdempotent(s);
  }

  lemma {:induction false} UrlSafeOfIdempotent(s: string)
    ensures UrlSafeOf(UrlSafeOf(s)) == UrlSafeOf(s)
  {
    if s != [] {
      UrlSafeOfIdempotent(s[1..]);
    }
  }

  /** Fixing the standard letters of some groups gives their URL-safe letters. */
  lemma {:induction false} UrlSafeOfStd(x: seq<Sextet>)
    ensures UrlSafeOf(StdChars(x)) == UrlChars(x)
  {
    if x != [] {
      UrlSafeOfStd(x[1..]);
      assert StdChars(x) == [StdChar(x[0])] + StdChars(x[1..]);
      UrlSafeOfAppend([StdChar(x[0])], StdChars(x[1..]));
    }
  }

  /** `fix_base64_string(encode_base64(b))` is the unpadded base64url encoding of `b`. */
  lemma FixedIsBase64Url(b: seq<byte>)
    ensures FixBase64String(Base64(b)) == UrlChars(Sextets(b))
  {
    var pad := if |b| % 3 == 1 then "==" else if |b| % 3 == 2 then "=" else "";
    FixIsOnePass(Base64(b));
    UrlSafeOfAppend(StdChars(Sextets(b)), pad);
    UrlSafeOfStd(Sextets(b));
    assert "="[1..] == [] && UrlSafeOf("=") == [];
    assert "=="[1..] == "=";
    assert UrlSafeOf(pad) == [];
  }

  /** `generate_random_string`: the drawn bytes (`generate_random_u8_array(size)`) in base64url without padding. */
  function GenerateRandomString(random: seq<byte>): string {
    FixBase64String(Base64(random))
  }

  /** `generate_code_challenge`: S256, the base64url of the SHA-256 digest of the verifier. */
  function GenerateCodeChallenge(sha256: string -> Digest, codeVerifier: string): string {
    FixBase64String(Base64(sha256(codeVerifier)))
  }

  /** Index of a character in the URL-safe alphabet. */
  function UrlIndex(c: char): (r: Option<Sextet>)
    ensures r.Some? <==> IsUrlSafe(c)
    ensures r.Some? ==> UrlChar(r.value) == c
  {
    if 'A' <= c <= 'Z' then Some(c as int - 'A' as int)
    else if 'a' <= c <= 'z' then Some(c as int - 'a' as int + 26)
    else if '0' <= c <= '9' then Some(c as int - '0' as int + 52)
    else if c == '-' then Some(62)
    else if c == '_' then Some(63)
    else None
  }

  function UrlIndices(s: string): (r: Option<seq<Sextet>>)
    ensures r.Some? ==> |r.value| == |s|
  {
    if s == [] then Some([])
    else match (UrlIndex(s[0]), UrlIndices(s[1..]))
      case (Some(v), Some(rest)) => Some([v] + rest)
      case _ => None
  }

  /** The 6-bit groups back to bytes. */
  function SextetsToBytes(x: seq<Sextet>): Option<seq<byte>>
  {
    if |x| == 0 then Some([])
    else if |x| == 1 then None
    else if |x| == 2 then Some([Byte0(x[0], x[1])])
    else if |x| == 3 then Some([Byte0(x[0], x[1]), Byte1(x[1], x[2])])
    else match SextetsToBytes(x[4..])
      case None => None
      case Some(rest) => Some([Byte0(x[0], x[1]), Byte1(x[1], x[2]), Byte2(x[2], x[3])] + rest)
  }

  /** The bytes of a group of sextets: the first from the first six and two bits, and so on. */
  function Byte0(v0: Sextet, v1: Sextet): byte {
    v0 as int * 4 + v1 as int / 16
  }

  function Byte1(v1: Sextet, v2: Sextet): byte {
    v1 as int % 16 * 16 + v2 as int / 4
  }

  function Byte2(v2: Sextet, v3: Sextet): byte {
    v2 as int % 4 * 64 + v3 as int
  }

  /** Decoding of unpadded base64url (section 5 of RFC 4648). */
  function Base64UrlDecode(s: string): Option<seq<byte>> {
    match UrlIndices(s)
    case None => None
    case Some(x) => SextetsToBytes(x)
  }

  lemma {:induction false} IndicesOfUrlChars(x: seq<Sextet>)
    ensures UrlIndices(UrlChars(x)) == Some(x)
  {
    if x != [] {
      IndicesOfUrlChars(x[1..]);
      assert UrlChars(x)[1..] == UrlChars(x[1..]);
      assert [x[0]] + x[1..] == x;
    }
  }

  /** The bytes of a group come back from its sextets. */
  lemma ByteGroup(b0: byte, b1: byte, b2: byte)
    ensures Byte0(Sextet0(b0), Sextet1(b0, b1)) == b0
    ensures Byte1(Sextet1(b0, b1), Sextet2(b1, b2)) == b1
    ensures Byte2(Sextet2(b1, b2), Sextet3(b2)) == b2
  {
  }

  lemma {:induction false} SextetsRoundTrip(b: seq<byte>)
    ensures SextetsToBytes(Sextets(b)) == Some(b)
    decreases |b|
  {
    if |b| >= 3 {
      SextetsRoundTrip(b[3..]);
      GroupRoundTrip(b);
    } else if |b| == 2 {
      assert b == [b[0], b[1]];
      PairRoundTrip(b[0], b[1]);
    } else if |b| == 1 {
      assert b == [b[0]];
      SingleRoundTrip(b[0]);
    }
  }

  /** A final byte comes back from its two sextets. */
  lemma SingleRoundTrip(b0: byte)
    ensures SextetsToBytes(Sextets([b0])) == Some([b0])
  {
    var x := Sextets([b0]);
    assert x == [Sextet0(b0), Sextet1(b0, 0)];
    assert SextetsToBytes(x) == Some([Byte0(x[0], x[1])]);
    ByteGroup(b0, 0, 0);
    assert Byte0(x[0], x[1]) == b0;
  }

  /** Two final bytes come back from their three sextets. */
  lemma PairRoundTrip(b0: byte, b1: byte)
    ensures SextetsToBytes(Sextets([b0, b1])) == Some([b0, b1])
  {
    var x := Sextets([b0, b1]);
    assert x == [Sextet0(b0), Sextet1(b0, b1), Sextet2(b1, 0)];
    assert SextetsToBytes(x) == Some([Byte0(x[0], x[1]), Byte1(x[1], x[2])]);
    ByteGroup(b0, b1, 0);
    assert Byte0(x[0], x[1]) == b0 && Byte1(x[1], x[2]) == b1;
  }

  /** A group of three bytes comes back from its four sextets, ahead of whatever the rest decodes to. */
  lemma GroupRoundTrip(b: seq<byte>)
    requires |b| >= 3 && SextetsToBytes(Sextets(b[3..])) == Some(b[3..])
    ensures SextetsToBytes(Sextets(b)) == Some(b)
  {
    SextetsOfGroup(b);
    GroupDecodes(b[0], b[1], b[2], Sextets(b[3..]), b[3..]);
    ThreeAhead(b);
  }

  /** Three or more bytes are the first three ahead of the rest. */
  lemma ThreeAhead(b: seq<byte>)
    requires |b| >= 3
    ensures b == [b[0], b[1], b[2]] + b[3..]
  {
  }

  /** Three or more bytes: the four sextets of the first three ahead of the sextets of the rest. */
  lemma SextetsOfGroup(b: seq<byte>)
    requires |b| >= 3
    ensures Sextets(b) == [Sextet0(b[0]), Sextet1(b[0], b[1]), Sextet2(b[1], b[2]), Sextet3(b[2])] + Sextets(b[3..])
  {
  }

  /** The four sextets of three bytes, ahead of sextets that decode to `rest`, decode to those bytes ahead of `rest`. */
  lemma GroupDecodes(b0: byte, b1: byte, b2: byte, y: seq<Sextet>, rest: seq<byte>)
    requires SextetsToBytes(y) == Some(rest)
    ensures SextetsToBytes([Sextet0(b0), Sextet1(b0, b1), Sextet2(b1, b2), Sextet3(b2)] + y) == Some([b0, b1, b2] + rest)
  {
    var x := [Sextet0(b0), Sextet1(b0, b1), Sextet2(b1, b2), Sextet3(b2)] + y;
    assert x[4..] == y;
    assert x[0] == Sextet0(b0) && x[1] == Sextet1(b0, b1) && x[2] == Sextet2(b1, b2) && x[3] == Sextet3(b2);
    DecodeGroup(x, rest);
    ByteGroup(b0, b1, b2);
  }

  /** Four or more sextets decode to the bytes of the first four ahead of the decoding of the rest. */
  lemma DecodeGroup(x: seq<Sextet>, rest: seq<byte>)
    requires |x| >= 4 && SextetsToBytes(x[4..]) == Some(rest)
    ensures SextetsToBytes(x) == Some([Byte0(x[0], x[1]), Byte1(x[1], x[2]), Byte2(x[2], x[3])] + rest)
  {
  }

  /** The random string decodes back to the drawn bytes: `generate_random_string` loses nothing. */
  lemma RandomStringDecodes(random: seq<byte>)
    ensures Base64UrlDecode(GenerateRandomString(random)) == Some(random)
  {
    FixedIsBase64Url(random);
    IndicesOfUrlChars(Sextets(random));
    SextetsRoundTrip(random);
  }

  /** The random string is made of `[A-Za-z0-9_-]` and has ceil(4n/3) characters for n bytes. */
  lemma RandomStringShape(random: seq<byte>)
    ensures forall i :: 0 <= i < |GenerateRandomString(random)| ==> IsUrlSafe(GenerateRandomString(random)[i])
    ensures |GenerateRandomString(random)| == (4 * |random| + 2) / 3
  {
    FixedIsBase64Url(random);
    SextetsLength(random);
  }

  /** From 32 drawn bytes, a 43-character verifier or state, within the 43..128 of section 4.1 of RFC 7636. */
  lemma RandomString32(random: seq<byte>)
    requires |random| == 32
    ensures |GenerateRandomString(random)| == 43
  {
    RandomStringShape(random);
  }

  /** The challenge is 43 URL-safe characters, and two verifiers give the same challenge only if their digests coincide. */
  lemma ChallengeShape(sha256: string -> Digest, v: string)
    ensures |GenerateCodeChallenge(sha256, v)| == 43
    ensures forall i :: 0 <= i < 43 ==> IsUrlSafe(GenerateCodeChallenge(sha256, v)[i])
  {
    RandomStringShape(sha256(v));
  }

  lemma ChallengeBinding(sha256: string -> Digest, v1: string, v2: string)
    requires GenerateCodeChallenge(sha256, v1) == GenerateCodeChallenge(sha256, v2)
    ensures sha256(v1) == sha256(v2)
  {
    RandomStringDecodes(sha256(v1));
    RandomStringDecodes(sha256(v2));
  }
}
