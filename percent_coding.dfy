/**
  `urlencode` and `urldecode` of src/util.rs: percent-encoding in the manner
  of section 2.1 of RFC 3986, where only ASCII letters and digits pass
  through and every other character becomes `%` and two upper-case hex
  digits of its low byte.
*/
module PercentCoding {
  import opened Wrappers
  import opened Strings

  /** `char::is_ascii_alphanumeric` */
  predicate IsAsciiAlphanumeric(c: char) {
    'A' <= c <= 'Z' || 'a' <= c <= 'z' || '0' <= c <= '9'
  }

  /** A digit that `u8::from_str_radix(_, 16)` accepts. */
  predicate IsHexDigit(c: char) {
    '0' <= c <= '9' || 'a' <= c <= 'f' || 'A' <= c <= 'F'
  }

  function HexValue(c: char): (v: nat)
    requires IsHexDigit(c)
    ensures v < 16
  {
    if '0' <= c <= '9' then c as int - '0' as int
    else if 'a' <= c <= 'f' then c as int - 'a' as int + 10
    else c as int - 'A' as int + 10
  }

  /** The upper-case digit that `{:X}` prints for `d`. */
  function UpperHexDigit(d: nat): (c: char)
    requires d < 16
    ensures IsHexDigit(c) && HexValue(c) == d
    ensures '0' <= c <= '9' || 'A' <= c <= 'F'
  {
    if d < 10 then ('0' as int + d) as char else ('A' as int + d - 10) as char
  }

  /** `c as u8`: the low byte of the code point. */
  function LowByte(c: char): (b: nat)
    ensures b < 256
    ensures c as int < 256 ==> b == c as int
  {
    (c as int) % 256
  }

  /** What `urlencode` appends for one character. */
  function EscapeOf(c: char): (r: string)
    ensures IsAsciiAlphanumeric(c) ==> r == [c]
    ensures !IsAsciiAlphanumeric(c) ==>
      && |r| == 3 && r[0] == '%'
      && IsHexDigit(r[1]) && IsHexDigit(r[2])
      && (forall k | 1 <= k < 3 :: '0' <= r[k] <= '9' || 'A' <= r[k] <= 'F')
      && 16 * HexValue(r[1]) + HexValue(r[2]) == LowByte(c)
  {
    if IsAsciiAlphanumeric(c) then [c]
    else ['%', UpperHexDigit(LowByte(c) / 16), UpperHexDigit(LowByte(c) % 16)]
  }

  /** The text `urlencode(s)` returns. */
  function Encoded(s: string): string
  {
    if s == [] then [] else Encoded(s[..|s| - 1]) + EscapeOf(s[|s| - 1])
  }

  /** `urlencode`: a `for` loop over the characters that pushes onto `result`. */
  method UrlEncode(s: string) returns (result: string)
    ensures result == Encoded(s)
  {
    result := [];
    for i := 0 to |s|
      invariant result == Encoded(s[..i])
    {
      var c := s[i];
      if IsAsciiAlphanumeric(c) {
        result := result + [c];
      } else {
        var b := LowByte(c);
        result := result + ['%', UpperHexDigit(b / 16), UpperHexDigit(b % 16)];
      }
      assert s[..i + 1][..i] == s[..i];
    }
    assert s[..|s|] == s;
  }

  /**
    `u8::from_str_radix(hex, 16)` on the two characters after a `%`: two
    hex digits, or a `+` sign followed by one hex digit (Rust accepts a
    leading `+`); anything else is a parse error.
  */
  function HexPair(hi: char, lo: char): (r: Option<nat>)
    ensures r.Some? ==> r.value < 256
    ensures r.Some? ==> hi != '%' && lo != '%'
  {
    if IsHexDigit(hi) && IsHexDigit(lo) then Some(16 * HexValue(hi) + HexValue(lo))
    else if hi == '+' && IsHexDigit(lo) then Some(HexValue(lo))
    else None
  }

  function Prepend(p: string, o: Option<string>): Option<string> {
    match o
    case None => None
    case Some(t) => Some(p + t)
  }

  lemma PrependTwice(a: string, b: string, o: Option<string>)
    ensures Prepend(a, Prepend(b, o)) == Prepend(a + b, o)
  {
    if o.Some? {
      assert a + (b + o.value) == (a + b) + o.value;
    }
  }

  /**
    The text `urldecode(s)` returns, or None where it panics: a `%` closer
    than two characters to the end (the slice is out of range) or followed
    by two characters that do not parse as a byte (the `unwrap` fails).
  */
  function Decoded(s: string): Option<string>
  {
    if s == [] then Some([])
    else if s[0] != '%' then Prepend([s[0]], Decoded(s[1..]))
    else if |s| < 3 then None
    else match HexPair(s[1], s[2])
      case None => None
      case Some(b) => Prepend([b as char], Decoded(s[3..]))
  }

  /** `urldecode`: a `while` loop with a mutable index that pushes onto `result`. */
  method UrlDecode(s: string) returns (r: Option<string>)
    requires IsAscii(s)
    ensures r == Decoded(s)
  {
    var result := [];
    var i := 0;
    assert s[0..] == s;
    assert Decoded(s).Some? ==> [] + Decoded(s).value == Decoded(s).value;
    while i < |s|
      invariant 0 <= i <= |s|
      invariant Decoded(s) == Prepend(result, Decoded(s[i..]))
    {
      var c := s[i];
      if c == '%' {
        if |s| < i + 3 {
          return None;
        }
        var n := HexPair(s[i + 1], s[i + 2]);
        if n.None? {
          return None;
        }
        assert s[i..][3..] == s[i + 3..];
        PrependTwice(result, [n.value as char], Decoded(s[i + 3..]));
        result := result + [n.value as char];
        i := i + 3;
      } else {
        assert s[i..][1..] == s[i + 1..];
        PrependTwice(result, [c], Decoded(s[i + 1..]));
        result := result + [c];
        i := i + 1;
      }
    }
    assert s[i..] == [] && result + [] == result;
    return Some(result);
  }

  /** Every `%` is followed by two characters that parse as a byte. */
  predicate WellEscaped(s: string) {
    forall i :: 0 <= i < |s| && s[i] == '%' ==> i + 2 < |s| && HexPair(s[i + 1], s[i + 2]).Some?
  }

  /** `urldecode` returns (does not panic) exactly on well-escaped text. */
  lemma {:induction false} DecodedDefinedIff(s: string)
    ensures Decoded(s).Some? <==> WellEscaped(s)
    decreases |s|
  {
    if s == [] {
    } else if s[0] != '%' {
      DecodedDefinedIff(s[1..]);
      assert WellEscaped(s) <==> WellEscaped(s[1..]) by {
        if WellEscaped(s) {
          forall i | 0 <= i < |s[1..]| && s[1..][i] == '%'
            ensures i + 2 < |s[1..]| && HexPair(s[1..][i + 1], s[1..][i + 2]).Some?
          {
            assert s[i + 1] == '%';
          }
        }
        if WellEscaped(s[1..]) {
          forall i | 0 <= i < |s| && s[i] == '%'
            ensures i + 2 < |s| && HexPair(s[i + 1], s[i + 2]).Some?
          {
            assert s[1..][i - 1] == '%';
          }
        }
      }
    } else if |s| < 3 {
      assert !WellEscaped(s) by { assert s[0] == '%'; }
    } else if HexPair(s[1], s[2]).None? {
      assert !WellEscaped(s) by { assert s[0] == '%'; }
    } else {
      DecodedDefinedIff(s[3..]);
      assert s[1] != '%' && s[2] != '%';
      assert WellEscaped(s) <==> WellEscaped(s[3..]) by {
        if WellEscaped(s) {
          forall i | 0 <= i < |s[3..]| && s[3..][i] == '%'
            ensures i + 2 < |s[3..]| && HexPair(s[3..][i + 1], s[3..][i + 2]).Some?
          {
            assert s[i + 3] == '%';
          }
        }
        if WellEscaped(s[3..]) {
          forall i | 0 <= i < |s| && s[i] == '%'
            ensures i + 2 < |s| && HexPair(s[i + 1], s[i + 2]).Some?
          {
            if i >= 3 {
              assert s[3..][i - 3] == '%';
            }
          }
        }
      }
    }
  }

  /** Text without `%` decodes to itself. */
  lemma {:induction false} DecodedPlain(s: string)
    requires '%' !in s
    ensures Decoded(s) == Some(s)
    decreases |s|
  {
    if s != [] {
      assert s[0] in s;
      assert forall c :: c in s[1..] ==> c in s;
      DecodedPlain(s[1..]);
      assert [s[0]] + s[1..] == s;
    }
  }

  /** Decoding removes two characters per escape: `|result| == |s| - 2 * #'%'`. */
  lemma {:induction false} DecodedLength(s: string)
    requires Decoded(s).Some?
    ensures |Decoded(s).value| == |s| - 2 * PercentCount(s)
    decreases |s|
  {
    if s == [] {
    } else if s[0] != '%' {
      DecodedLength(s[1..]);
    } else {
      assert s[1] != '%' && s[2] != '%';
      assert PercentCount(s) == 1 + PercentCount(s[3..]) by {
        assert PercentCount(s[1..]) == PercentCount(s[2..]) == PercentCount(s[3..]) by {
          assert s[1..][1..] == s[2..];
          assert s[2..][1..] == s[3..];
        }
      }
      DecodedLength(s[3..]);
    }
  }

  function PercentCount(s: string): nat {
    if s == [] then 0 else (if s[0] == '%' then 1 else 0) + PercentCount(s[1..])
  }

  /** Encoding works character by character: it distributes over concatenation. */
  lemma {:induction false} EncodedAppend(a: string, b: string)
    ensures Encoded(a + b) == Encoded(a) + Encoded(b)
    decreases |b|
  {
    if b == [] {
      assert a + b == a;
    } else {
      var b' := b[..|b| - 1];
      assert (a + b)[..|a + b| - 1] == a + b';
      EncodedAppend(a, b');
    }
  }

  function AlnumCount(s: string): nat {
    if s == [] then 0 else (if IsAsciiAlphanumeric(s[0]) then 1 else 0) + AlnumCount(s[1..])
  }

  /** Output length is #alphanumeric + 3 * #other. */
  lemma {:induction false} EncodedLength(s: string)
    ensures |Encoded(s)| == AlnumCount(s) + 3 * (|s| - AlnumCount(s))
    decreases |s|
  {
    if s != [] {
      EncodedLength(s[1..]);
      EncodedAppend([s[0]], s[1..]);
      assert [s[0]] + s[1..] == s;
      assert Encoded([s[0]]) == EscapeOf(s[0]) by {
        assert [s[0]][..0] == [];
      }
    }
  }

  /** Encoded text contains only ASCII letters, digits, `%` and upper-case hex digits, and it is well-escaped. */
  lemma {:induction false} EncodedIsSafe(s: string)
    ensures forall i :: 0 <= i < |Encoded(s)| ==> IsAsciiAlphanumeric(Encoded(s)[i]) || Encoded(s)[i] == '%'
    ensures WellEscaped(Encoded(s)) && IsAscii(Encoded(s))
    ensures '&' !in Encoded(s) && '=' !in Encoded(s) && '?' !in Encoded(s)
  {
    assert Decoded(Encoded(s)).Some? by {
      EncodedAlphabet(s);
      if IsLatin1(s) {
        RoundTrip(s);
      } else {
        EncodedWellEscaped(s);
      }
    }
    DecodedDefinedIff(Encoded(s));
    EncodedAlphabet(s);
  }

  lemma {:induction false} EncodedAlphabet(s: string)
    ensures forall i :: 0 <= i < |Encoded(s)| ==> IsAsciiAlphanumeric(Encoded(s)[i]) || Encoded(s)[i] == '%'
    ensures IsAscii(Encoded(s))
    decreases |s|
  {
    if s != [] {
      EncodedAlphabet(s[..|s| - 1]);
    }
  }

  /** Encoding one character and then more text: the head of the encoding is that character's escape. */
  lemma EncodedCons(c: char, t: string)
    ensures Encoded([c] + t) == EscapeOf(c) + Encoded(t)
  {
    EncodedAppend([c], t);
    EncodedSingle(c);
  }

  /** One character encodes as its escape. */
  lemma EncodedSingle(c: char)
    ensures Encoded([c]) == EscapeOf(c)
  {
    assert [c][..0] == [];
    assert Encoded([c]) == Encoded([]) + EscapeOf(c);
  }

  /** Decoding the escape of one character yields that character (its low byte), then the rest. */
  lemma DecodedEscape(c: char, t: string)
    ensures Decoded(EscapeOf(c) + t) == Prepend([if IsAsciiAlphanumeric(c) then c else LowByte(c) as char], Decoded(t))
  {
    var e := EscapeOf(c);
    if IsAsciiAlphanumeric(c) {
      assert (e + t)[1..] == t;
    } else {
      assert (e + t)[3..] == t;
      assert (e + t)[1] == e[1] && (e + t)[2] == e[2];
      assert HexPair(e[1], e[2]) == Some(LowByte(c));
    }
  }

  lemma {:induction false} EncodedWellEscaped(s: string)
    ensures Decoded(Encoded(s)).Some?
    decreases |s|
  {
    if s != [] {
      EncodedWellEscaped(s[1..]);
      assert [s[0]] + s[1..] == s;
      EncodedCons(s[0], s[1..]);
      DecodedEscape(s[0], Encoded(s[1..]));
    }
  }

  /** `urldecode(urlencode(s)) == s` for every text whose characters fit in a byte. */
  lemma {:induction false} RoundTrip(s: string)
    requires IsLatin1(s)
    ensures Decoded(Encoded(s)) == Some(s)
    decreases |s|
  {
    if s != [] {
      assert IsLatin1(s[1..]);
      RoundTrip(s[1..]);
      assert [s[0]] + s[1..] == s;
      EncodedCons(s[0], s[1..]);
      DecodedEscape(s[0], Encoded(s[1..]));
    }
  }

  /** Text made of ASCII letters and digits passes through `urlencode` unchanged. */
  lemma {:induction false} EncodedAlphanumeric(s: string)
    requires forall i :: 0 <= i < |s| ==> IsAsciiAlphanumeric(s[i])
    ensures Encoded(s) == s
    decreases |s|
  {
    if s != [] {
      EncodedAlphanumeric(s[..|s| - 1]);
      assert s[..|s| - 1] + [s[|s| - 1]] == s;
    }
  }
}
