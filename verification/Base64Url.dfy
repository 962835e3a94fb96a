/** The URL-safe base64 alphabet of section 5 of RFC 4648, with and without padding, as Go's
    `base64.URLEncoding` and `base64.RawURLEncoding` implement it. */
module Base64Url {
  import opened Text

  predicate InAlphabet(c: char) {
    'A' <= c <= 'Z' || 'a' <= c <= 'z' || '0' <= c <= '9' || c == '-' || c == '_'
  }

  /** The character of a 6-bit group. */
  function Char64(v: nat): (c: char)
    requires v < 64
    ensures InAlphabet(c)
  {
    if v < 26 then 'A' + v as char
    else if v < 52 then 'a' + (v - 26) as char
    else if v < 62 then '0' + (v - 52) as char
    else if v == 62 then '-'
    else '_'
  }

  function Value64(c: char): (v: nat)
    requires InAlphabet(c)
    ensures v < 64
  {
    if 'A' <= c <= 'Z' then c as int - 'A' as int
    else if 'a' <= c <= 'z' then c as int - 'a' as int + 26
    else if '0' <= c <= '9' then c as int - '0' as int + 52
    else if c == '-' then 62
    else 63
  }

  lemma Value64OfChar64(v: nat)
    requires v < 64
    ensures Value64(Char64(v)) == v
  {
  }

  // ----- one quantum: up to three bytes in two to four characters -----

  function Encode1(x: nat): (s: string)
    requires x < 256
    ensures |s| == 2 && forall i :: 0 <= i < |s| ==> InAlphabet(s[i])
  {
    [Char64(x / 4), Char64(x % 4 * 16)]
  }

  function Encode2(x: nat, y: nat): (s: string)
    requires x < 256 && y < 256
    ensures |s| == 3 && forall i :: 0 <= i < |s| ==> InAlphabet(s[i])
  {
    [Char64(x / 4), Char64(x % 4 * 16 + y / 16), Char64(y % 16 * 4)]
  }

  function Encode3(x: nat, y: nat, z: nat): (s: string)
    requires x < 256 && y < 256 && z < 256
    ensures |s| == 4 && forall i :: 0 <= i < |s| ==> InAlphabet(s[i])
  {
    [Char64(x / 4), Char64(x % 4 * 16 + y / 16), Char64(y % 16 * 4 + z / 64), Char64(z % 64)]
  }

  function Byte1(a: char, b: char): (x: nat)
    requires InAlphabet(a) && InAlphabet(b)
    ensures x < 256
  {
    Value64(a) * 4 + Value64(b) / 16
  }

  function Byte2(b: char, c: char): (y: nat)
    requires InAlphabet(b) && InAlphabet(c)
    ensures y < 256
  {
    Value64(b) % 16 * 16 + Value64(c) / 4
  }

  function Byte3(c: char, d: char): (z: nat)
    requires InAlphabet(c) && InAlphabet(d)
    ensures z < 256
  {
    Value64(c) % 4 * 64 + Value64(d)
  }

  function Decode3(a: char, b: char, c: char, d: char): (data: string)
    requires InAlphabet(a) && InAlphabet(b) && InAlphabet(c) && InAlphabet(d)
    ensures |data| == 3 && IsBytes(data)
  {
    [Byte1(a, b) as char, Byte2(b, c) as char, Byte3(c, d) as char]
  }

  function Decode2(a: char, b: char, c: char): (data: string)
    requires InAlphabet(a) && InAlphabet(b) && InAlphabet(c)
    ensures |data| == 2 && IsBytes(data)
  {
    [Byte1(a, b) as char, Byte2(b, c) as char]
  }

  function Decode1(a: char, b: char): (data: string)
    requires InAlphabet(a) && InAlphabet(b)
    ensures |data| == 1 && IsBytes(data)
  {
    [Byte1(a, b) as char]
  }

  lemma BytesOfEncode3(x: nat, y: nat, z: nat)
    requires x < 256 && y < 256 && z < 256
    ensures var s := Encode3(x, y, z);
            Byte1(s[0], s[1]) == x && Byte2(s[1], s[2]) == y && Byte3(s[2], s[3]) == z
  {
    Value64OfChar64(x / 4);
    Value64OfChar64(x % 4 * 16 + y / 16);
    Value64OfChar64(y % 16 * 4 + z / 64);
    Value64OfChar64(z % 64);
    hide Char64, Value64, InAlphabet;
  }

  lemma Encode3Decodes(x: nat, y: nat, z: nat)
    requires x < 256 && y < 256 && z < 256
    ensures var s := Encode3(x, y, z); Decode3(s[0], s[1], s[2], s[3]) == [x as char, y as char, z as char]
  {
    BytesOfEncode3(x, y, z);
    hide Byte1, Byte2, Byte3, Encode3, InAlphabet;
  }

  lemma Encode2Decodes(x: nat, y: nat)
    requires x < 256 && y < 256
    ensures var s := Encode2(x, y); Decode2(s[0], s[1], s[2]) == [x as char, y as char]
  {
    Value64OfChar64(x / 4);
    Value64OfChar64(x % 4 * 16 + y / 16);
    Value64OfChar64(y % 16 * 4);
  }

  lemma Encode1Decodes(x: nat)
    requires x < 256
    ensures var s := Encode1(x); Decode1(s[0], s[1]) == [x as char]
  {
    Value64OfChar64(x / 4);
    Value64OfChar64(x % 4 * 16);
  }

  // ----- whole strings -----

  function EncodeToString(data: string, padded: bool): string
    requires IsBytes(data)
  {
    if |data| == 0 then []
    else if |data| == 1 then Encode1(data[0] as int) + (if padded then "==" else "")
    else if |data| == 2 then Encode2(data[0] as int, data[1] as int) + (if padded then "=" else "")
    else Encode3(data[0] as int, data[1] as int, data[2] as int) + EncodeToString(data[3..], padded)
  }

  /** What `DecodeString` returns: the bytes of every quantum before the first bad one, and whether
      there was no bad one. */
  datatype Decoded = Decoded(data: string, ok: bool)

  /** Go skips line breaks wherever they occur. */
  function StripLineBreaks(s: string): string {
    if s == [] then []
    else if s[0] == '\r' || s[0] == '\n' then StripLineBreaks(s[1..])
    else [s[0]] + StripLineBreaks(s[1..])
  }

  predicate StartsInAlphabet(s: string, n: nat) {
    n <= |s| && forall i :: 0 <= i < n ==> InAlphabet(s[i])
  }

  /** The last quantum holds two bytes: three characters, and one `=` when padded. */
  predicate EndsWith2Bytes(s: string, padded: bool) {
    StartsInAlphabet(s, 3) && s[3..] == if padded then "=" else ""
  }

  /** The last quantum holds one byte: two characters, and `==` when padded. */
  predicate EndsWith1Byte(s: string, padded: bool) {
    StartsInAlphabet(s, 2) && s[2..] == if padded then "==" else ""
  }

  function DecodeQuanta(s: string, padded: bool): Decoded {
    if s == [] then Decoded([], true)
    else if StartsInAlphabet(s, 4) then
      var rest := DecodeQuanta(s[4..], padded);
      Decoded(Decode3(s[0], s[1], s[2], s[3]) + rest.data, rest.ok)
    else if EndsWith2Bytes(s, padded) then
      Decoded(Decode2(s[0], s[1], s[2]), true)
    else if EndsWith1Byte(s, padded) then
      Decoded(Decode1(s[0], s[1]), true)
    else Decoded([], false)
  }

  function DecodeString(s: string, padded: bool): Decoded {
    DecodeQuanta(StripLineBreaks(s), padded)
  }

  // ----- what the rest of the proxy relies on -----

  /** Encoded text uses only the alphabet and, when padded, `=`: so it never contains the cookie
      separator `|`, the ticket separator `.` or the state separator `:`. */
  lemma {:induction false} EncodedAlphabet(data: string, padded: bool)
    requires IsBytes(data)
    ensures forall i :: 0 <= i < |EncodeToString(data, padded)| ==>
                          var c := EncodeToString(data, padded)[i]; InAlphabet(c) || (padded && c == '=')
    ensures IsBytes(EncodeToString(data, padded))
  {
    if 3 <= |data| {
      EncodedAlphabet(data[3..], padded);
    }
  }

  /** Unpadded text has four characters for three bytes, rounded up. */
  lemma {:induction false} RawLength(data: string)
    requires IsBytes(data)
    ensures |EncodeToString(data, false)| == (|data| * 4 + 2) / 3
  {
    if 3 <= |data| {
      RawLength(data[3..]);
    }
  }

  lemma {:induction false} StripLineBreaksKeeps(s: string)
    requires '\r' !in s && '\n' !in s
    ensures StripLineBreaks(s) == s
  {
    if s != [] {
      StripLineBreaksKeeps(s[1..]);
    }
  }

  lemma DecodeFullQuantum(q: string, rest: string, padded: bool)
    requires |q| == 4 && StartsInAlphabet(q, 4)
    ensures var d := DecodeQuanta(rest, padded);
            DecodeQuanta(q + rest, padded)
            == Decoded(Decode3(q[0], q[1], q[2], q[3]) + d.data, d.ok)
  {
    assert (q + rest)[4..] == rest;
    assert StartsInAlphabet(q + rest, 4);
  }

  lemma DecodeLastQuantum(q: string, padded: bool)
    requires 2 <= |q| <= 3 && StartsInAlphabet(q, |q|)
    ensures |q| == 3 ==> DecodeQuanta(q + (if padded then "=" else ""), padded)
                         == Decoded(Decode2(q[0], q[1], q[2]), true)
    ensures |q| == 2 ==> DecodeQuanta(q + (if padded then "==" else ""), padded)
                         == Decoded(Decode1(q[0], q[1]), true)
  {
    assert !InAlphabet('=');
    var s := q + (if padded then "=" else "");
    assert |q| == 3 ==> s[3..] == if padded then "=" else "";
    var r := q + (if padded then "==" else "");
    assert |q| == 2 ==> r[2..] == if padded then "==" else "";
    assert |q| == 2 && padded ==> r[2] == '=';
  }

  lemma DecodeStep(data: string, padded: bool)
    requires IsBytes(data) && 3 <= |data|
    requires DecodeQuanta(EncodeToString(data[3..], padded), padded) == Decoded(data[3..], true)
    ensures DecodeQuanta(EncodeToString(data, padded), padded) == Decoded(data, true)
  {
    var x, y, z := data[0] as int, data[1] as int, data[2] as int;
    hide DecodeQuanta, Decode3, Encode3;
    var q := Encode3(x, y, z);
    Encode3Decodes(x, y, z);
    DecodeFullQuantum(q, EncodeToString(data[3..], padded), padded);
    calc {
      DecodeQuanta(EncodeToString(data, padded), padded);
      Decoded(Decode3(q[0], q[1], q[2], q[3]) + data[3..], true);
      Decoded([data[0], data[1], data[2]] + data[3..], true);
      { assert data == [data[0], data[1], data[2]] + data[3..]; }
      Decoded(data, true);
    }
  }

  lemma DecodeLast(data: string, padded: bool)
    requires IsBytes(data) && 1 <= |data| <= 2
    ensures DecodeQuanta(EncodeToString(data, padded), padded) == Decoded(data, true)
  {
    if |data| == 1 {
      Encode1Decodes(data[0] as int);
      DecodeLastQuantum(Encode1(data[0] as int), padded);
    } else {
      Encode2Decodes(data[0] as int, data[1] as int);
      DecodeLastQuantum(Encode2(data[0] as int, data[1] as int), padded);
    }
  }

  lemma {:induction false} DecodeQuantaOfEncode(data: string, padded: bool)
    requires IsBytes(data)
    ensures DecodeQuanta(EncodeToString(data, padded), padded) == Decoded(data, true)
  {
    if 3 <= |data| {
      DecodeQuantaOfEncode(data[3..], padded);
      DecodeStep(data, padded);
    } else if 1 <= |data| {
      DecodeLast(data, padded);
    }
  }

  /** Decoding undoes encoding, padded or not, for every byte string. */
  lemma RoundTrip(data: string, padded: bool)
    requires IsBytes(data)
    ensures DecodeString(EncodeToString(data, padded), padded) == Decoded(data, true)
  {
    EncodedAlphabet(data, padded);
    StripLineBreaksKeeps(EncodeToString(data, padded));
    DecodeQuantaOfEncode(data, padded);
  }

  /** A decoder only ever returns bytes. */
  lemma {:induction false} DecodedIsBytes(s: string, padded: bool)
    ensures IsBytes(DecodeQuanta(s, padded).data)
    decreases |s|
  {
    if s != [] && StartsInAlphabet(s, 4) {
      DecodedIsBytes(s[4..], padded);
    }
  }

  // ----- what a decoder accepts -----

  lemma Char64OfValue64(c: char)
    requires InAlphabet(c)
    ensures Char64(Value64(c)) == c
  {
  }

  lemma BytesReencode(a: char, b: char, c: char, d: char)
    requires InAlphabet(a) && InAlphabet(b) && InAlphabet(c) && InAlphabet(d)
    ensures Encode3(Byte1(a, b), Byte2(b, c), Byte3(c, d)) == [a, b, c, d]
  {
    Char64OfValue64(a);
    Char64OfValue64(b);
    Char64OfValue64(c);
    Char64OfValue64(d);
    hide Char64, Value64, InAlphabet;
    var x, y, z := Byte1(a, b), Byte2(b, c), Byte3(c, d);
    assert x / 4 == Value64(a) && x % 4 * 16 + y / 16 == Value64(b);
    assert y % 16 * 4 + z / 64 == Value64(c) && z % 64 == Value64(d);
  }

  /** A decoded quantum is encoded as it was, but for spare bits. */
  lemma Decode3Encodes(a: char, b: char, c: char, d: char)
    requires InAlphabet(a) && InAlphabet(b) && InAlphabet(c) && InAlphabet(d)
    ensures var x := Decode3(a, b, c, d); Encode3(x[0] as int, x[1] as int, x[2] as int) == [a, b, c, d]
  {
    BytesReencode(a, b, c, d);
    hide Byte1, Byte2, Byte3, Encode3;
  }

  lemma Decode2Encodes(a: char, b: char, c: char)
    requires InAlphabet(a) && InAlphabet(b) && InAlphabet(c)
    ensures var x := Decode2(a, b, c); Encode2(x[0] as int, x[1] as int)[..2] == [a, b]
  {
    BytesReencode(a, b, c, c);
    hide Byte1, Byte2, Byte3, Char64;
  }

  lemma Decode1Encodes(a: char, b: char)
    requires InAlphabet(a) && InAlphabet(b)
    ensures var x := Decode1(a, b); Encode1(x[0] as int)[..1] == [a]
  {
    BytesReencode(a, b, b, b);
    hide Byte1, Byte2, Byte3, Char64;
  }

  /** The texts differ at most in the last character of the alphabet. */
  predicate SameButLast(e: string, s: string) {
    |e| == |s| && forall i :: 0 <= i < |s| && e[i] != s[i] ==>
                                InAlphabet(s[i]) && InAlphabet(e[i]) && (i + 1 == |s| || s[i + 1] == '=')
  }

  /** `n` equal characters, one that may differ, and the padding. */
  lemma SameUpTo(e: string, s: string, n: nat)
    requires |e| == |s| && n < |s| && e[..n] == s[..n] && e[n + 1..] == s[n + 1..]
    requires InAlphabet(s[n]) && InAlphabet(e[n]) && (n + 1 == |s| || s[n + 1] == '=')
    ensures SameButLast(e, s)
  {
    hide InAlphabet;
    forall i | 0 <= i < |s| && i != n
      ensures e[i] == s[i]
    {
      if i < n {
        assert e[..n][i] == s[..n][i];
      } else {
        assert e[n + 1..][i - n - 1] == s[n + 1..][i - n - 1];
      }
    }
  }

  lemma EncodeFirst(x: string, rest: string, padded: bool)
    requires |x| == 3 && IsBytes(x) && IsBytes(rest)
    ensures IsBytes(x + rest)
    ensures EncodeToString(x + rest, padded)
            == Encode3(x[0] as int, x[1] as int, x[2] as int) + EncodeToString(rest, padded)
  {
    var data := x + rest;
    assert data[0] == x[0] && data[1] == x[1] && data[2] == x[2] && data[3..] == rest;
  }

  lemma SameButLastAfter(q: string, e: string, s: string)
    requires SameButLast(e, s)
    ensures SameButLast(q + e, q + s)
  {
    hide InAlphabet;
    forall i | 0 <= i < |q + s| && (q + e)[i] != (q + s)[i]
      ensures |q| <= i && e[i - |q|] != s[i - |q|]
    {
    }
  }

  lemma FirstReencodes(s: string, rest: string, padded: bool)
    requires StartsInAlphabet(s, 4) && IsBytes(rest) && SameButLast(EncodeToString(rest, padded), s[4..])
    ensures var data := Decode3(s[0], s[1], s[2], s[3]) + rest;
            && IsBytes(data) && SameButLast(EncodeToString(data, padded), s)
            && (EncodeToString(rest, padded) == s[4..] ==> EncodeToString(data, padded) == s)
  {
    hide Decode3, Encode3, InAlphabet, EncodeToString, SameButLast;
    Decode3Encodes(s[0], s[1], s[2], s[3]);
    EncodeFirst(Decode3(s[0], s[1], s[2], s[3]), rest, padded);
    SameButLastAfter([s[0], s[1], s[2], s[3]], EncodeToString(rest, padded), s[4..]);
    assert s == [s[0], s[1], s[2], s[3]] + s[4..];
  }

  lemma EncodeTwo(x: string, padded: bool)
    requires |x| == 2 && IsBytes(x)
    ensures EncodeToString(x, padded) == Encode2(x[0] as int, x[1] as int) + if padded then "=" else ""
  {
    hide Encode1, Encode2, Encode3;
  }

  lemma EncodeOne(x: string, padded: bool)
    requires |x| == 1 && IsBytes(x)
    ensures EncodeToString(x, padded) == Encode1(x[0] as int) + if padded then "==" else ""
  {
    hide Encode1, Encode2, Encode3;
  }

  /** `e` and the start of `s` agree on `n` characters, one follows in each, and the same tail. */
  lemma TailsAgree(e: string, s: string, tail: string, n: nat)
    requires |e| == n + 1 <= |s| && e[..n] == s[..n] && s[n + 1..] == tail
    requires InAlphabet(s[n]) && InAlphabet(e[n]) && (tail == [] || tail[0] == '=')
    ensures SameButLast(e + tail, s)
  {
    hide InAlphabet, SameButLast;
    var t := e + tail;
    assert t[..n] == e[..n] && t[n] == e[n] && t[n + 1..] == tail;
    SameUpTo(t, s, n);
  }

  lemma TwoBytesReencode(s: string, padded: bool)
    requires EndsWith2Bytes(s, padded)
    ensures SameButLast(EncodeToString(Decode2(s[0], s[1], s[2]), padded), s)
  {
    hide Decode2, Encode2, EncodeToString, InAlphabet, SameButLast;
    var x := Decode2(s[0], s[1], s[2]);
    Decode2Encodes(s[0], s[1], s[2]);
    EncodeTwo(x, padded);
    assert s[..2] == [s[0], s[1]];
    TailsAgree(Encode2(x[0] as int, x[1] as int), s, if padded then "=" else "", 2);
  }

  lemma OneByteReencodes(s: string, padded: bool)
    requires EndsWith1Byte(s, padded)
    ensures SameButLast(EncodeToString(Decode1(s[0], s[1]), padded), s)
  {
    hide Decode1, Encode1, EncodeToString, InAlphabet, SameButLast;
    var x := Decode1(s[0], s[1]);
    Decode1Encodes(s[0], s[1]);
    EncodeOne(x, padded);
    assert s[..1] == [s[0]];
    TailsAgree(Encode1(x[0] as int), s, if padded then "==" else "", 1);
  }

  /** A text that decodes is the encoding of what it decodes to, but for spare bits in its last character
      when the bytes do not fill the last quantum: nothing else is accepted. */
  lemma {:induction false} DecodedReencodes(s: string, padded: bool)
    requires DecodeQuanta(s, padded).ok
    ensures IsBytes(DecodeQuanta(s, padded).data)
    ensures SameButLast(EncodeToString(DecodeQuanta(s, padded).data, padded), s)
    ensures |DecodeQuanta(s, padded).data| % 3 == 0 ==> EncodeToString(DecodeQuanta(s, padded).data, padded) == s
    decreases |s|
  {
    hide Decode1, Decode2, Decode3, SameButLast, InAlphabet, EncodeToString;
    if s == [] {
      EmptyIsSame(padded);
    } else if StartsInAlphabet(s, 4) {
      DecodedReencodes(s[4..], padded);
      FirstReencodes(s, DecodeQuanta(s[4..], padded).data, padded);
    } else if EndsWith2Bytes(s, padded) {
      TwoBytesReencode(s, padded);
    } else {
      OneByteReencodes(s, padded);
    }
  }

  lemma EmptyIsSame(padded: bool)
    ensures EncodeToString([], padded) == [] && SameButLast([], [])
  {
  }
}
