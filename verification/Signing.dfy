/** Signed cookie values (pkg/encryption/utils.go), session tickets
    (pkg/sessions/persistence/ticket.go) and the OAuth state parameter (oauthproxy.go). */
module Signing {
  import opened Text
  import Base64Url

  /** HMAC-SHA256, uninterpreted: any function from a seed and a message to a number, of which the 256
      low bits are the digest. */
  type Mac = (string, string) -> nat

  const DIGEST_LENGTH := 32

  /** The low bytes of a number, most significant first. */
  function Digest(n: nat, length: nat): (s: string)
    ensures |s| == length && IsBytes(s)
  {
    if length == 0 then [] else Digest(n / 256, length - 1) + [(n % 256) as char]
  }

  const FIVE_MINUTES := 300 * SECOND

  /** `now.Unix()`: whole seconds, rounded down. */
  function Unix(now: int): (unix: int)
    ensures unix * SECOND <= now < (unix + 1) * SECOND
  {
    now / SECOND
  }

  /** The arguments after the seed are written to the hash one after the other, with nothing
      between them. */
  function CookieSignature(mac: Mac, seed: string, args: seq<string>): string {
    Base64Url.EncodeToString(Digest(mac(seed, Concat(args)), DIGEST_LENGTH), true)
  }

  function Concat(args: seq<string>): string {
    if args == [] then [] else args[0] + Concat(args[1..])
  }

  predicate CheckHmac(input: string, expected: string) {
    var i, e := Base64Url.DecodeString(input, true), Base64Url.DecodeString(expected, true);
    i.ok && e.ok && i.data == e.data
  }

  function SignedValue(mac: Mac, seed: string, key: string, value: string, now: int): string
    requires IsBytes(value)
  {
    var encoded := Base64Url.EncodeToString(value, true);
    var time := FormatInt(Unix(now));
    encoded + "|" + time + "|" + CookieSignature(mac, seed, [key, encoded, time])
  }

  /** The window a signed time has to lie in; the clock is read once for each bound. */
  predicate InWindow(unix: int, expiration: int, now1: int, now2: int) {
    expiration == 0 || now1 - expiration < unix * SECOND < now2 + FIVE_MINUTES
  }

  datatype Signed = Signed(value: string, unix: int)

  function Validate(mac: Mac, name: string, cookieValue: string, seed: string,
                    expiration: int, now1: int, now2: int): Option<Signed> {
    var parts := Split(cookieValue, '|');
    if |parts| != 3 then None
    else if !CheckHmac(parts[2], CookieSignature(mac, seed, [name, parts[0], parts[1]])) then None
    else match Atoi(parts[1])
      case None => None
      case Some(unix) =>
        var decoded := Base64Url.DecodeString(parts[0], true);
        if InWindow(unix, expiration, now1, now2) && decoded.ok then Some(Signed(decoded.data, unix)) else None
  }

  lemma FormatIntAlphabet(n: int)
    ensures forall i :: 0 <= i < |FormatInt(n)| ==> FormatInt(n)[i] == '-' || IsDigit(FormatInt(n)[i])
  {
  }

  /** A value signed at any time is accepted under the same key exactly when its second lies in the
      window, and then comes back byte for byte with that second; otherwise nothing comes back. */
  lemma ValidateSigned(mac: Mac, seed: string, key: string, value: string, signedAt: int,
                       expiration: int, now1: int, now2: int)
    requires IsBytes(value) && INT64_MIN <= Unix(signedAt) <= INT64_MAX
    ensures Validate(mac, key, SignedValue(mac, seed, key, value, signedAt), seed, expiration, now1, now2)
            == if InWindow(Unix(signedAt), expiration, now1, now2) then Some(Signed(value, Unix(signedAt))) else None
  {
    var encoded := Base64Url.EncodeToString(value, true);
    var time := FormatInt(Unix(signedAt));
    var digest := Digest(mac(seed, Concat([key, encoded, time])), DIGEST_LENGTH);
    var sig := CookieSignature(mac, seed, [key, encoded, time]);
    Base64Url.EncodedAlphabet(value, true);
    Base64Url.EncodedAlphabet(digest, true);
    FormatIntAlphabet(Unix(signedAt));
    SplitThree(encoded, time, sig, '|');
    assert SignedValue(mac, seed, key, value, signedAt) == encoded + ['|'] + time + ['|'] + sig;
    Base64Url.RoundTrip(digest, true);
    Base64Url.RoundTrip(value, true);
    AtoiOfFormatInt(Unix(signedAt));
  }

  /** The cookie value is `value|time|signature`, and its signature is the MAC of the cookie's name, the
      value and the time. */
  predicate IsSigned(mac: Mac, name: string, cookieValue: string, seed: string,
                     value: string, time: string, signature: string) {
    && '|' !in value && '|' !in time && '|' !in signature
    && cookieValue == value + "|" + time + "|" + signature
    && Base64Url.DecodeString(signature, true) == Base64Url.Decoded(Digest(mac(seed, name + value + time), 32), true)
  }

  /** The time is a whole second within the window: not as old as the expiration, unless that is zero,
      and less than five minutes ahead. */
  predicate IsCurrent(time: string, unix: int, expiration: int, now1: int, now2: int) {
    && Atoi(time) == Some(unix)
    && (expiration != 0 ==> now1 - expiration < unix * 1_000_000_000 < now2 + 5 * 60 * 1_000_000_000)
  }

  /** Of all cookie values, exactly those are accepted that carry the MAC of their own text and a
      current time, and the value returned is the one they encode. */
  lemma ValidateIsExact(mac: Mac, name: string, cookieValue: string, seed: string,
                        expiration: int, now1: int, now2: int, r: Signed)
    ensures Validate(mac, name, cookieValue, seed, expiration, now1, now2) == Some(r) <==>
            exists value, time, signature :: IsSigned(mac, name, cookieValue, seed, value, time, signature)
                                             && IsCurrent(time, r.unix, expiration, now1, now2)
                                             && Base64Url.DecodeString(value, true) == Base64Url.Decoded(r.value, true)
  {
    var p := Split(cookieValue, '|');
    SplitsInThree(cookieValue, '|');
    if |p| == 3 {
      SignatureDecodes(mac, seed, name, p[0], p[1]);
      assert cookieValue == p[0] + "|" + p[1] + "|" + p[2];
    }
    hide Split, CookieSignature, Base64Url.DecodeString, Atoi;
    if |p| == 3 && Validate(mac, name, cookieValue, seed, expiration, now1, now2) == Some(r) {
      assert IsSigned(mac, name, cookieValue, seed, p[0], p[1], p[2]);
    }
    forall value, time, signature | IsSigned(mac, name, cookieValue, seed, value, time, signature)
      ensures p == [value, time, signature]
    {
      assert cookieValue == value + ['|'] + time + ['|'] + signature;
      SplitThree(value, time, signature, '|');
    }
  }

  lemma SignatureDecodes(mac: Mac, seed: string, name: string, value: string, time: string)
    ensures Base64Url.DecodeString(CookieSignature(mac, seed, [name, value, time]), true)
            == Base64Url.Decoded(Digest(mac(seed, name + value + time), 32), true)
  {
    calc {
      Concat([name, value, time]);
      name + Concat([value, time]);
      name + (value + Concat([time]));
      { assert Concat([time]) == time + Concat([]) == time; }
      name + (value + time);
      name + value + time;
    }
    Base64Url.RoundTrip(Digest(mac(seed, name + value + time), 32), true);
  }

  function Pow256(k: nat): nat {
    if k == 0 then 1 else 256 * Pow256(k - 1)
  }

  /** A digest keeps all of a number that fits its length. */
  lemma {:induction false} DigestInjective(m: nat, n: nat, length: nat)
    requires m < Pow256(length) && n < Pow256(length) && Digest(m, length) == Digest(n, length)
    ensures m == n
  {
    if length > 0 {
      var x, y := Digest(m, length), Digest(n, length);
      assert x[..length - 1] == Digest(m / 256, length - 1) && y[..length - 1] == Digest(n / 256, length - 1);
      assert x[length - 1] == (m % 256) as char && y[length - 1] == (n % 256) as char;
      DigestInjective(m / 256, n / 256, length - 1);
    }
  }

  // ----- tickets -----

  datatype Ticket = Ticket(id: string, secret: string)

  function EncodeTicket(t: Ticket): string
    requires IsBytes(t.id) && IsBytes(t.secret)
  {
    "v2." + Base64Url.EncodeToString(t.id, false) + "." + Base64Url.EncodeToString(t.secret, false)
  }

  function DecodeTicketID(parts: seq<string>): Option<string> {
    if |parts| == 2 then Some(parts[0])
    else if |parts| == 3 && parts[0] == "v2" then
      var d := Base64Url.DecodeString(parts[1], false);
      if d.ok then Some(d.data) else None
    else None
  }

  function DecodeTicketSecret(parts: seq<string>): Option<string> {
    if |parts| == 2 || (|parts| == 3 && parts[0] == "v2") then
      var d := Base64Url.DecodeString(parts[|parts| - 1], false);
      if d.ok then Some(d.data) else None
    else None
  }

  function DecodeTicket(encoded: string): Option<Ticket> {
    var parts := Split(encoded, '.');
    match (DecodeTicketID(parts), DecodeTicketSecret(parts))
    case (Some(id), Some(secret)) => Some(Ticket(id, secret))
    case _ => None
  }

  /** Every ticket survives encoding, whatever its id and secret contain. */
  lemma DecodeEncodedTicket(t: Ticket)
    requires IsBytes(t.id) && IsBytes(t.secret)
    ensures DecodeTicket(EncodeTicket(t)) == Some(t)
  {
    var id, secret := Base64Url.EncodeToString(t.id, false), Base64Url.EncodeToString(t.secret, false);
    Base64Url.EncodedAlphabet(t.id, false);
    Base64Url.EncodedAlphabet(t.secret, false);
    assert EncodeTicket(t) == "v2" + ['.'] + id + ['.'] + secret;
    hide Base64Url.EncodeToString, Base64Url.DecodeString, EncodeTicket, Split;
    SplitThree("v2", id, secret, '.');
    Base64Url.RoundTrip(t.id, false);
    Base64Url.RoundTrip(t.secret, false);
  }

  /** Two-part tickets of earlier releases keep their plain id, as long as it has no dot. */
  lemma DecodeLegacyTicket(t: Ticket)
    requires IsBytes(t.secret) && '.' !in t.id
    ensures DecodeTicket(t.id + "." + Base64Url.EncodeToString(t.secret, false)) == Some(t)
  {
    var secret := Base64Url.EncodeToString(t.secret, false);
    Base64Url.EncodedAlphabet(t.secret, false);
    assert t.id + "." + secret == t.id + ['.'] + secret;
    SplitFirst(t.id, '.', secret);
    SplitWithout(secret, '.');
    Base64Url.RoundTrip(t.secret, false);
  }

  /** Two parts are a plain id and a secret, three a "v2" and both encoded. */
  predicate IsTicket(encoded: string, t: Ticket, id: string, secret: string) {
    && '.' !in id && '.' !in secret && Base64Url.DecodeString(secret, false) == Base64Url.Decoded(t.secret, true)
    && (|| (encoded == id + "." + secret && t.id == id)
        || (encoded == "v2." + id + "." + secret && Base64Url.DecodeString(id, false) == Base64Url.Decoded(t.id, true)))
  }

  /** Of all strings, exactly those of the two forms are tickets, and of the ticket they spell out. */
  lemma DecodeTicketIsExact(encoded: string, t: Ticket)
    ensures DecodeTicket(encoded) == Some(t) <==> exists id, secret :: IsTicket(encoded, t, id, secret)
  {
    var p := Split(encoded, '.');
    SplitsInThree(encoded, '.');
    SplitsInTwo(encoded, '.');
    hide Split, Base64Url.DecodeString;
    if DecodeTicket(encoded) == Some(t) {
      if |p| == 3 {
        assert encoded == "v2" + ['.'] + p[1] + ['.'] + p[2] == "v2." + p[1] + "." + p[2];
        assert IsTicket(encoded, t, p[1], p[2]);
      } else {
        assert IsTicket(encoded, t, p[0], p[1]);
      }
    }
    forall id, secret | IsTicket(encoded, t, id, secret)
      ensures DecodeTicket(encoded) == Some(t)
    {
      if encoded == id + "." + secret && t.id == id {
        assert encoded == id + ['.'] + secret;
        SplitTwo(id, secret, '.');
      } else {
        assert encoded == "v2" + ['.'] + id + ['.'] + secret;
        SplitThree("v2", id, secret, '.');
      }
    }
  }

  /** The value `ticket.makeCookie` puts in the ticket cookie, and what `decodeTicketFromRequest`
      makes of a cookie value. */
  function TicketCookieValue(mac: Mac, seed: string, name: string, t: Ticket, now: int): string
    requires IsBytes(t.id) && IsBytes(t.secret)
  {
    EncodedTicketIsBytes(t);
    SignedValue(mac, seed, name, EncodeTicket(t), now)
  }

  lemma EncodedTicketIsBytes(t: Ticket)
    requires IsBytes(t.id) && IsBytes(t.secret)
    ensures IsBytes(EncodeTicket(t))
  {
    Base64Url.EncodedAlphabet(t.id, false);
    Base64Url.EncodedAlphabet(t.secret, false);
    hide Base64Url.EncodeToString;
  }

  function DecodeTicketCookie(mac: Mac, seed: string, name: string, cookieValue: string,
                              expiration: int, now1: int, now2: int): Option<Ticket> {
    match Validate(mac, name, cookieValue, seed, expiration, now1, now2)
    case None => None
    case Some(signed) => DecodeTicket(signed.value)
  }

  /** A request that brings back the ticket cookie names the same ticket for exactly as long as the
      signature's second is in the window. */
  lemma TicketCookieRoundTrip(mac: Mac, seed: string, name: string, t: Ticket, signedAt: int,
                              expiration: int, now1: int, now2: int)
    requires IsBytes(t.id) && IsBytes(t.secret) && INT64_MIN <= Unix(signedAt) <= INT64_MAX
    ensures DecodeTicketCookie(mac, seed, name, TicketCookieValue(mac, seed, name, t, signedAt), expiration, now1, now2)
            == if InWindow(Unix(signedAt), expiration, now1, now2) then Some(t) else None
  {
    EncodedTicketIsBytes(t);
    ValidateSigned(mac, seed, name, EncodeTicket(t), signedAt, expiration, now1, now2);
    DecodeEncodedTicket(t);
  }

  // ----- the OAuth state parameter -----

  function EncodeState(nonce: string, redirect: string, encode: bool): string
    requires IsBytes(nonce) && IsBytes(redirect)
  {
    var raw := nonce + ":" + redirect;
    if encode then Base64Url.EncodeToString(raw, false) else raw
  }

  /** A decoding error is ignored: what was decoded before it is parsed. */
  function DecodeState(state: string, encode: bool): Option<(string, string)> {
    Cut(if encode then Base64Url.DecodeString(state, false).data else state, ':')
  }

  /** The state comes back as the nonce and the redirect it was made of, although the redirect may
      itself contain colons. */
  lemma DecodeEncodedState(nonce: string, redirect: string, encode: bool)
    requires IsBytes(nonce) && IsBytes(redirect) && ':' !in nonce
    ensures DecodeState(EncodeState(nonce, redirect, encode), encode) == Some((nonce, redirect))
  {
    var raw := nonce + ":" + redirect;
    assert raw == nonce + [':'] + redirect;
    CutAtFirst(nonce, ':', redirect);
    if encode {
      Base64Url.RoundTrip(raw, false);
    }
  }
}
