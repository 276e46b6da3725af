/**
 `base64url_to_base64` (token_utils.c:123-146): turns the URL-safe alphabet of
 section 5 of RFC 4648 back into the standard alphabet of its section 4 and
 restores the `=` padding that compact tokens omit.
 */
module Base64Url {

  /** Number of `=` appended to a string of `n` characters, `(4 - n % 4) % 4`. */
  function PadCount(n: nat): (pad: nat)
    ensures pad <= 3
    ensures (n + pad) % 4 == 0
    ensures pad == 0 <==> n % 4 == 0
  {
    (4 - n % 4) % 4
  }

  /** One character of the URL-safe alphabet in the standard alphabet. */
  function StdChar(c: char): char {
    if c == '-' then '+' else if c == '_' then '/' else c
  }

  /** One character of the standard alphabet in the URL-safe alphabet. */
  function UrlChar(c: char): char {
    if c == '+' then '-' else if c == '/' then '_' else c
  }

  function Base64UrlToBase64(b64url: string): (b64: string)
    ensures |b64| == |b64url| + PadCount(|b64url|)
    ensures |b64| % 4 == 0
    ensures forall i :: 0 <= i < |b64url| ==>
              b64[i] == (if b64url[i] == '-' then '+' else if b64url[i] == '_' then '/' else b64url[i])
    ensures forall i :: |b64url| <= i < |b64| ==> b64[i] == '='
    ensures '-' !in b64 && '_' !in b64
  {
    seq(|b64url|, i requires 0 <= i < |b64url| => StdChar(b64url[i]))
      + seq(PadCount(|b64url|), _ => '=')
  }

  /** The output is already standard and padded, so converting it again changes nothing. */
  lemma Base64UrlToBase64Idempotent(s: string)
    ensures Base64UrlToBase64(Base64UrlToBase64(s)) == Base64UrlToBase64(s)
  {
    var b := Base64UrlToBase64(s);
    var b' := Base64UrlToBase64(b);
    assert PadCount(|b|) == 0;
    forall i | 0 <= i < |b|
      ensures b'[i] == b[i]
    {
      assert b[i] in b;
    }
  }

  /** Drops every trailing `=`. */
  function StripPadding(s: string): (r: string)
    ensures r <= s
    ensures |r| == 0 || r[|r| - 1] != '='
    ensures forall i :: |r| <= i < |s| ==> s[i] == '='
  {
    if |s| > 0 && s[|s| - 1] == '=' then StripPadding(s[..|s| - 1]) else s
  }

  /** The reverse conversion, standard padded base64 back to unpadded base64url. */
  function Base64ToBase64Url(b64: string): string {
    var body := StripPadding(b64);
    seq(|body|, i requires 0 <= i < |body| => UrlChar(body[i]))
  }

  /**
   For any string over the URL-safe alphabet (no `+`, `/` or `=`), the reverse
   conversion recovers it: the rewrite loses nothing and adds only padding.
   */
  lemma Base64UrlRoundTrip(s: string)
    requires '+' !in s && '/' !in s && '=' !in s
    ensures Base64ToBase64Url(Base64UrlToBase64(s)) == s
  {
    var b := Base64UrlToBase64(s);
    var body := StripPadding(b);
    if |s| > 0 {
      assert s[|s| - 1] in s;
      assert b[|s| - 1] != '=';
    }
    assert |body| == |s|;
    forall i | 0 <= i < |s|
      ensures UrlChar(body[i]) == s[i]
    {
      assert s[i] in s;
    }
  }
}
