/**
 Compact-token payload extraction (`parse_token_payload` and `decode_base64`,
 token_utils.c:86-117 and 152-168). The base64 decoder `pg_b64_decode` is not
 part of this model: it is a parameter, a function from the padded standard
 base64 text to the length it reports and the bytes it wrote.
 */
module Payload {

  import opened Wrappers
  import opened Base64Url

  /** What `pg_b64_decode` reports: a length (-1 on failure) and the bytes it wrote. */
  datatype DecodeCall = DecodeCall(len: int, out: seq<char>)

  /** The decoder never reports more bytes than it wrote into the buffer. */
  type DecoderReply = d: DecodeCall | d.len <= |d.out| witness DecodeCall(-1, [])

  type Decoder = string -> DecoderReply

  /** `strchr(s + from, c)`: the first position at or after `from` that holds `c`. */
  function FindChar(s: string, c: char, from: nat): (r: Option<nat>)
    requires from <= |s|
    ensures r.Some? ==> from <= r.value < |s| && s[r.value] == c && c !in s[from..r.value]
    ensures r.None? ==> c !in s[from..]
    decreases |s| - from
  {
    if from == |s| then None
    else if s[from] == c then Some(from)
    else
      var r := FindChar(s, c, from + 1);
      assert r.Some? ==> s[from..r.value] == [s[from]] + s[from + 1..r.value];
      assert r.None? ==> s[from..] == [s[from]] + s[from + 1..];
      r
  }

  /** `FindChar` lands on the first occurrence. */
  lemma FindCharFirst(s: string, c: char, from: nat, k: nat)
    requires from <= k < |s| && s[k] == c && c !in s[from..k]
    ensures FindChar(s, c, from) == Some(k)
  {
    assert s[k] == s[from..][k - from];
  }

  /** `segment` sits strictly between the first `.` of `token`, at `dot1`, and the next one. */
  ghost predicate SegmentAt(token: string, dot1: nat, segment: string) {
    && dot1 + |segment| + 1 < |token|
    && '.' !in token[..dot1]
    && token[dot1] == '.'
    && token[dot1 + 1..dot1 + 1 + |segment|] == segment
    && token[dot1 + 1 + |segment|] == '.'
  }

  /**
   The encoded payload: the text strictly between the first two dots
   (token_utils.c:99-110). Dots after the second are not looked at.
   */
  function PayloadSegment(token: string): (r: Option<string>)
    ensures r.None? <==> multiset(token)['.'] < 2
    ensures r.Some? ==> '.' !in r.value && exists dot1 :: SegmentAt(token, dot1, r.value)
  {
    match FindChar(token, '.', 0)
    case None =>
      NoDotsCount(token);
      None
    case Some(dot1) =>
      match FindChar(token, '.', dot1 + 1)
      case None =>
        DotsAround(token, dot1, |token|);
        None
      case Some(dot2) =>
        var segment := token[dot1 + 1..dot2];
        DotsAround(token, dot1, dot2);
        assert SegmentAt(token, dot1, segment);
        Some(segment)
  }

  lemma NoDotsCount(s: string)
    requires '.' !in s
    ensures multiset(s)['.'] == 0
  {
  }

  /**
   With `dot1` the first dot and no dot in `(dot1, dot2)`, the part up to `dot2`
   holds exactly one dot; if `dot2` is a further dot the whole holds at least two.
   */
  lemma DotsAround(s: string, dot1: nat, dot2: nat)
    requires dot1 < dot2 <= |s|
    requires '.' !in s[..dot1] && s[dot1] == '.' && '.' !in s[dot1 + 1..dot2]
    ensures dot2 == |s| ==> multiset(s)['.'] == 1
    ensures dot2 < |s| && s[dot2] == '.' ==> multiset(s)['.'] >= 2
  {
    assert s[..dot2] == s[..dot1] + [s[dot1]] + s[dot1 + 1..dot2];
    assert multiset(s[..dot2])['.'] == 1;
    assert s == s[..dot2] + s[dot2..];
    if dot2 < |s| && s[dot2] == '.' {
      assert s[dot2..] == [s[dot2]] + s[dot2 + 1..];
    }
  }

  /** Whatever the header and the trailing text, the segment after the first dot is extracted. */
  lemma PayloadSegmentOfAssembled(header: string, segment: string, rest: string)
    requires '.' !in header && '.' !in segment
    ensures PayloadSegment(header + "." + segment + "." + rest) == Some(segment)
  {
    var token := header + "." + segment + "." + rest;
    var dot1 := |header|;
    assert token[dot1] == '.' && token[..dot1] == header;
    assert token[dot1 + 1..dot1 + 1 + |segment|] == segment;
    assert FindChar(token, '.', 0) == Some(dot1);
    FindCharFirst(token, '.', dot1 + 1, dot1 + 1 + |segment|);
  }

  /** `decode_base64`: NULL exactly when the decoder reports a length of zero or less. */
  function DecodeBase64(b64: string, decode: Decoder): (r: Option<seq<char>>)
    ensures r.None? <==> decode(b64).len <= 0
    ensures r.Some? ==> |r.value| == decode(b64).len && r.value <= decode(b64).out
  {
    var reply := decode(b64);
    if reply.len <= 0 then None else Some(reply.out[..reply.len])
  }

  /** `parse_token_payload`: NULL token, fewer than two dots or a failed decode give None. */
  function ParseTokenPayload(token: Option<string>, decode: Decoder): (r: Option<seq<char>>)
    ensures token.None? ==> r.None?
    ensures token.Some? && multiset(token.value)['.'] < 2 ==> r.None?
    ensures r.Some? ==> 0 < |r.value|
  {
    match token
    case None => None
    case Some(t) =>
      match PayloadSegment(t)
      case None => None
      case Some(segment) => DecodeBase64(Base64UrlToBase64(segment), decode)
  }

  /** For a token `h.p.rest`, the payload is what the decoder makes of `p` rewritten to base64. */
  lemma ParseTokenPayloadOfAssembled(header: string, segment: string, rest: string, decode: Decoder)
    requires '.' !in header && '.' !in segment
    ensures ParseTokenPayload(Some(header + "." + segment + "." + rest), decode)
         == DecodeBase64(Base64UrlToBase64(segment), decode)
  {
    PayloadSegmentOfAssembled(header, segment, rest);
  }

  /** The C string a byte buffer denotes: everything before its first NUL (`strlen`). */
  function CString(buf: seq<char>): (r: string)
    ensures r <= buf
    ensures '\0' !in r
    ensures |r| < |buf| ==> buf[|r|] == '\0'
  {
    if buf == [] || buf[0] == '\0' then []
    else
      var tail := CString(buf[1..]);
      assert [buf[0]] + tail <= buf;
      [buf[0]] + tail
  }
}
