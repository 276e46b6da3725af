/**
 `validate_token` (oauth_validator.c:83-134): the composition of payload
 extraction, claim capture and scope checking into the result handed back to
 PostgreSQL. The required-scope string of the matching `pg_hba.conf` line
 (`MyProcPort->hba->oauth_scope`) is a parameter, as are the decoder and the
 JSON parser.
 */
module Validator {

  import opened Wrappers
  import opened Payload
  import opened Claims
  import opened Scopes

  /**
   What the host gets back. `Returned` carries the C function's return value,
   `res->authn_id` (a `Slot`: `NotSeen` is NULL, `Captured(s)` a copy of `s`)
   and `res->authorized`. `SentinelRead` is the case where the code goes on to
   read through the `(char *) 1` mark left in a slot: `pstrdup(sub)` at line 116
   or `split_scopes(scope)` at line 119. It records the line of that read and
   what `res->authn_id` holds when it happens.
   */
  datatype Verdict =
    | Returned(ret: bool, authnId: Slot, authorized: bool)
    | SentinelRead(line: nat, authnId: Slot)

  /** The failure shape of lines 96-97 left untouched: false, no identity, not authorized. */
  const Rejected: Verdict := Returned(false, NotSeen, false)

  function ValidateToken(token: Option<string>, role: string, hbaScope: string,
                         decode: Decoder, parse: JsonParser): (v: Verdict)
    ensures v.Returned? && v.authorized ==> v.ret
    ensures token.None? || multiset(token.value)['.'] < 2 ==> v == Rejected
    ensures ParseTokenPayload(token, decode).None? ==> v == Rejected
    ensures v.Returned? && v.ret ==> v.authnId.Captured? && SplitScopes(hbaScope) != []
    ensures v.Returned? && v.authnId.NotSeen? ==> v == Rejected
    ensures v.SentinelRead? ==> (v.line == 116 && v.authnId == NotSeen)
                                || (v.line == 119 && v.authnId.Captured?)
  {
    match ParseTokenPayload(token, decode)
    case None => Rejected
    case Some(payload) =>
      var fields := ExtractSubScopeFields(CString(payload), parse);
      if !fields.sub.Present() || !fields.scope.Present() then Rejected
      else if fields.sub.Marked? then SentinelRead(116, NotSeen)
      else if fields.scope.Marked? then SentinelRead(119, fields.sub)
      else
        var granted := SplitScopes(fields.scope.value);
        var required := SplitScopes(hbaScope);
        if granted == [] || required == [] then Returned(false, fields.sub, false)
        else Returned(true, fields.sub, CheckScopes(granted, required))
  }

  /** The callbacks the parser makes on the decoded payload of `token`. */
  ghost predicate PayloadEvents(token: Option<string>, decode: Decoder, parse: JsonParser, events: seq<Event>) {
    exists payload :: ParseTokenPayload(token, decode) == Some(payload)
                      && parse(CString(payload)).events == events
  }

  /**
   A token whose payload segment the decoder cannot decode (it reports a length
   of 0 or less) is refused with no identity, whatever the rest of the token is.
   */
  lemma DecodeFailureRejected(header: string, segment: string, rest: string, role: string,
                              hbaScope: string, decode: Decoder, parse: JsonParser)
    requires '.' !in header && '.' !in segment
    requires decode(Base64Url.Base64UrlToBase64(segment)).len <= 0
    ensures ValidateToken(Some(header + "." + segment + "." + rest), role, hbaScope, decode, parse) == Rejected
  {
    ParseTokenPayloadOfAssembled(header, segment, rest, decode);
  }

  /** A payload in which `sub` or `scope` never starts a field is refused with no identity. */
  lemma MissingFieldRejected(token: Option<string>, role: string, hbaScope: string,
                             decode: Decoder, parse: JsonParser, events: seq<Event>)
    requires PayloadEvents(token, decode, parse, events)
    requires FieldStart(SubName) !in events || FieldStart(ScopeName) !in events
    ensures ValidateToken(token, role, hbaScope, decode, parse) == Rejected
  {
  }

  /**
   Once both names have started a field, the call passes the missing-field test.
   If a scalar followed the last `sub` field start, the identity is that scalar,
   whatever the scopes say; if none did, the mark dangles and `pstrdup` reads
   through it at line 116 before any identity is set.
   */
  lemma IdentityIsSub(token: Option<string>, role: string, hbaScope: string,
                      decode: Decoder, parse: JsonParser, events: seq<Event>)
    requires PayloadEvents(token, decode, parse, events)
    requires FieldStart(SubName) in events && FieldStart(ScopeName) in events
    ensures ValidateToken(token, role, hbaScope, decode, parse) != Rejected
    ensures SubReference(events).Captured? ==>
              ValidateToken(token, role, hbaScope, decode, parse).authnId == SubReference(events)
    ensures SubReference(events).Marked? ==>
              ValidateToken(token, role, hbaScope, decode, parse) == SentinelRead(116, NotSeen)
  {
    SubSlotMatchesReference(events);
  }

  /**
   With both claims captured, the function returns true exactly when both scope
   strings hold a scope, and then `authorized` is multiset inclusion of the
   required scopes in the granted ones. The identity is set either way.
   */
  lemma ScopeDecision(token: Option<string>, role: string, hbaScope: string,
                      decode: Decoder, parse: JsonParser, sub: string, scope: string)
    requires exists payload :: ParseTokenPayload(token, decode) == Some(payload)
               && ExtractSubScopeFields(CString(payload), parse) == Fields(Captured(sub), Captured(scope))
    ensures var v := ValidateToken(token, role, hbaScope, decode, parse);
      && v.Returned?
      && v.authnId == Captured(sub)
      && (v.ret <==> SplitScopes(scope) != [] && SplitScopes(hbaScope) != [])
      && (v.ret ==> (v.authorized <==> multiset(SplitScopes(hbaScope)) <= multiset(SplitScopes(scope))))
      && (!v.ret ==> !v.authorized)
  {
  }

  /**
   An empty or all-space required-scope setting is refused at line 124, although
   `check_scopes` alone would accept an empty requirement.
   */
  lemma EmptyPolicyRefused(token: Option<string>, role: string, hbaScope: string,
                           decode: Decoder, parse: JsonParser, sub: string, scope: string)
    requires exists payload :: ParseTokenPayload(token, decode) == Some(payload)
               && ExtractSubScopeFields(CString(payload), parse) == Fields(Captured(sub), Captured(scope))
    requires forall i :: 0 <= i < |hbaScope| ==> hbaScope[i] == ' '
    ensures ValidateToken(token, role, hbaScope, decode, parse) == Returned(false, Captured(sub), false)
    ensures CheckScopes(SplitScopes(scope), SplitScopes(hbaScope))
  {
  }

  /** The role the client asks for never changes the verdict. */
  lemma RoleIgnored(token: Option<string>, role1: string, role2: string, hbaScope: string,
                    decode: Decoder, parse: JsonParser)
    ensures ValidateToken(token, role1, hbaScope, decode, parse)
         == ValidateToken(token, role2, hbaScope, decode, parse)
  {
  }

  /** Whether the parser reported an error never changes the verdict, only its callbacks do. */
  lemma ParseErrorIgnored(token: Option<string>, role: string, hbaScope: string,
                          decode: Decoder, parse1: JsonParser, parse2: JsonParser)
    requires forall json :: parse1(json).events == parse2(json).events
    ensures ValidateToken(token, role, hbaScope, decode, parse1)
         == ValidateToken(token, role, hbaScope, decode, parse2)
  {
  }

  /** The scope strings of the example below, split. */
  lemma ExampleScopes()
    ensures SplitScopes("read write") == ["read", "write"]
    ensures SplitScopes("read") == ["read"]
    ensures SplitScopes("admin") == ["admin"]
  {
    assert Join(["read", "write"]) == "read write" by {
      assert ["read", "write"][1..] == ["write"];
    }
    SplitJoinRoundTrip(["read", "write"]);
    SplitJoinRoundTrip(["read"]);
    SplitJoinRoundTrip(["admin"]);
  }

  /**
   A token `header.segment.signature` whose payload is `{"sub": "alice",
   "scope": "read write"}`: required `read` is authorized, required `admin` is
   not, and the identity is `alice` in both cases.
   */
  lemma AliceExample(header: string, segment: string, signature: string, role: string,
                     decode: Decoder, parse: JsonParser, payload: seq<char>)
    requires '.' !in header && '.' !in segment
    requires |payload| > 0 && decode(Base64Url.Base64UrlToBase64(segment)) == DecodeCall(|payload|, payload)
    requires parse(CString(payload)).events
          == [FieldStart(SubName), Scalar("alice"), FieldStart(ScopeName), Scalar("read write")]
    ensures var token := Some(header + "." + segment + "." + signature);
      ValidateToken(token, role, "read", decode, parse) == Returned(true, Captured("alice"), true)
    ensures var token := Some(header + "." + segment + "." + signature);
      ValidateToken(token, role, "admin", decode, parse) == Returned(true, Captured("alice"), false)
  {
    var token := Some(header + "." + segment + "." + signature);
    ParseTokenPayloadOfAssembled(header, segment, signature, decode);
    assert payload[..|payload|] == payload;
    assert ParseTokenPayload(token, decode) == Some(payload);
    PlainClaims("alice", "read write");
    assert ExtractSubScopeFields(CString(payload), parse) == Fields(Captured("alice"), Captured("read write"));
    ExampleScopes();
    ScopeDecision(token, role, "read", decode, parse, "alice", "read write");
    ScopeDecision(token, role, "admin", decode, parse, "alice", "read write");
    assert multiset(["admin"])["admin"] == 1;
    assert multiset(["read", "write"])["admin"] == 0;
  }

  /**
   `{"sub": "alice", "scope": []}`: the empty array gives `scope` no scalar, so
   its mark dangles, passes the NULL test at line 109 and is then read through
   at line 119 as if it were a string.
   */
  lemma DanglingScopeReadsSentinel(token: Option<string>, role: string, hbaScope: string,
                                   decode: Decoder, parse: JsonParser)
    requires PayloadEvents(token, decode, parse, [FieldStart(SubName), Scalar("alice"), FieldStart(ScopeName)])
    ensures ValidateToken(token, role, hbaScope, decode, parse) == SentinelRead(119, Captured("alice"))
    ensures ValidateTokenChecked(token, role, hbaScope, decode, parse) == Rejected
  {
    var a, b, c := FieldStart(SubName), Scalar("alice"), FieldStart(ScopeName);
    assert SubName != ScopeName;
    ReplayStep([], a);
    assert [] + [a] == [a];
    ReplayStep([a], b);
    assert [a] + [b] == [a, b];
    ReplayStep([a, b], c);
    assert [a, b] + [c] == [a, b, c];
  }

  /**
   `{"scope": "read", "sub": {}}`: the empty object gives `sub` no scalar, so its
   mark dangles and `pstrdup` reads through it at line 116, while `res->authn_id`
   is still NULL.
   */
  lemma DanglingSubReadsSentinel(token: Option<string>, role: string, hbaScope: string,
                                 decode: Decoder, parse: JsonParser)
    requires PayloadEvents(token, decode, parse, [FieldStart(ScopeName), Scalar("read"), FieldStart(SubName)])
    ensures ValidateToken(token, role, hbaScope, decode, parse) == SentinelRead(116, NotSeen)
    ensures ValidateTokenChecked(token, role, hbaScope, decode, parse) == Rejected
  {
  }

  /**
   `validate_token` with the test at line 109 reading "both slots hold a
   captured string" instead of "both slots are non-NULL": a dangling mark is
   then a missing field.
   */
  function ValidateTokenChecked(token: Option<string>, role: string, hbaScope: string,
                                decode: Decoder, parse: JsonParser): (v: Verdict)
    ensures v.Returned?
    ensures v.authorized ==> v.ret
    ensures v.authnId.Present() ==> v.authnId.Captured?
  {
    match ParseTokenPayload(token, decode)
    case None => Rejected
    case Some(payload) =>
      var fields := ExtractSubScopeFields(CString(payload), parse);
      if !fields.sub.Captured? || !fields.scope.Captured? then Rejected
      else
        var granted := SplitScopes(fields.scope.value);
        var required := SplitScopes(hbaScope);
        if granted == [] || required == [] then Returned(false, fields.sub, false)
        else Returned(true, fields.sub, CheckScopes(granted, required))
  }

  /**
   The correction changes nothing where the original returns normally, and
   turns every read through the sentinel into the missing-field refusal.
   */
  lemma CheckedAgreesWithOriginal(token: Option<string>, role: string, hbaScope: string,
                                  decode: Decoder, parse: JsonParser)
    ensures var v := ValidateToken(token, role, hbaScope, decode, parse);
      && (v.Returned? ==> ValidateTokenChecked(token, role, hbaScope, decode, parse) == v)
      && (v.SentinelRead? ==> ValidateTokenChecked(token, role, hbaScope, decode, parse) == Rejected)
  {
  }
}
