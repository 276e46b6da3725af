# OAuth bearer-token validator for PostgreSQL: token-inspection core in Dafny

This project models the part of the `oauth_validator` PostgreSQL module that
inspects a bearer token. It covers four steps:

- taking the payload out of a compact `header.payload.signature` token and
  rewriting it from base64url to padded base64 (`parse_token_payload`,
  `base64url_to_base64`, `decode_base64`);
- capturing the `sub` and `scope` claims from the callbacks of PostgreSQL's JSON
  parser (`token_field_start`, `token_scalar`, `extract_sub_scope_fields`);
- splitting space-separated scope lists and checking the required scopes
  against the granted ones (`split_scopes`, `check_scopes`);
- composing these into the result of `validate_token`: the return value,
  `authn_id` and `authorized`.

Files, one module each:

- `wrappers.dfy`: `Option`, standing in for nullable pointers.
- `str_order.dfy`: `strcmp` order, sorting, and the facts about both.
- `base64url.dfy`: the alphabet rewrite and padding.
- `payload.dfy`: the dot search, the decoder guard and the C-string cut.
- `claims.dfy`: the capture slots as a fold over parser callbacks.
- `scopes.dfy`: scope splitting and the sorted merge walk.
- `validator.dfy`: `validate_token`.

Modelling choices:

- A C string is a `seq<char>`, and each `char` stands for one byte. `strcmp`
  is modelled by its sign only. The token, the required-scope string and the
  names and scalars the parser reports are taken to hold no NUL, as C strings
  cannot. On text with a NUL the model goes on past it where `strchr`,
  `strtok` and `strcmp` would stop, so it says nothing about such text.
- The base64 decoder is a parameter. It is a function from text to what
  `pg_b64_decode` reports: a length, which is -1 on failure, and the bytes it
  wrote.
- The JSON parser is also a parameter. It is a function from text to the
  callbacks it makes, in document order, plus whether it stopped on an error.
- The decoded payload goes to the parser only up to its first NUL, because the
  code takes `strlen` of it.
- Each claim slot is a `Slot`. `NotSeen` is NULL. `Marked` is the `(char *) 1`
  sentinel, meaning the field name was seen but no value yet. `Captured(v)` is a
  copied value.
- A read through the sentinel is the `SentinelRead` outcome. It records the
  line of the read (116 for `sub`, 119 for `scope`) and what `res->authn_id`
  holds at that point: still NULL at line 116, the copied `sub` at line 119.
- The required-scope string of the matching HBA line is a parameter.

The model follows the code, including where it departs from what a reader of
the compact-token conventions or of the code's comments might expect:

- A token needs at least two dots, not exactly two. For `a.b.c.d` the payload
  is `b`.
- A JSON parse error is ignored. Values captured before the error are kept.
- The scope check decides multiset inclusion, not set inclusion. Required
  `"a a"` is refused against granted `"a"`.
- An empty or all-space required-scope setting is refused. Line 124 of
  `validate_token` makes the call return false before `check_scopes` runs,
  even though `check_scopes` would accept an empty requirement.
- A claim value may be empty. `"sub": ""` gives an empty identity.
- Any scalar arriving while a slot is marked is captured, including one nested
  inside an object or array. The first scalar of `"scope": ["a", "b"]` is
  captured and the second is ignored.
- A value goes to `sub` first if `sub` is still marked. In
  `{"sub": {}, "scope": "read"}`, `sub` becomes `read` and `scope` stays marked.

## Model

| member | source | states |
|---|---|---|
| StrOrder.StrCmp | token_utils.c:190-196 | the comparison used for sorting yields -1, 0 or 1, and 0 exactly when the two strings are equal |
| StrOrder.StrCmpIsLexicographic | token_utils.c:190-196 | the comparison is negative exactly when the first string is a proper prefix of the second, or has the smaller byte at the first position where they differ |
| StrOrder.StrCmpTransitive | token_utils.c:190-196 | the order is transitive, so sorting by it is well defined |
| StrOrder.Sort | token_utils.c:210-212 | sorting gives a permutation of the list in ascending `strcmp` order |
| StrOrder.SortedPermutationUnique | token_utils.c:210-212 | two sorted permutations of the same list are equal, so any correct sort gives the same list |
| Base64Url.PadCount | token_utils.c:127 | the padding count is at most 3, makes the length a multiple of 4, and is 0 exactly when the length already is one |
| Base64Url.Base64UrlToBase64 | token_utils.c:123-146 | the output is `len + (4 - len % 4) % 4` long, so its length is a multiple of 4; `-` becomes `+`, `_` becomes `/`, other characters are kept in place; every position from `len` on is `=`; the output holds no `-` or `_` |
| Base64Url.Base64UrlToBase64Idempotent | token_utils.c:126-142 | converting the output a second time returns it unchanged |
| Base64Url.Base64UrlRoundTrip | token_utils.c:130-144 | for input over the URL-safe alphabet, dropping the padding and mapping `+`/`/` back to `-`/`_` recovers the input, so the conversion loses nothing |
| Payload.FindChar | token_utils.c:99-100 | `strchr` finds the first occurrence at or after the start position, or reports that there is none after it |
| Payload.PayloadSegment | token_utils.c:98-110 | the result is absent exactly when the token holds fewer than two dots; otherwise it is dot-free and lies strictly between the first dot and the next one |
| Payload.PayloadSegmentOfAssembled | token_utils.c:99-110 | for any dot-free header and segment, `header.segment.rest` yields exactly that segment, whatever `rest` holds, including more dots |
| Payload.DecodeBase64 | token_utils.c:152-168 | the result is NULL exactly when the decoder reports a length of 0 or less; otherwise it is exactly that many of the bytes the decoder wrote |
| Payload.ParseTokenPayload | token_utils.c:86-117 | a NULL token, or one with fewer than two dots, yields NULL; a payload that is returned is never empty |
| Payload.ParseTokenPayloadOfAssembled | token_utils.c:108-116 | for `header.segment.rest` the payload is the decoder's result on the segment rewritten to padded base64 |
| Payload.CString | token_utils.c:66 | the text passed to the parser is the longest NUL-free prefix of the decoded buffer |
| Claims.OnFieldStart | token_utils.c:16-27 | a `sub` or `scope` field start marks that slot whatever it held and leaves the other slot alone; any other name changes nothing |
| Claims.OnScalar | token_utils.c:33-44 | a scalar fills `sub` if `sub` is marked; otherwise it fills `scope` if `scope` is marked; otherwise nothing changes |
| Claims.ExtractSubScopeFields | token_utils.c:54-80 | a slot is NULL exactly when its name never started a field; a captured value is one of the scalars the parser reported |
| Claims.SubSlotMatchesReference | token_utils.c:19-43 | the `sub` slot after the fold is NULL if `sub` never started a field; otherwise it is the first scalar after the last `sub` start, or a dangling mark if no scalar follows that start |
| Claims.SubLastWriteWins | token_utils.c:21-22 | a later `sub` field with a value overwrites any earlier one |
| Claims.ScopeLastWriteWins | token_utils.c:23-24 | a later `scope` field with a value overwrites any earlier one, provided `sub` is not waiting for a value at the time |
| Claims.SubHasPriority | token_utils.c:38-41 | when both slots are marked, a scalar goes to `sub` and `scope` stays marked |
| Claims.MarkPersists | token_utils.c:36-43 | a mark with no scalar after it stays a mark to the end of the stream |
| Claims.SubCapturePersists | token_utils.c:36-43 | a captured `sub` survives every later callback except another `sub` field start |
| Claims.ScopeCapturePersists | token_utils.c:36-43 | a captured `scope` survives every later callback except another `scope` field start |
| Claims.SubTakesScopeValue | token_utils.c:21-41 | `{"sub": {}, "scope": "read"}` ends with `sub` holding `read` and `scope` left marked |
| Claims.ParseErrorKeepsCaptures | token_utils.c:74-79 | captures made before a parse error are kept, because the parser's result code is discarded |
| Scopes.SplitScopes | token_utils.c:173-185 | every returned scope is non-empty and space-free; the list is empty exactly when the input is empty or all spaces |
| Scopes.JoinSplitIsNormalize | token_utils.c:173-185 | joining the scopes with single spaces gives the input with leading and trailing spaces removed and inner space runs collapsed, so the scopes keep input order |
| Scopes.SplitJoinRoundTrip | token_utils.c:173-185 | splitting the single-space join of non-empty, space-free scopes returns exactly those scopes |
| Scopes.MergeWalkDecidesInclusion | token_utils.c:214-245 | on sorted lists, the cursor walk returns true exactly when the required multiset is included in the granted multiset |
| Scopes.CheckScopes | token_utils.c:204-246 | `check_scopes` is true exactly when every required scope occurs in the granted list at least as often, so an empty requirement is satisfied |
| Scopes.CheckScopesMonotone | token_utils.c:204-246 | adding granted scopes or removing required ones never turns true into false |
| Scopes.CheckScopesOrderIndependent | token_utils.c:210-212 | the result depends only on the contents of the lists, not on their order |
| Scopes.RepeatedRequirementNeedsRepeatedGrant | token_utils.c:223-227 | required `a a` against granted `a` is refused, because a match advances both cursors |
| Validator.ValidateToken | oauth_validator.c:83-134 | `authorized` is true only when the call returns true; a NULL token, one with fewer than two dots, or one whose payload fails to decode gives false, no identity and not authorized; a true return has a captured identity and a non-empty requirement; no identity means the full failure shape; a read through the sentinel happens either at line 116 with no identity set or at line 119 with a captured identity |
| Validator.DecodeFailureRejected | oauth_validator.c:99-105 | a token `h.s.rest` whose payload segment the decoder rejects (length 0 or less) gives false, no identity and not authorized |
| Validator.MissingFieldRejected | oauth_validator.c:107-113 | a payload in which `sub` or `scope` never starts a field gives false, no identity and not authorized |
| Validator.IdentityIsSub | oauth_validator.c:108-116 | once both names have started a field, the call passes the missing-field test; if a scalar followed the last `sub` start, that scalar is the identity; otherwise `pstrdup` reads through the mark at line 116 before any identity is set |
| Validator.ScopeDecision | oauth_validator.c:115-133 | with both claims captured, the identity is `sub`; the call returns true exactly when both scope lists are non-empty, and then `authorized` is multiset inclusion of required in granted |
| Validator.EmptyPolicyRefused | oauth_validator.c:119-125 | an empty or all-space required-scope setting gives false, not authorized, identity set, although `check_scopes` would accept it |
| Validator.RoleIgnored | oauth_validator.c:84-133 | the requested role never changes the verdict |
| Validator.ParseErrorIgnored | token_utils.c:74-79 | two parsers that make the same callbacks give the same verdict, whatever error each reports |
| Validator.AliceExample | oauth_validator.c:99-133 | a token carrying `sub` `alice` and `scope` `read write` is authorized for `read` and not for `admin`, with identity `alice` in both cases |
| Validator.DanglingScopeReadsSentinel | oauth_validator.c:108-119 | `{"sub": "alice", "scope": []}` passes the NULL test and reaches the read through the scope sentinel at line 119, with identity `alice` already set; the corrected check refuses it |
| Validator.DanglingSubReadsSentinel | oauth_validator.c:108-116 | `{"scope": "read", "sub": {}}` passes the NULL test and reaches the read through the `sub` sentinel at line 116, with no identity set; the corrected check refuses it |
| Validator.ValidateTokenChecked | oauth_validator.c:108-113 | with the missing-field test requiring captured strings, every call returns normally, `authorized` implies a true return, and an identity that is set is a captured string |
| Validator.CheckedAgreesWithOriginal | oauth_validator.c:108-133 | the corrected validator gives the same verdict as the original wherever the original returns normally, and refuses with no identity wherever the original would read through the sentinel |

## Findings

| source | as written | input that shows it | evidently intended | confidence | as-written member | corrected member |
|---|---|---|---|---|---|---|
| oauth_validator.c:109 | the missing-field test checks only for NULL, but a slot can still hold the `(char *) 1` mark set at token_utils.c:22/24 when no scalar followed the field name; `pstrdup(sub)` (line 116) or `split_scopes(scope)` (line 119) then reads address 1 | payload `{"sub": "alice", "scope": []}` (line 119), or `{"scope": "read", "sub": {}}` (line 116) | a field whose value never arrived is treated as missing and the token is refused | high, not executed | Validator.DanglingScopeReadsSentinel | Validator.ValidateTokenChecked |

## Left out

- PostgreSQL's JSON lexer and parser (`makeJsonLexContextCstringLen`, `pg_parse_json`). They are foreign code, so the parser is a parameter that yields its callbacks. The database encoding passed to the lexer, and the `isnull` and token-type arguments of the callbacks, are not modelled because the callbacks never use them.
- The base64 decoder (`pg_b64_decode`, `pg_b64_dec_len`). It is foreign code, so it is a parameter. The buffer size `pg_b64_dec_len` computes is reduced to the assumption that the reported length never exceeds the bytes written.
- `list_sort` and qsort internals. The sort is specified only as a sorted permutation, and `StrOrder.SortedPermutationUnique` shows that this determines the result.
- Memory management (`palloc`, `palloc0`, `pstrdup`, `pnstrdup`) and the bytes read through the sentinel. Reaching that read is the `SentinelRead` outcome, and no contents are invented for it.
- StrOrder.StrCmp: returns only the sign of `strcmp`, not the byte difference. The callers look only at the sign.
- The `int` lengths in `base64url_to_base64` and `parse_token_payload`. Lengths are unbounded here, so strings of 2^31 bytes or more, which would overflow `int`, are not modelled.
- Logging (`elog(LOG, ...)`). It has no effect on the result.
- The global `MyProcPort`, which becomes a parameter, and the crash when the HBA line has no `oauth_scope` (a NULL passed to `split_scopes`).
- Module registration and the magic number (oauth_validator.c:13-45), the server-version check in `validator_startup` (oauth_validator.c:51-60), and the empty `validator_shutdown` (oauth_validator.c:66-70). These are host lifecycle plumbing with no token logic.
- `token_utils.h`. It holds declarations only.
- Signature, issuer, audience and expiry checks. The code does not perform them.
