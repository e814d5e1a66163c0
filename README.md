# r-google-oauth2 in Dafny

A verified model of the string and protocol core of `r-google-oauth2`. This is a
Rust command-line sample that signs a user in with Google through the OAuth 2.0
authorization-code flow for native apps, using PKCE (RFC 7636) and a loopback
redirect (section 7.3 of RFC 8252). The model has three parts.

- **Codec and PKCE strings** (`src/util.rs`):
  - percent-encoding (`urlencode`) and decoding (`urldecode`);
  - the callback request parser (`get_request_path`, `diagnose_http_request`,
    `split_querystring`) and `build_query_string`;
  - the base64 to unpadded base64url rewrite (`fix_base64_string`) and the
    verifier and challenge generators built on it;
  - `MapHelper::get_string`;
  - the first-fit port scan (`select_random_tcp_port`, `try_bind_tcp_port`).
- **Callback receiver and flow** (`src/gauth2.rs`):
  - the poll loop of `recv_response`, over a finite sequence of events, each
    stamped with the elapsed seconds;
  - `accept_peer`, which reads the header block and sends a fixed 200 reply;
  - the authorization URL of `open_browser_to_begin`;
  - the token-request fields of `exchange_code_to_tokens`;
  - the sequencing of `begin` in a `GoogleOAuth2` class whose `tokenData`
    field is updated in place.
- **Credential discovery** (`src/configuration.rs`):
  - a recursive walk over a directory-tree datatype, collecting
    `client_secret*.json` files;
  - selection of the first file that parses and validates.

Files and modules:

| file | module | models |
|---|---|---|
| `wrappers.dfy` | `Wrappers` | `Option`, `Result` |
| `strings.dfy` | `Strings` | `starts_with`, `ends_with`, `split`, `split_once` |
| `percent_coding.dfy` | `PercentCoding` | `urlencode`, `urldecode` |
| `query_string.dfy` | `QueryString` | `split_querystring`, `get_request_path`, `diagnose_http_request`, `build_query_string`, `get_string` |
| `base64url.dfy` | `Base64Url` | `encode_base64`, `fix_base64_string`, `generate_random_string`, `generate_code_challenge` |
| `port_selection.dfy` | `PortSelection` | `select_random_tcp_port`, `try_bind_tcp_port` |
| `callback.dfy` | `Callback` | `accept_peer`, `recv_response` |
| `oauth_flow.dfy` | `OAuthFlow` | `GoogleOAuth2::new`, `begin`, `open_browser_to_begin`, `exchange_code_to_tokens` |
| `configuration.dfy` | `Configuration` | `enumerate_client_secret`, `configure`, `parse_client_secret` |

Each loop of the source is a method proved equal to a specification function,
and the properties are lemmas about that function. For example:
`UrlDecode` is proved equal to `Decoded`, `SelectRandomTcpPort` to
`FirstBindable`, `RecvResponse` to `Received`, and `EnumerateClientSecret` to
`Collect`.

A panic in the source becomes an error value in the model:
- `unwrap` on `None`, or a slice out of range, gives `None`;
- a panic inside the request handler gives `RequestPanicked`.

The outside world is passed in as parameters:
- a bind oracle;
- 32-byte arrays for the random draws;
- a SHA-256 function into 32-byte digests;
- flags saying whether the browser opens and whether the listener binds;
- the poll events;
- a POST oracle for the token endpoint;
- a file-reading oracle for `parse_client_secret`.

## Model

| member | source | states |
|---|---|---|
| Strings.TakeUntil | src/util.rs:45 | the first piece of `split`: a prefix of the text free of the separator, ending at the first separator or at the end |
| Strings.AfterFirst | src/util.rs:40 | `split_once` cuts the text into the part before the first separator, the separator, and the rest |
| Strings.CutAtFirst | src/util.rs:40 | `split_once("?")` on `a + "?" + b` with no `?` in `a` gives exactly `a` and `b` |
| Strings.Split | src/util.rs:43-44 | every piece of `split` is free of the separator; there are at least two pieces iff the separator occurs; the first piece is the text before it |
| Strings.SplitJoin | src/util.rs:43 | splitting a join of separator-free parts gives the parts back |
| Strings.JoinSplit | src/util.rs:43 | joining the pieces of a split gives the text back |
| PercentCoding.LowByte | src/util.rs:127 | `c as u8` is below 256 and is the code point itself for Latin-1 characters |
| PercentCoding.UpperHexDigit | src/util.rs:127 | `{:02X}` digits are `0-9A-F` and denote the digit value |
| PercentCoding.EscapeOf | src/util.rs:124-128 | an ASCII alphanumeric is kept; any other character becomes `%` and two upper-case hex digits of its low byte |
| PercentCoding.Encoded | src/util.rs:121-131 | the text `urlencode` returns: the escapes of the characters in order; `UrlEncode` computes it, and `EncodedLength`, `EncodedIsSafe`, `EncodedWellEscaped` and `RoundTrip` state its properties |
| PercentCoding.UrlEncode | src/util.rs:121-131 | the push loop builds exactly `Encoded(s)` |
| PercentCoding.EncodedAppend | src/util.rs:123-129 | encoding distributes over concatenation |
| PercentCoding.EncodedLength | src/util.rs:121-131 | the output length is #alphanumerics + 3 × #others |
| PercentCoding.EncodedIsSafe | src/util.rs:121-131 | the output is ASCII, holds only alphanumerics and `%`, is well escaped, and has no `&`, `=` or `?` |
| PercentCoding.EncodedAlphabet | src/util.rs:121-131 | every output character is an ASCII alphanumeric or `%` |
| PercentCoding.EncodedAlphanumeric | src/util.rs:124-125 | an alphanumeric string is its own encoding |
| PercentCoding.EncodedCons | src/util.rs:123-129 | the encoding of `c` followed by `t` is the escape of `c` followed by the encoding of `t` |
| PercentCoding.HexPair | src/util.rs:80-81 | a hex pair that parses is a byte value below 256 and contains no `%` |
| PercentCoding.Decoded | src/util.rs:74-90 | the text `urldecode` returns, `None` where it panics; `UrlDecode` computes it, `DecodedDefinedIff` says when it is defined and `RoundTrip` makes it the inverse of `Encoded` |
| PercentCoding.UrlDecode | src/util.rs:74-90 | the index loop returns `Decoded(s)`, with `None` where `urldecode` panics |
| PercentCoding.DecodedDefinedIff | src/util.rs:77-88 | decoding succeeds iff every `%` is followed by two hex digits |
| PercentCoding.DecodedPlain | src/util.rs:84-86 | text without `%` decodes to itself |
| PercentCoding.DecodedLength | src/util.rs:77-88 | each escape shrinks three characters to one |
| PercentCoding.DecodedEscape | src/util.rs:79-83 | decoding an escape yields the single character of its byte value |
| PercentCoding.EncodedWellEscaped | src/util.rs:121-131 | `urldecode` never panics on the output of `urlencode` |
| PercentCoding.RoundTrip | src/util.rs:121-131 | `urldecode(urlencode(s)) == s` for every Latin-1 (hence every ASCII) string |
| QueryString.ParsePair | src/util.rs:44-47 | one `key=value` piece, `None` where the `unwrap`s or `urldecode` panic; `ParsePairMeaning` states its result |
| QueryString.QueryOf | src/util.rs:36-50 | the map `split_querystring` returns, `None` where it panics; `SplitQuerystring` computes it, `QueryOfMeaning`, `FoldDefinedIff`, `FoldKeys` and `FoldLastWins` state its properties, `BuildQueryMapRoundTrip` makes it the inverse of `build_query_string` |
| QueryString.ParsePairMeaning | src/util.rs:44-47 | a pair parses iff it has `=` and the value decodes; the key is the undecoded text before the first `=`; the value is the decoded text up to the second `=` |
| QueryString.QueryOfMeaning | src/util.rs:37-47 | a URL without `?` gives the empty map; otherwise the result is defined iff every `&`-piece after the first `?` parses |
| QueryString.SplitQuerystring | src/util.rs:36-50 | the insert loop returns `QueryOf(url)`, with `None` where the source panics |
| QueryString.FoldStep | src/util.rs:47 | each pair that parses inserts its key and decoded value into the map built so far |
| QueryString.FoldStopsAt | src/util.rs:44-46 | one pair without `=` or with a bad escape makes the whole parse fail |
| QueryString.InsertAllDefinedIff | src/util.rs:43-48 | the insertions run to the end iff every pair parsed |
| QueryString.FoldDefinedIff | src/util.rs:43-48 | the parse is defined iff every pair parses |
| QueryString.InsertAllKeys | src/util.rs:43-48 | the keys of the built map are exactly the keys of the parsed pairs |
| QueryString.FoldKeys | src/util.rs:43-48 | the keys of the map are exactly the keys (text before the first `=`) of the pairs |
| QueryString.InsertAllLastWins | src/util.rs:47 | a key kept by no later pair maps to the value of its pair |
| QueryString.FoldLastWins | src/util.rs:47 | a duplicate key keeps the value of its last occurrence |
| QueryString.ParseField | src/util.rs:44-47 | `k=raw`, with no `=` in `k` or `raw`, parses to `k` and the decoding of `raw` |
| QueryString.InsertAllParsed | src/util.rs:43-48 | inserting given entries in order gives the map of those entries, later entries winning |
| QueryString.FoldParsed | src/util.rs:43-48 | pairs that parse to given entries give the map of those entries, later entries winning |
| QueryString.QueryOfJoined | src/util.rs:40-43 | the query of `prefix?f1&…&fn` is the fold of `f1 … fn` |
| QueryString.QueryStringOf | src/util.rs:135-148 | the text `build_query_string` returns for entries in iteration order; `BuildQueryString` computes it, `QueryStringSnoc` and `BuildQueryRoundTrip` state its properties |
| QueryString.BuildQueryString | src/util.rs:135-148 | the push loop returns `?k1=v1&…` with each value percent-encoded, in the map's iteration order |
| QueryString.QueryStringSnoc | src/util.rs:138-145 | the query is empty before the first entry; each entry adds `?` (first) or `&` (later), then `key=encoded value` |
| QueryString.FieldParses | src/util.rs:143-145 | one written field parses back to its key and value |
| QueryString.FieldsParse | src/util.rs:137-146 | every written field parses back to its entry and holds no `&` |
| QueryString.QueryOfQueryString | src/util.rs:135-148 | the query of a base plus a built query string is the fold of the written fields |
| QueryString.QueryOfPrefixed | src/util.rs:36-48 | the query of a base plus `?` and fields joined by `&` is the fold of those fields |
| QueryString.BuildQueryRoundTrip | src/util.rs:135-148 | `split_querystring(base + build_query_string(params))` gives back the params (later duplicates winning), for keys without `&`/`=` and Latin-1 values |
| QueryString.MapOfKeys | src/util.rs:47 | the keys of the map built from entries are exactly the entries' keys |
| QueryString.MapOfDistinct | src/util.rs:47 | with distinct keys, each listed key holds its own value in the map |
| QueryString.MapOfEnumeration | src/util.rs:137 | the entries of one iteration of a map build that map back |
| QueryString.BuildQueryMapRoundTrip | src/util.rs:135-148 | `split_querystring(base + build_query_string(m))` gives back `m` itself, for any iteration order, when keys hold no `&` or `=` and values are Latin-1 |
| QueryString.PairTexts | src/gauth2.rs:269 | a list of raw pairs is written as one text per pair |
| QueryString.PairTextsAt | src/gauth2.rs:269 | the `i`-th text is the `i`-th pair written `name=value` |
| QueryString.RawQueryParses | src/util.rs:36-50 | a URL built from raw pairs, each decoding to an entry, parses to the map of those entries |
| QueryString.GetRequestPath | src/util.rs:53-60 | empty iff the line does not start with `GET /`; otherwise the second space-separated token, which starts with `/` |
| QueryString.RequestLineCut | src/util.rs:57-58 | for a `GET /` line, `split(" ").nth(1)` exists and is the text after `GET ` up to the next space |
| QueryString.RequestLinePath | src/util.rs:53-60 | `GET <path> <version>` yields `<path>` |
| QueryString.RequestQuery | src/util.rs:63-72 | the map `diagnose_http_request` returns, `None` where parsing panics; `DiagnoseHttpRequest` computes it, `RequestQueryFirstGet` and `RequestQueryNoGet` state its cases |
| QueryString.DiagnoseHttpRequest | src/util.rs:63-72 | the line loop returns `RequestQuery(lines)` |
| QueryString.RequestQueryFirstGet | src/util.rs:64-69 | the query comes from the first line that starts with `GET /` |
| QueryString.RequestQueryNoGet | src/util.rs:71 | with no such line the result is the empty map |
| QueryString.GetString | src/util.rs:208-219 | the stored value for a present key, `""` for an absent one; `Callback.CodeAndState` and `Callback.ErrorFirst` state what the callback extraction makes of it |
| Base64Url.Base64 | src/util.rs:186-191 | standard padded base64: the six-bit values in the standard alphabet, then `=` padding to a multiple of four; `SextetsLength` and `FixedIsBase64Url` state its properties |
| Base64Url.FixBase64String | src/util.rs:153-158 | the three `replace` calls in order; `FixIsOnePass`, `FixRemovesSpecials` and `FixIdempotent` state its properties |
| Base64Url.SextetsLength | src/util.rs:186-191 | standard base64 cuts `n` bytes into (4n+2)/3 six-bit values |
| Base64Url.UrlChar | src/util.rs:153-158 | every base64url character is in `[A-Za-z0-9_-]` |
| Base64Url.UrlChars | src/util.rs:153-158 | base64url text has one URL-safe character per six-bit value |
| Base64Url.FixIsOnePass | src/util.rs:153-158 | the three `replace` calls equal one pass that drops `=`, maps `+` to `-` and `/` to `_`, and keeps everything else in order |
| Base64Url.UrlSafeOfAppend | src/util.rs:153-158 | the one-pass rewrite distributes over concatenation |
| Base64Url.FixRemovesSpecials | src/util.rs:153-158 | the output has no `=`, `+` or `/` |
| Base64Url.UrlSafeOfClean | src/util.rs:153-158 | the one-pass rewrite leaves no `=`, `+` or `/` |
| Base64Url.FixIdempotent | src/util.rs:153-158 | `fix_base64_string` is idempotent |
| Base64Url.UrlSafeOfIdempotent | src/util.rs:153-158 | the one-pass rewrite is idempotent |
| Base64Url.UrlSafeOfStd | src/util.rs:153-158 | rewriting the standard alphabet gives the URL-safe alphabet of section 5 of RFC 4648 |
| Base64Url.FixedIsBase64Url | src/util.rs:161-165 | `fix_base64_string(encode_base64(b))` is unpadded base64url of `b` |
| Base64Url.UrlIndex | src/util.rs:153-158 | a character has a base64url value iff it is in `[A-Za-z0-9_-]`, and the URL-safe alphabet maps that value back to the character |
| Base64Url.UrlIndices | src/util.rs:153-158 | a base64url text denotes one six-bit value per character |
| Base64Url.IndicesOfUrlChars | src/util.rs:153-158 | the base64url alphabet is read back to the same six-bit values |
| Base64Url.ByteGroup | src/util.rs:186-191 | the three bytes of a group are recovered from its four six-bit values |
| Base64Url.GroupRoundTrip | src/util.rs:186-191 | a group of three bytes decodes back ahead of the rest |
| Base64Url.SingleRoundTrip | src/util.rs:186-191 | a final single byte decodes back from its two six-bit values |
| Base64Url.PairRoundTrip | src/util.rs:186-191 | two final bytes decode back from their three six-bit values |
| Base64Url.SextetsRoundTrip | src/util.rs:186-191 | the six-bit cut of the bytes determines the bytes |
| Base64Url.GenerateRandomString | src/util.rs:161-165 | the unpadded base64url of the drawn bytes; `RandomStringDecodes`, `RandomStringShape` and `RandomString32` state its properties |
| Base64Url.RandomStringDecodes | src/util.rs:161-165 | the generated string decodes back to the random bytes, so the string is a faithful encoding of them |
| Base64Url.RandomStringShape | src/util.rs:161-165 | the generated string is URL-safe and has length ceil(4n/3) |
| Base64Url.RandomString32 | src/util.rs:161-165 | 32 random bytes give 43 characters |
| Base64Url.GenerateCodeChallenge | src/util.rs:179-183 | the unpadded base64url of the SHA-256 digest of the verifier; `ChallengeShape` and `ChallengeBinding` state its properties |
| Base64Url.ChallengeShape | src/util.rs:179-183 | the S256 challenge is 43 URL-safe characters |
| Base64Url.ChallengeBinding | src/util.rs:179-183 | equal challenges come from verifiers with equal digests: the challenge is a faithful encoding of the hash |
| PortSelection.TryBindTcpPort | src/util.rs:104-111 | never returns `Err`; returns `Ok(true)` iff the port can be bound |
| PortSelection.FirstBindable | src/util.rs:94-100 | a found port is in range and bindable |
| PortSelection.SelectRandomTcpPort | src/util.rs:93-101 | the `for` loop returns `FirstBindable` from 15000 |
| PortSelection.FirstBindableIsLeast | src/util.rs:93-101 | the result is the least bindable port in `[15000, 29000)`; it fails, with "No port available", iff none is bindable |
| Callback.HeaderBlock | src/gauth2.rs:105 | the header is the longest prefix of the lines that has no empty line |
| Callback.HeaderBlockUnique | src/gauth2.rs:105 | the header ends exactly at the first empty line |
| Callback.Served | src/gauth2.rs:101-115 | what `accept_peer` yields: the parse of the header block, a panic as `RequestPanicked`, a failed write as `ReplyFailed`; `AcceptPeer` computes it, `BodyIgnored` and `ServedFirstGet` state its properties |
| Callback.AcceptPeer | src/gauth2.rs:101-115 | the take-while loop returns `Served(conn)`, and exactly `HTTP/1.1 200 OK\r\n\r\nOk.` is written when it succeeds |
| Callback.BodyIgnored | src/gauth2.rs:104-108 | lines after the first empty line do not affect the result |
| Callback.ServedFirstGet | src/gauth2.rs:104-108 | the map comes from the request line when it is a `GET /` line |
| Callback.Wait | src/gauth2.rs:142-161 | how the poll loop ends; `WaitDecidedAt` states which event decides it |
| Callback.WaitDecidedAt | src/gauth2.rs:142-161 | the wait ends at the first event that is not a WouldBlock, or when the events run out |
| Callback.Extract | src/gauth2.rs:163-176 | `Err` iff `error` is present and non-empty, and then it carries that error; otherwise `code` and `state`, with absent keys read as `""` |
| Callback.Received | src/gauth2.rs:125-177 | the result of `recv_response`; `RecvResponse` computes it, `TimeoutWins`, `FailureGivesEmptyCode`, `FirstConnectionDecides` and `RequestLineDecides` state its cases |
| Callback.RecvResponse | src/gauth2.rs:125-177 | the poll loop returns `Received(bound, events)` and accepts at most one connection, the one the wait ended on |
| Callback.TimeoutWins | src/gauth2.rs:144-146 | an event examined at 120 s or later gives the timeout error, even a ready connection |
| Callback.FailureGivesEmptyCode | src/gauth2.rs:148-156 | a fatal accept error, or the end of the events, gives `Ok(("", ""))` |
| Callback.FirstConnectionDecides | src/gauth2.rs:158-160 | the first connection before the deadline ends the wait, and the result is read from it alone |
| Callback.ReceivedOne | src/gauth2.rs:142-176 | a single connection at time 0 gives the extraction of its served map |
| Callback.RequestLineDecides | src/gauth2.rs:125-177 | a single `GET <path> <version>` request gives the extraction of `split_querystring(path)`, or the panic error when the path does not parse |
| Callback.CodeAndState | src/gauth2.rs:169-176 | a query with `code` and `state` gives exactly those two |
| Callback.ErrorFirst | src/gauth2.rs:163-167 | a non-empty `error` wins over `code` and `state` |
| OAuthFlow.DecimalString | src/gauth2.rs:221 | `{}` of a port gives decimal digits with no leading zero |
| OAuthFlow.DecimalRoundTrip | src/gauth2.rs:221 | the digits denote the port |
| OAuthFlow.RedirectUri | src/gauth2.rs:221 | `format!("http://localhost:{}", port)`; `RedirectUriNamesPort` states that it names the port |
| OAuthFlow.RedirectUriNamesPort | src/gauth2.rs:221 | the redirect URI is `http://localhost:` followed by the digits of the port |
| OAuthFlow.VerbatimWrites | src/gauth2.rs:273-275 | a value without `&`, `=` or `%` inserted verbatim reads back as itself |
| OAuthFlow.EncodedWrites | src/gauth2.rs:271-274 | a urlencoded Latin-1 value reads back as itself |
| OAuthFlow.AuthorizationUrl | src/gauth2.rs:268-276 | the URL of `open_browser_to_begin`; `AuthorizationFieldTexts` states its text field by field and `AuthorizationUrlParses` what it parses back to |
| OAuthFlow.AuthorizationFieldsWrite | src/gauth2.rs:268-276 | each of the seven URL fields reads back as its intended parameter |
| OAuthFlow.AuthorizationParamsMap | src/gauth2.rs:268-276 | the seven parameters form the expected seven-key map |
| OAuthFlow.AuthorizationUrlParses | src/gauth2.rs:268-276 | parsing the authorization URL gives `response_type=code`, the scopes, the redirect URI, the client id, the state, the challenge and `S256` |
| OAuthFlow.AuthorizationFieldTexts | src/gauth2.rs:268-276 | the URL fields, in order, are `response_type=code`, `scope=openid%20profile%20email`, the encoded redirect URI, the verbatim client id, the encoded state, the verbatim challenge and `code_challenge_method=S256` |
| OAuthFlow.EncodedSpace | src/util.rs:127 | a space encodes as `%20` |
| OAuthFlow.EncodedSpaced | src/gauth2.rs:271 | a space between two texts encodes as `%20` |
| OAuthFlow.SpacedWordsEncoded | src/gauth2.rs:271 | three alphanumeric words separated by spaces encode with `%20` between them |
| OAuthFlow.ScopesEncoded | src/gauth2.rs:271 | `urlencode("openid profile email")` is `openid%20profile%20email`, the constant `EncodedScopes` the URL carries |
| OAuthFlow.TokenRequest | src/gauth2.rs:249-257 | the fields `exchange_code_to_tokens` posts; `TokenRequestFields` states them |
| OAuthFlow.TokenRequestFields | src/gauth2.rs:249-257 | the token request has exactly the eight keys, each with its value |
| OAuthFlow.Run | src/gauth2.rs:215-245 | the steps of `begin` over an environment of inputs; `RunPosted`, `RunBrowserUrl`, `PkceBinding` and the `CheckedFlow` lemmas state its properties |
| OAuthFlow.Flow | src/gauth2.rs:215-245 | `begin` as written; `ForeignStateForwarded` shows it forwards a foreign state |
| OAuthFlow.CheckedFlow | src/gauth2.rs:235-239 | `begin` with the state comparison; `CheckedFlowPostsOwnState`, `CheckedFlowRefusesForeignState` and `CheckedFlowAgrees` state its properties |
| OAuthFlow.RunPosted | src/gauth2.rs:219-239 | a run posts iff a port is found, the browser opens, the callback step returns `Ok` and (when checked) the state matches. That `Ok` includes the empty code and state that `recv_response` returns after a fatal accept error or when the events run out. What it posts is the token request from the received code and state, the redirect URI of the port and the verifier |
| OAuthFlow.RunPostsRequest | src/gauth2.rs:219-239 | when every step before the token request succeeds (and the state is accepted), the run posts the token request built from the callback's code and state, the port's redirect URI and the verifier |
| OAuthFlow.RunStopsEarly | src/gauth2.rs:219-239 | when the port search, the browser, the callback or the state check fails, nothing is posted |
| OAuthFlow.RunBrowserUrl | src/gauth2.rs:219-231 | when a port is found, the browser is sent the authorization URL built from it, the state and the challenge of the verifier |
| OAuthFlow.GeneratedUrlParses | src/gauth2.rs:221-231 | for an authorization endpoint without `?` and a client id without `&`, `=` or `%`, the URL built from a port and the drawn state and verifier parses back to its seven fields |
| OAuthFlow.DrawnValuesPlain | src/gauth2.rs:222-227 | the drawn state and the code challenge contain no `%`, `&` or `=` and are Latin-1 |
| OAuthFlow.UrlSafeIsPlain | src/util.rs:153-158 | base64url text has no `%`, `&` or `=` |
| OAuthFlow.PostedRun | src/gauth2.rs:219-239 | a run that posts has sent the browser the URL built from the port, the state and the challenge; it posts that redirect URI, the client id and the verifier |
| OAuthFlow.PkceBinding | src/gauth2.rs:219-239 | for an authorization endpoint without `?` and a client id without `&`, `=` or `%`: whenever tokens are requested, the browser URL carries the challenge of the posted verifier and the posted redirect URI, which names the least bindable port; the verifier has 43 characters |
| OAuthFlow.ForeignStateForwarded | src/gauth2.rs:235-239 | as written, any callback state other than the generated one (a 43-character state of another session included) is posted to the token endpoint, and the flow succeeds when the endpoint answers |
| OAuthFlow.CheckedFlowPostsOwnState | src/gauth2.rs:235-239 | with the comparison, only the generated state is ever posted |
| OAuthFlow.CheckedFlowSuccessMeansOwnState | src/gauth2.rs:235-244 | with the comparison, success implies the callback returned the generated state |
| OAuthFlow.CheckedFlowRefusesForeignState | src/gauth2.rs:235-239 | with the comparison, any state other than the generated one ends the flow with a mismatch error and nothing is posted |
| OAuthFlow.CheckedFlowAgrees | src/gauth2.rs:235-244 | for callbacks that return the generated state, the comparison changes nothing |
| OAuthFlow.GoogleOAuth2.constructor | src/gauth2.rs:195-207 | sets the endpoints and credentials and starts with empty token data |
| OAuthFlow.GoogleOAuth2.New | src/gauth2.rs:190-210 | fails iff discovery fails; otherwise a fresh instance with those endpoints, the credentials and empty token data |
| OAuthFlow.GoogleOAuth2.OpenBrowserToBegin | src/gauth2.rs:267-281 | the URL handed to the browser is `AuthorizationUrl(...)`; it succeeds iff the browser opens |
| OAuthFlow.GoogleOAuth2.ExchangeCodeToTokens | src/gauth2.rs:248-264 | posts exactly the eight fields (`code`, `client_id`, `state`, `scope=""`, `client_secret`, `redirect_uri`, `grant_type=authorization_code`, `code_verifier`) to the token endpoint and returns its answer |
| OAuthFlow.GoogleOAuth2.Authorize | src/gauth2.rs:215-245 | the steps of `begin` produce the outcome, browser URL and posted fields of `Run`; `tokenData` is replaced by the received tokens only on success |
| OAuthFlow.GoogleOAuth2.Begin | src/gauth2.rs:215-245 | `begin` as written matches `Flow`, and updates `tokenData` only on success |
| OAuthFlow.GoogleOAuth2.BeginCheckingState | src/gauth2.rs:215-245 | the corrected `begin` matches `CheckedFlow`, and updates `tokenData` only on success |
| Configuration.Collect | src/configuration.rs:21-42 | what `enumerate_client_secret` returns for an entry; `EnumerateClientSecret` computes it, `CollectMeaning` and `CollectListsExactly` state what it lists |
| Configuration.EnumerateClientSecret | src/configuration.rs:21-42 | the recursive walk with append returns `Collect(path, node)` |
| Configuration.CollectMeaning | src/configuration.rs:21-42 | the walk fails iff some directory cannot be read; otherwise it lists the `client_secret*.json` files in pre-order, a matching file giving exactly its own path |
| Configuration.CollectFromMeaning | src/configuration.rs:33-38 | a directory's result is its entries' results concatenated in entry order, the first failure winning |
| Configuration.MatchingShape | src/configuration.rs:24-31 | every listed path lies under the starting location, ends in `.json`, and ends with a name that starts with `client_secret` and ends with `.json` |
| Configuration.MatchingFromShape | src/configuration.rs:33-38 | the same holds for the entries of a directory |
| Configuration.SelectedMembers | src/configuration.rs:26 | a path passes the name filter iff some file with that path has a `client_secret*.json` name |
| Configuration.MatchingSelects | src/configuration.rs:21-42 | the reference listing is the tree's files, in pre-order, filtered by the name test |
| Configuration.MatchingFromSelects | src/configuration.rs:33-38 | the same holds for the entries of a directory |
| Configuration.CollectListsExactly | src/configuration.rs:21-42 | on a tree where every directory lists, the walk succeeds and lists a path iff some file of the tree has that path and a name starting with `client_secret` and ending with `.json` |
| Configuration.ParseClientSecret | src/configuration.rs:69-80 | accepts iff the file parses with a non-empty id and secret, returning that record; a read failure gives `ParseFailed`, an empty id exactly `InvalidClientId`, and an empty secret with a non-empty id `InvalidClientSecret` |
| Configuration.Configured | src/configuration.rs:45-63 | the result of `configure`; `Configure` computes it and `ConfigureChoosesFirst` states its cases |
| Configuration.Configure | src/configuration.rs:46-63 | enumerates from `.` and then loops over the candidates, returning `Configured(root, read)` |
| Configuration.FirstValid | src/configuration.rs:52-62 | the candidate loop of `configure`; `FirstValidIsEarliest` states which candidate it returns |
| Configuration.FirstValidIsEarliest | src/configuration.rs:52-62 | the first candidate that parses wins, failed ones are skipped, and it fails iff all fail |
| Configuration.ConfigureChoosesFirst | src/configuration.rs:46-63 | `configure` fails on an unreadable tree; it succeeds iff some listed file is valid, returning the earliest one, whose id and secret are non-empty |

## Left out

- Networking is not modelled:
  - `http_get`, `http_post` and reqwest;
  - `verify_access_token` and `query_user_info`;
  - the download of the discovery document (`get_gauth_wellknown_endpoints`).
  `New` takes the discovery result as a value. The token endpoint is an oracle from the posted fields to `Option<TokenData>`.
- JSON (serde) is not modelled. `parse_client_secret` reads through an oracle from path to `Option<ClientSecret>`. The pretty-printing calls used only for logging are dropped.
- SHA-256 is an uninterpreted function into 32-byte digests.
- `rand` is not modelled: the 32 random bytes for the state and for the verifier are parameters.
- Sockets, `sleep`, `SimpleStopWatch` and the clock are replaced:
  - each poll event carries the elapsed whole seconds;
  - one flag says whether the listener binds and becomes non-blocking.
- `open::that`, the logging macros, `get_current_timestamp` and `src/main.rs` are not part of this model.
- Callback.RecvResponse: the poll events are a finite sequence. When they run out, the model ends the wait with the empty query, as the source does after a fatal error. The real `incoming()` never ends.
- Callback.AcceptPeer: requires the header lines (those before the first empty line) to be ASCII, for the same indexing reason as `UrlDecode`. Body lines are unconstrained, since they are never read.
- Callback.AcceptPeer: `write` is modelled as writing the whole reply or failing. A partial write is not modelled. Read errors on lines (the `unwrap` in `lines()`) are not modelled.
- PercentCoding.UrlDecode: requires ASCII input, because the source mixes a character index (`chars().nth(i)`) with byte slicing (`&s[i + 1..i + 3]`). The specification function `Decoded` works character by character.
- QueryString.SplitQuerystring: requires an ASCII URL, for the same indexing reason.
- QueryString.DiagnoseHttpRequest: requires ASCII lines, for the same indexing reason.
- Callback.RecvResponse: requires ASCII header lines in every connection, for the same indexing reason.
- OAuthFlow.GoogleOAuth2.Authorize: requires ASCII header lines, because it runs `RecvResponse`.
- OAuthFlow.GoogleOAuth2.Begin: requires ASCII header lines, because it runs `RecvResponse`.
- OAuthFlow.GoogleOAuth2.BeginCheckingState: requires ASCII header lines, because it runs `RecvResponse`.
- PercentCoding.RoundTrip: stated for Latin-1 strings only. `c as u8` keeps only the low byte, so wider characters do not come back.
- QueryString.BuildQueryString: `HashMap` iteration order is unspecified, so the entries are given as a sequence in iteration order.
- OAuthFlow.AuthorizationUrlParses: assumes the client id and the challenge hold no `&`, `=` or `%`, and the authorization endpoint holds no `?`. The id and challenge are inserted without encoding, so other values change the parsed URL. `split_querystring` cuts at the first `?`, so a `?` inside the endpoint would swallow `response_type`.
- OAuthFlow.GeneratedUrlParses: assumes the same of the authorization endpoint and the client id, for the same reasons.
- OAuthFlow.PkceBinding: assumes the same of the authorization endpoint and the client id, for the same reasons.
- OAuthFlow.GoogleOAuth2.Authorize: the probe bind in `try_bind_tcp_port` and the later bind in `recv_response` are separate inputs, so a port taken between the two is a listener failure.
- Configuration.EnumerateClientSecret: the following are not modelled:
  - symbolic links, including cycles;
  - non-UTF-8 file names, where `to_str().unwrap()` panics;
  - the difference between a failing `read_dir` and a failing entry, which both appear as `Unreadable`.
- The token fields are kept, and `expires_in` is a `u32` subset type. No arithmetic is done on them.

## Findings

| source | as written | input that shows it | evidently intended | confidence | as-written member | corrected member |
|---|---|---|---|---|---|---|
| src/gauth2.rs:235-239 | `begin` shadows the generated `state` with the callback's `state` and forwards it to the token endpoint without comparing | a callback `GET /?code=c&state=x` with any `x` other than the state the browser was sent (for example the 43-character state of another session): `x` is posted and the flow succeeds | reject a callback whose state differs from the one sent, as section 10.12 of RFC 6749 requires for CSRF protection | not executed | OAuthFlow.ForeignStateForwarded | OAuthFlow.CheckedFlowRefusesForeignState |

`Flow` and `GoogleOAuth2.Begin` keep the behaviour as written. `CheckedFlow` and
`GoogleOAuth2.BeginCheckingState` add the comparison:
- `CheckedFlowPostsOwnState` shows that only the generated state is ever posted;
- `CheckedFlowSuccessMeansOwnState` shows that success implies the callback carried it;
- `CheckedFlowAgrees` shows that the comparison changes nothing for honest callbacks.
