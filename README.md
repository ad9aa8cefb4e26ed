# OAuth 1.0 request signer of twittergae, in Dafny

This project models `py/oauth.py` of twittergae. That module prepares an OAuth 1.0 HMAC-SHA1 signed HTTP request, of the kind the Twitter API expects. The model covers:

- `random_token`: a string of `length` characters, each drawn from the ASCII letters and digits.
- `percent_encode`: UTF-8 encodes the text. Every byte outside `A-Z a-z 0-9 - . _ ~` becomes `%XY` with upper-case hex digits. The empty string is returned unchanged.
- `percent_encode_dict`: percent-encodes every name and every value of a mapping. An empty or missing mapping gives `{}`.
- `OAuth1.__init__` and `OAuth1.__call__`: store the four credentials. A later call replaces only the credentials it passes.
- `OAuth1.init_request`:
  - upper-cases the HTTP method;
  - builds the six OAuth parameters, honouring the `test_nonce` and `test_timestamp` hooks;
  - collects the signed parameters: query variables, then post variables unless the body is multipart, then the OAuth parameters;
  - builds the signature base string, method `&` encoded URL `&` encoded normalized parameters, laid out as in section 3.4.1 of RFC 5849;
  - builds the signing key, encoded consumer secret `&` encoded token secret;
  - signs with HMAC-SHA1 and base64-encodes the result;
  - writes `Authorization: OAuth name="value", ...` with the names sorted;
  - appends the query string to the URL;
  - returns either an `application/x-www-form-urlencoded` body or a `multipart/form-data` body with a fresh boundary.

The files are:

| file | module | contents |
|---|---|---|
| `wrappers.dfy` | `Wrappers` | `Option` and `Result` |
| `strings.dfy` | `Strings` | `string.ascii_letters + string.digits`, join/split, lexicographic order and sorting (`sorted`), ASCII `upper()`, `str()` of a natural number |
| `dicts.dfy` | `Dicts` | a Python dict as a sequence of (name, value) pairs with distinct names: lookup, `d[k] = v`, `d.update(e)`, equality up to order |
| `percent.dfy` | `Percent` | UTF-8, `percent_encode`, its inverse, `percent_encode_dict` |
| `tokens.dfy` | `Tokens` | `random_token` |
| `signing.dfy` | `Signing` | everything `init_request` computes, as functions of its inputs, and the properties proved about them |
| `signer.dfy` | `Signer` | the `OAuth1` object and the caller's header dict as classes, and `init_request` as methods that update them step by step |

`Signer.OAuth1.InitRequest` runs the source's steps in order on mutable state:
- it updates the caller's `Headers` object in place, or a fresh one when `headers` is None;
- the multipart loop is the method `Signer.BuildMultipartPayload`, with its loop invariant.

Each method's postcondition ties its results, and the new state, to the functions of `Signing`. The properties of those functions are proved as lemmas.

The model follows the code as written, in these places:
- **Header values are not encoded.** The values in the Authorization header are `auth_header_params` as they stand (line 161). Only `oauth_signature` is percent-encoded (line 159). The other values are written without encoding, although section 3.5.1 of RFC 5849 asks for every value to be encoded. `Percent.PercentEncodeKeepsUnreserved` shows the two agree whenever the values hold only unreserved characters. Random nonces, decimal timestamps, `HMAC-SHA1` and `1.0` always do.
- **The base string is not fully normalized.** Its layout follows section 3.4.1 of RFC 5849, but the code departs from that section in three places (lines 144-150):
  - the base URL is encoded as given, without lower-casing the scheme and host or dropping a default port (section 3.4.1.2);
  - the method is upper-cased but not percent-encoded (section 3.4.1.1);
  - a name given both as a query variable and as a post variable, or as an OAuth parameter, keeps only the last value (lines 138-142), where section 3.4.1.3 keeps every pair.
- **Attachments in a URL-encoded body.** When the body is not multipart, every post value goes through `str()` before encoding, attachment dicts included (line 133 with line 55).
- **Attachments in the multipart loop.** Only the `data` key of an attachment has no default. An attachment without it raises `KeyError` (line 213), which is modelled as the error `MissingAttachmentData`.
- **Credentials that are None.** In the OAuth parameters, a consumer key or access token that is None is written as the text `None` (lines 118 and 123). In the signing key, a missing secret counts as the empty string (lines 153-154).

## Model

| member | source | states |
|---|---|---|
| Tokens.RandomToken | py/oauth.py:30-36 | the token has exactly `length` characters, each an ASCII letter or digit |
| Tokens.EveryAlphanumericStringIsAToken | py/oauth.py:30-36 | every alphanumeric string of the given length can be drawn, so the alphabet is exactly the 62 letters and digits |
| Strings.UpperAscii | py/oauth.py:114 | the same length; each `a`-`z` becomes the matching capital letter, so none is left; every other character is unchanged |
| Strings.UpperAsciiIdempotent | py/oauth.py:114 | upper-casing twice is upper-casing once |
| Strings.NatToDecimal | py/oauth.py:120 | `str(int(...))` of a natural number is a non-empty string of decimal digits |
| Strings.DecimalRoundTrip | py/oauth.py:120 | the digits read back as the same number and have no leading zero |
| Strings.SplitJoin | py/oauth.py:144-155 | a `'&'.join` of pieces without `&` splits back into the same pieces |
| Strings.SortStrings | py/oauth.py:148 | `sorted` returns a permutation of its input |
| Strings.SortStringsStrictly | py/oauth.py:148 | `sorted` of distinct names is strictly increasing |
| Strings.SortStringsCanonical | py/oauth.py:148 | two orderings of the same distinct names sort to the same list |
| Percent.Utf8RoundTrip | py/oauth.py:45 | decoding the UTF-8 bytes of a text gives the text back |
| Percent.Utf8OfAscii | py/oauth.py:45 | an ASCII text is its own UTF-8 encoding |
| Percent.UnreservedCharactersExactly | py/oauth.py:39 | a character is left unencoded exactly when it is an ASCII letter, a digit, `-`, `.`, `_` or `~` |
| Percent.HexDigit | py/oauth.py:46 | `{:02X}` digits are upper-case hex digits whose value is the nibble |
| Percent.PercentEncodeShape | py/oauth.py:41-46 | the encoding uses only unreserved characters and `%`, and every `%` starts a well-formed escape of two upper-case hex digits |
| Percent.PercentEncodeHasNoSeparators | py/oauth.py:41-46 | an encoded text holds no `&`, `=`, `,`, `"` or space |
| Percent.PercentEncodeKeepsUnreserved | py/oauth.py:46 | a text of unreserved characters encodes to itself |
| Percent.PercentEncodeEmpty | py/oauth.py:43-44 | the empty string is returned unchanged |
| Percent.PercentRoundTrip | py/oauth.py:41-46 | decoding the escapes gives back the UTF-8 bytes of the text, and those decode to the text |
| Percent.PercentEncodeInjective | py/oauth.py:41-46 | distinct texts have distinct encodings |
| Percent.EncodeDictEmpty | py/oauth.py:52-53 | an empty mapping gives the empty mapping |
| Percent.EncodeDictEntries | py/oauth.py:55 | the result has as many entries as the input, with distinct names, and entry `i` is entry `i` of the input with its name and value encoded |
| Percent.EncodeDictKeys | py/oauth.py:55 | a name is in the result exactly when it is the encoding of a name of the input |
| Percent.EncodeDictLookup | py/oauth.py:55 | the value under an encoded name is the encoded value under the original name |
| Percent.EncodeDictRespectsEq | py/oauth.py:49-55 | mappings with the same entries in another order give mappings with the same entries |
| Dicts.SetItemKeys | py/oauth.py:126-128 | `d[k] = v` keeps the names of `d` in place and appends `k` only if new |
| Dicts.SetItemLookup | py/oauth.py:159 | after `d[k] = v`, `k` maps to `v` and every other name keeps its value |
| Dicts.UpdateWithKeys | py/oauth.py:138-142 | the names after `d.update(e)` are those of `d` and of `e` |
| Dicts.UpdateWithLookup | py/oauth.py:138-142 | after `d.update(e)`, a name of `e` maps to its value in `e`, and any other name keeps its value in `d` |
| Dicts.PermutedDictsEqual | py/oauth.py:49-55 | permuting the entries of a dict with distinct names keeps its entries |
| Signing.OverwriteProperties | py/oauth.py:88-96 | a credential given replaces the stored one and a None keeps it; an all-None update changes nothing; repeating an update changes nothing more |
| Signing.PostTexts | py/oauth.py:133 | turning the post values into text keeps their names |
| Signing.AuthHeaderParamsHooks | py/oauth.py:125-128 | the test hooks replace the nonce and the timestamp in place |
| Signing.AuthHeaderParamsDistinct | py/oauth.py:117-124 | the six OAuth parameters have distinct names, none of them `oauth_signature` |
| Signing.SignatureParamsContents | py/oauth.py:138-142 | the signed names are the query names, the post names unless multipart, and the OAuth names, each once; an OAuth parameter overrides a post variable, which overrides a query variable |
| Signing.SortedEntriesAreTheEntries | py/oauth.py:148 | `[(name, d[name]) for name in sorted(d)]` has the entries of `d`, strictly ordered by name |
| Signing.AuthorizationIgnoresOrder | py/oauth.py:138-162 | the Authorization header does not depend on the order of the query and post variables |
| Signing.BaseStringParts | py/oauth.py:144-150 | the base string splits on `&` into exactly the method, the encoded URL and the encoded normalized parameters |
| Signing.SigningKeyParts | py/oauth.py:152-155 | the signing key always contains `&`: it splits into the two encoded secrets, with None counting as the empty string |
| Signing.SigningKeyInjective | py/oauth.py:152-155 | the signing key determines both secrets, None and empty being alike |
| Signing.OAuthNamesSorted | py/oauth.py:161-162 | the seven OAuth names are distinct, and `sorted` keeps them in the order consumer_key, nonce, signature, signature_method, timestamp, token, version |
| Signing.AuthorizationHeaderLayout | py/oauth.py:159-166 | the header is `OAuth ` followed by the seven `name="value"` pairs in sorted order, joined by `, `, with the encoded signature |
| Signing.SerializeInjective | py/oauth.py:169-173 | a query string or URL-encoded body of encoded entries determines the entries and their order |
| Signing.RequestUrlInjective | py/oauth.py:168-169 | the URL determines the query variables |
| Signing.RequestUrlShape | py/oauth.py:168-169 | the URL changes exactly when there are query variables, and always starts with the base URL; it then continues with `?`, and the rest splits on `&` into the encoded `name=value` fields in the caller's order |
| Signing.PayloadShape | py/oauth.py:171-220 | the body is None exactly when there are no post variables; only a multipart body can fail; a multipart body ends with `--` boundary `--` |
| Signing.AttachmentDefaults | py/oauth.py:194-214 | an attachment that gives only its data gets file name `""`, MIME type `image/jpeg` and transfer encoding `binary`, and its raw data follows the header, then CRLF |
| Signing.AttachmentGiven | py/oauth.py:194-214 | a file name, MIME type and transfer encoding the attachment gives are used instead of the defaults, with the raw data after the header, then CRLF |
| Signing.CollectErr | py/oauth.py:188-215 | a failed build reports the first failing entry |
| Signing.PartsOk | py/oauth.py:188-215 | the parts succeed exactly when every attachment has its data |
| Signing.PartsText | py/oauth.py:188-215 | the successful parts are the post variables' parts in order, values unencoded |
| Signing.PartsErr | py/oauth.py:188-215 | a failure names the first attachment without data |
| Signing.MultipartBodyResult | py/oauth.py:178-217 | the body succeeds exactly when every attachment has its data; it is then the parts in order followed by `--` boundary `--`, and otherwise reports the first attachment without data |
| Signing.HeadersAfterContents | py/oauth.py:164-176 | afterwards `Authorization` holds the new header, replacing any earlier one; `Content-Type` is set exactly in the multipart case; every other header keeps its value |
| Signer.Headers.constructor | py/oauth.py:164-165 | a header dict with the given entries, each name once |
| Signer.Headers.Set | py/oauth.py:166 | `headers[name] = value` replaces or appends that one entry, and the names stay distinct |
| Signer.BuildMultipartPayload | py/oauth.py:178-217 | the loop's result is the multipart body, or the error of the first attachment without data |
| Signer.OAuth1.constructor | py/oauth.py:74-86 | the credentials given are stored, with version `1.0`, method `HMAC-SHA1` and no test hooks |
| Signer.OAuth1.Update | py/oauth.py:88-96 | `__call__` replaces exactly the credentials that are not None and changes nothing else |
| Signer.OAuth1.AuthParams | py/oauth.py:116-128 | the six OAuth parameters, with the hook values or a 42-character random nonce and the decimal clock |
| Signer.OAuth1.SignedAuthorization | py/oauth.py:130-162 | the Authorization value and the encoded query variables; the encoded post variables unless the body is multipart, whose loop reads the raw ones |
| Signer.OAuth1.InitRequest | py/oauth.py:99-222 | the returned method, URL and body are those of the signed request; the caller's header dict, or a new one, is updated by `Authorization` (and `Content-Type` for multipart) and nothing else, and still holds each name once |

## Left out

- HMAC-SHA1 and base64 (line 157) are not computed. They are the function parameter `hmac`, which takes the key and the UTF-8 bytes of the base string.
- The random source `random.SystemRandom` (lines 32-36) is not modelled. Its draws are the parameters `noncePicks` and `boundaryPicks`, sequences of indices below 62.
- The clock `time.time()` (line 120) is not modelled either. Its value is the parameter `epochSeconds`, already truncated to whole seconds.
- Signing.PostTexts: `str()` of a post value is taken as given. A scalar value is its text, and `str()` of an attachment dict (line 133 with line 55) is the parameter `dictStr`. Python's rendering of dicts is not modelled.
- Strings.UpperAscii: `upper()` is modelled for ASCII letters only, because HTTP method names are ASCII. Python's Unicode case mapping is not modelled.
- Query values, like post values, are taken in their `str()` form (line 55). A caller that passes a number, such as an integer `count`, is modelled by passing its decimal text.
- Python 2's mixing of `str`, `unicode` and byte strings is not modelled. Text is a sequence of Unicode scalar values, and `bytearray(s, 'utf-8')` is an explicit UTF-8 encoder.
- Percent.PercentEncode: the model encodes every text through its UTF-8 bytes. Under Python 2, `bytearray(utf8_str, 'utf-8')` (line 45) appears to fail on a byte string holding non-ASCII bytes. The model therefore produces escapes where Python 2 raises an exception. The two agree on ASCII text, which `Percent.Utf8OfAscii` shows is its own UTF-8 encoding.
- Percent.EncodeDict: `percent_encode(str(val))` (line 55) appears to raise `UnicodeEncodeError` under Python 2 for a `unicode` value with non-ASCII characters. Such a query or post value, for example a tweet's `status` outside a multipart body, then cannot be signed. The model signs it anyway and does not capture that failure.
- Signing.MultipartBodyResult, Signer.BuildMultipartPayload and Signing.AuthorizationHeaderLayout: under Python 2, `str.format` appears to raise `UnicodeEncodeError` when a `unicode` argument holds non-ASCII characters. This affects `param_template.format(name, val)` (line 191), `data_template.format(name, fname, ...)` (line 210) and `'{:}="{:}"'.format(name, ...)` (line 161) for a non-ASCII consumer key or access token. A non-ASCII `status` in a multipart request is the ordinary case. The model builds the body or header anyway, so "succeeds exactly when every attachment has its data" holds of the model only. The two agree on ASCII text, which `Percent.Utf8OfAscii` shows is its own UTF-8 encoding.
- The iteration order of Python 2 dicts is not modelled. Mappings iterate in their insertion order. `Signing.AuthorizationIgnoresOrder` shows the signature does not depend on that order. The query string and the bodies do follow it.
- A mapping argument given as None is treated as the empty mapping, because the source only tests its truthiness and passes it to `percent_encode_dict`.
- The `test_nonce` and `test_timestamp` attributes, which tests may set on the object (lines 125-128), are the optional fields `testNonce` and `testTimestamp`.
- `gae_send_request.py`, `twitterapi.py` and `tweets.py` are not part of this model. They send the request over the network and call the Twitter API on top of this module.
