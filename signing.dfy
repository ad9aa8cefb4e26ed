/**
  The values `OAuth1.init_request` (py/oauth.py) computes, as functions of
  its inputs: the signed parameter set, the signature base string (laid
  out as in section 3.4.1 of RFC 5849, but without normalizing the URL,
  without encoding the method, and with one value per name), the signing
  key (section 3.4.2), the Authorization header (section 3.5.1), the query
  string, the URL-encoded body and the multipart/form-data body (RFC 7578).
 */
module Signing {
  import opened Wrappers
  import opened Strings
  import opened Dicts
  import opened Percent

  // ---------------------------------------------------------------------
  // Values of the request
  // ---------------------------------------------------------------------

  /** The four secrets of an `OAuth1` object; any of them may be None. */
  datatype Credentials = Credentials(
    consumerKey: Option<string>,
    consumerSecretKey: Option<string>,
    accessToken: Option<string>,
    accessSecretToken: Option<string>)

  /** A binary post value: a dict with optional `filename`, `mimetype`,
      `encoding` and the `data` that the builder reads without a default. */
  datatype Attachment = Attachment(
    filename: Option<string>,
    mimetype: Option<string>,
    encoding: Option<string>,
    data: Option<string>)

  /** A post value: a scalar (in its `str()` form) or an attachment dict. */
  datatype PostValue = Field(text: string) | File(attachment: Attachment)

  /** The exception the multipart builder can raise: `val['data']` of an attachment without it. */
  datatype SignError = MissingAttachmentData(name: string)

  /** `__call__`: every argument that is not None replaces the stored value; None keeps it. */
  function Overwrite(c: Credentials, update: Credentials): Credentials
  {
    Credentials(
      if update.consumerKey.Some? then update.consumerKey else c.consumerKey,
      if update.consumerSecretKey.Some? then update.consumerSecretKey else c.consumerSecretKey,
      if update.accessToken.Some? then update.accessToken else c.accessToken,
      if update.accessSecretToken.Some? then update.accessSecretToken else c.accessSecretToken)
  }

  const NoCredentials := Credentials(None, None, None, None)

  /** An update replaces exactly the fields it gives, leaves the others, and applying it twice changes nothing more. */
  lemma OverwriteProperties(c: Credentials, update: Credentials)
    ensures Overwrite(c, NoCredentials) == c
    ensures Overwrite(NoCredentials, update) == update
    ensures Overwrite(Overwrite(c, update), update) == Overwrite(c, update)
    ensures update.consumerKey.Some? ==> Overwrite(c, update).consumerKey == update.consumerKey
    ensures update.consumerKey.None? ==> Overwrite(c, update).consumerKey == c.consumerKey
    ensures update.consumerSecretKey.Some? ==> Overwrite(c, update).consumerSecretKey == update.consumerSecretKey
    ensures update.consumerSecretKey.None? ==> Overwrite(c, update).consumerSecretKey == c.consumerSecretKey
    ensures update.accessToken.Some? ==> Overwrite(c, update).accessToken == update.accessToken
    ensures update.accessToken.None? ==> Overwrite(c, update).accessToken == c.accessToken
    ensures update.accessSecretToken.Some? ==> Overwrite(c, update).accessSecretToken == update.accessSecretToken
    ensures update.accessSecretToken.None? ==> Overwrite(c, update).accessSecretToken == c.accessSecretToken
  {
  }

  /** HMAC-SHA1 of a message under a key, base64-encoded (line 157). */
  type HmacSha1B64 = (string, seq<byte>) -> string

  /** What `str()` of a Python dict gives; used only when a post value is an attachment and the body is not multipart. */
  type DictStr = Attachment -> string

  /** The text of an attribute that may be None, with `default` standing for None. */
  function OrDefault(x: Option<string>, default: string): string
  {
    match x
    case Some(s) => s
    case None => default
  }

  /** `str(x)` and `'{:}'.format(x)` of an attribute that may be None. */
  function PyStr(x: Option<string>): string
  {
    OrDefault(x, "None")
  }

  /** `x or ''` */
  function OrEmpty(x: Option<string>): string
  {
    OrDefault(x, "")
  }

  // ---------------------------------------------------------------------
  // The OAuth parameters
  // ---------------------------------------------------------------------

  const ConsumerKeyName := "oauth_consumer_key"
  const NonceName := "oauth_nonce"
  const TimestampName := "oauth_timestamp"
  const SignatureMethodName := "oauth_signature_method"
  const VersionName := "oauth_version"
  const TokenName := "oauth_token"
  const SignatureName := "oauth_signature"

  /** `auth_header_params` before the signature is added, in insertion order. */
  function AuthHeaderParams(consumerKey: Option<string>, nonce: string, timestamp: string,
                            signatureMethod: string, version: string, token: Option<string>): Dict<string>
  {
    [(ConsumerKeyName, PyStr(consumerKey)), (NonceName, nonce), (TimestampName, timestamp),
     (SignatureMethodName, signatureMethod), (VersionName, version), (TokenName, PyStr(token))]
  }

  /** The post values in the form that `percent_encode_dict` stringifies them to. */
  function PostTexts(postVars: Dict<PostValue>, dictStr: DictStr): (texts: Dict<string>)
    ensures Keys(texts) == Keys(postVars)
  {
    seq(|postVars|, i requires 0 <= i < |postVars| =>
      (postVars[i].0, match postVars[i].1 case Field(t) => t case File(a) => dictStr(a)))
  }

  /** `auth_signature_params`: the encoded query variables, then the encoded post
      variables unless the body is multipart, then the encoded OAuth parameters. */
  function SignatureParams(encQuery: Dict<string>, encPost: Dict<string>, encAuth: Dict<string>,
                           multipart: bool): Dict<string>
  {
    var withQuery := UpdateWith([], encQuery);
    var withPost := if multipart then withQuery else UpdateWith(withQuery, encPost);
    UpdateWith(withPost, encAuth)
  }

  // ---------------------------------------------------------------------
  // Signature base string and signing key
  // ---------------------------------------------------------------------

  /** The test hooks replace the nonce and the timestamp in place. */
  lemma AuthHeaderParamsHooks(consumerKey: Option<string>, nonce: string, timestamp: string,
                              signatureMethod: string, version: string, token: Option<string>, nonce': string, timestamp': string)
    ensures SetItem(AuthHeaderParams(consumerKey, nonce, timestamp, signatureMethod, version, token), NonceName, nonce')
         == AuthHeaderParams(consumerKey, nonce', timestamp, signatureMethod, version, token)
    ensures SetItem(AuthHeaderParams(consumerKey, nonce, timestamp, signatureMethod, version, token), TimestampName, timestamp')
         == AuthHeaderParams(consumerKey, nonce, timestamp', signatureMethod, version, token)
  {
    var d := AuthHeaderParams(consumerKey, nonce, timestamp, signatureMethod, version, token);
    assert d[0].0 != NonceName && d[1].0 == NonceName;
    assert d[0].0 != TimestampName && d[1].0 != TimestampName && d[2].0 == TimestampName;
  }

  /** The names of a dict in sorted order are its keys. */
  lemma SortedNamesAreKeys(params: Dict<string>)
    ensures forall i :: 0 <= i < |SortStrings(Keys(params))| ==> SortStrings(Keys(params))[i] in Keys(params)
  {
    var names := SortStrings(Keys(params));
    forall i | 0 <= i < |names| ensures names[i] in Keys(params) {
      assert names[i] in multiset(names);
    }
  }

  /** The entries of a dict, sorted by name: what `sorted(d.keys())` iterates over, paired with `d[name]`. */
  function SortedEntries(params: Dict<string>): Dict<string>
  {
    var names := SortStrings(Keys(params));
    SortedNamesAreKeys(params);
    seq(|names|, i requires 0 <= i < |names| => (names[i], Lookup(params, names[i])))
  }

  /** The normalized request parameters: `name=value` for every parameter, sorted by name, joined by `&`. */
  function NormalizedParameters(params: Dict<string>): string
  {
    Serialize(SortedEntries(params))
  }

  /** `signature_str` before its UTF-8 encoding. */
  function BaseString(httpMethod: string, url: string, params: Dict<string>): string
  {
    Join("&", [httpMethod, PercentEncode(url), PercentEncode(NormalizedParameters(params))])
  }

  /** `signing_key` */
  function SigningKey(consumerSecretKey: Option<string>, accessSecretToken: Option<string>): string
  {
    Join("&", [PercentEncode(OrEmpty(consumerSecretKey)), PercentEncode(OrEmpty(accessSecretToken))])
  }

  /** `percent_encode(oauth_signature)` */
  function EncodedSignature(hmac: HmacSha1B64, key: string, base: string): string
  {
    PercentEncode(hmac(key, Utf8(base)))
  }

  // ---------------------------------------------------------------------
  // Authorization header, query string and URL-encoded body
  // ---------------------------------------------------------------------

  /** `'{:}="{:}"'.format(name, value)` */
  function HeaderField(name: string, value: string): string
  {
    name + "=\"" + value + "\""
  }

  /** `'OAuth ' + auth_header`: `name="value"` sorted by name, joined by `, `. */
  function AuthorizationHeader(params: Dict<string>): string
  {
    var entries := SortedEntries(params);
    "OAuth " + Join(", ", seq(|entries|, i requires 0 <= i < |entries| => HeaderField(entries[i].0, entries[i].1)))
  }

  /** `name + '=' + val` for every entry, in iteration order. */
  function Fields(d: Dict<string>): seq<string>
  {
    seq(|d|, i requires 0 <= i < |d| => d[i].0 + "=" + d[i].1)
  }

  /** `'&'.join([name + '=' + val for name, val in d.iteritems()])` */
  function Serialize(d: Dict<string>): string
  {
    Join("&", Fields(d))
  }

  /** The request URL: the query string is appended only when there are query variables. */
  function RequestUrl(url: string, queryVars: Dict<string>): string
  {
    if queryVars == [] then url else url + "?" + Serialize(EncodeDict(queryVars))
  }

  // ---------------------------------------------------------------------
  // Multipart/form-data body
  // ---------------------------------------------------------------------

  /** `boundary_str`: the random token between two runs of five `=`. */
  function BoundaryString(token: string): string
  {
    "=====" + token + "====="
  }

  function MultipartContentType(boundary: string): string
  {
    "multipart/form-data; boundary=" + boundary
  }

  /** The line that opens each part, `--` and the boundary. */
  function Delimiter(boundary: string): string
  {
    "--" + boundary
  }

  /** `param_template.format(name, val)` */
  function FieldPart(delimiter: string, name: string, value: string): string
  {
    delimiter + "\r\nContent-Disposition: form-data; name=\"" + name + "\"\r\n\r\n" + value + "\r\n"
  }

  /** `data_template.format(name, fname, mimetype, encoding)` */
  function FileHeader(delimiter: string, name: string, filename: string, mimetype: string, encoding: string): string
  {
    delimiter + "\r\nContent-Disposition: form-data; name=\"" + name + "\"; filename=\"" + filename + "\"\r\n"
    + "Content-Type: " + mimetype + "\r\n"
    + "Content-Transfer-Encoding: " + encoding + "\r\n\r\n"
  }

  const DefaultFilename := ""
  const DefaultMimetype := "image/jpeg"
  const DefaultEncoding := "binary"

  /** An attachment without `data`: the builder raises KeyError on it. */
  predicate MissingData(value: PostValue)
  {
    value.File? && value.attachment.data.None?
  }

  /** The text one post variable contributes to the multipart body when it has its data. */
  function PartText(delimiter: string, name: string, value: PostValue): string
  {
    match value
    case Field(text) => FieldPart(delimiter, name, text)
    case File(a) =>
      FileHeader(delimiter, name, OrDefault(a.filename, DefaultFilename),
                 OrDefault(a.mimetype, DefaultMimetype), OrDefault(a.encoding, DefaultEncoding))
      + OrEmpty(a.data) + "\r\n"
  }

  /** `PartText` unfolded for an attachment with its data. This is only a proof aid
      for the multipart loop, which would otherwise unfold `PartText` itself; the
      properties of the part are `AttachmentDefaults` and `AttachmentGiven`. */
  lemma FilePartText(delimiter: string, name: string, a: Attachment)
    requires a.data.Some?
    ensures PartText(delimiter, name, File(a))
         == FileHeader(delimiter, name, OrDefault(a.filename, DefaultFilename), OrDefault(a.mimetype, DefaultMimetype),
                       OrDefault(a.encoding, DefaultEncoding)) + a.data.value + "\r\n"
  {
  }

  /** An attachment that gives only its data gets the file name `""`, the MIME type
      `image/jpeg` and the transfer encoding `binary`; its data follows the header unencoded. */
  lemma AttachmentDefaults(delimiter: string, name: string, data: string)
    ensures PartText(delimiter, name, File(Attachment(None, None, None, Some(data))))
         == FileHeader(delimiter, name, "", "image/jpeg", "binary") + data + "\r\n"
  {
  }

  /** The values an attachment gives replace the defaults. */
  lemma AttachmentGiven(delimiter: string, name: string, filename: string, mimetype: string, encoding: string, data: string)
    ensures PartText(delimiter, name, File(Attachment(Some(filename), Some(mimetype), Some(encoding), Some(data))))
         == FileHeader(delimiter, name, filename, mimetype, encoding) + data + "\r\n"
  {
  }

  /** One iteration of the multipart loop. */
  function Part(delimiter: string, name: string, value: PostValue): Result<string, SignError>
  {
    if MissingData(value) then Err(MissingAttachmentData(name)) else Ok(PartText(delimiter, name, value))
  }

  /** The texts of all post variables, in iteration order. */
  function PartTexts(delimiter: string, postVars: Dict<PostValue>): seq<string>
  {
    seq(|postVars|, i requires 0 <= i < |postVars| => PartText(delimiter, postVars[i].0, postVars[i].1))
  }

  /** The outcome of every iteration of the multipart loop, in iteration order. */
  function PartResults(delimiter: string, postVars: Dict<PostValue>): (results: seq<Result<string, SignError>>)
    ensures |results| == |postVars|
  {
    seq(|postVars|, i requires 0 <= i < |postVars| => Part(delimiter, postVars[i].0, postVars[i].1))
  }

  /** The outcomes of the iterations joined in order: their texts, or the first error. */
  function Collect(results: seq<Result<string, SignError>>): Result<string, SignError>
    decreases |results|
  {
    if results == [] then Ok("")
    else
      match Collect(results[..|results| - 1])
      case Err(e) => Err(e)
      case Ok(prefix) =>
        match results[|results| - 1]
        case Err(e) => Err(e)
        case Ok(text) => Ok(prefix + text)
  }

  /** The text the loop has built once every part succeeded; an error ends the loop. */
  function Parts(delimiter: string, postVars: Dict<PostValue>): Result<string, SignError>
  {
    Collect(PartResults(delimiter, postVars))
  }

  /** `payload` of a multipart request: the parts, then the closing delimiter. */
  function MultipartBody(delimiter: string, postVars: Dict<PostValue>): Result<string, SignError>
  {
    match Parts(delimiter, postVars)
    case Err(e) => Err(e)
    case Ok(parts) => Ok(parts + delimiter + "--")
  }

  // ---------------------------------------------------------------------
  // The whole request
  // ---------------------------------------------------------------------

  /** Everything `init_request` produces, for a given nonce, timestamp and boundary token. */
  datatype SignedRequest = SignedRequest(
    httpMethod: string,
    url: string,
    authorization: string,
    contentType: Option<string>,
    payload: Result<Option<string>, SignError>)

  /** The Authorization header value of a request. */
  function Authorization(c: Credentials, signatureMethod: string, version: string, nonce: string,
                         timestamp: string, httpMethod: string, url: string, queryVars: Dict<string>,
                         postVars: Dict<PostValue>, multipart: bool, hmac: HmacSha1B64, dictStr: DictStr): string
  {
    var authParams := AuthHeaderParams(c.consumerKey, nonce, timestamp, signatureMethod, version, c.accessToken);
    var signed := SignatureParams(EncodeDict(queryVars), EncodeDict(PostTexts(postVars, dictStr)),
                                  EncodeDict(authParams), multipart);
    var base := BaseString(UpperAscii(httpMethod), url, signed);
    var key := SigningKey(c.consumerSecretKey, c.accessSecretToken);
    AuthorizationHeader(SetItem(authParams, SignatureName, EncodedSignature(hmac, key, base)))
  }

  /** `Authorization` unfolded over intermediate values a caller has already built. This is
      only a proof aid for `Signer.OAuth1.SignedAuthorization`, which would otherwise unfold
      `Authorization` itself; the properties of the header are the lemmas below. */
  lemma AuthorizationSteps(c: Credentials, signatureMethod: string, version: string, nonce: string,
                           timestamp: string, httpMethod: string, url: string, queryVars: Dict<string>,
                           postVars: Dict<PostValue>, multipart: bool, hmac: HmacSha1B64, dictStr: DictStr,
                           authParams: Dict<string>, signed: Dict<string>)
    requires authParams == AuthHeaderParams(c.consumerKey, nonce, timestamp, signatureMethod, version, c.accessToken)
    requires signed == SignatureParams(EncodeDict(queryVars), EncodeDict(PostTexts(postVars, dictStr)), EncodeDict(authParams), multipart)
    ensures Authorization(c, signatureMethod, version, nonce, timestamp, httpMethod, url, queryVars, postVars, multipart, hmac, dictStr)
         == AuthorizationHeader(SetItem(authParams, SignatureName,
              EncodedSignature(hmac, SigningKey(c.consumerSecretKey, c.accessSecretToken), BaseString(UpperAscii(httpMethod), url, signed))))
  {
  }

  function Payload(postVars: Dict<PostValue>, multipart: bool, boundary: string,
                   dictStr: DictStr): Result<Option<string>, SignError>
  {
    if postVars == [] then Ok(None)
    else if !multipart then Ok(Some(Serialize(EncodeDict(PostTexts(postVars, dictStr)))))
    else
      match MultipartBody(Delimiter(boundary), postVars)
      case Err(e) => Err(e)
      case Ok(body) => Ok(Some(body))
  }

  function SignRequest(c: Credentials, signatureMethod: string, version: string, nonce: string,
                       timestamp: string, boundaryToken: string, httpMethod: string, url: string,
                       queryVars: Dict<string>, postVars: Dict<PostValue>, multipart: bool,
                       hmac: HmacSha1B64, dictStr: DictStr): SignedRequest
  {
    var boundary := BoundaryString(boundaryToken);
    SignedRequest(
      UpperAscii(httpMethod),
      RequestUrl(url, queryVars),
      Authorization(c, signatureMethod, version, nonce, timestamp, httpMethod, url, queryVars,
                    postVars, multipart, hmac, dictStr),
      if multipart && postVars != [] then Some(MultipartContentType(boundary)) else None,
      Payload(postVars, multipart, boundary, dictStr))
  }

  /** The caller's headers after the call: `Authorization` set, and `Content-Type` for a multipart body. */
  function HeadersAfter(headers: Dict<string>, r: SignedRequest): Dict<string>
  {
    var withAuth := SetItem(headers, "Authorization", r.authorization);
    match r.contentType
    case None => withAuth
    case Some(t) => SetItem(withAuth, "Content-Type", t)
  }

  // ---------------------------------------------------------------------
  // Properties of the signed parameter set
  // ---------------------------------------------------------------------

  /** The signed parameters are the query variables, the post variables unless the
      body is multipart, and the OAuth parameters, each name once; an OAuth parameter
      overrides a post variable of the same name, which overrides a query variable. */
  lemma SignatureParamsContents(encQuery: Dict<string>, encPost: Dict<string>, encAuth: Dict<string>, multipart: bool)
    requires DistinctKeys(encQuery) && DistinctKeys(encPost) && DistinctKeys(encAuth)
    ensures DistinctKeys(SignatureParams(encQuery, encPost, encAuth, multipart))
    ensures forall k :: k in Keys(SignatureParams(encQuery, encPost, encAuth, multipart)) <==>
      k in Keys(encQuery) || (!multipart && k in Keys(encPost)) || k in Keys(encAuth)
    ensures forall k :: k in Keys(encAuth) ==>
      Lookup(SignatureParams(encQuery, encPost, encAuth, multipart), k) == Lookup(encAuth, k)
    ensures forall k :: !multipart && k in Keys(encPost) && k !in Keys(encAuth) ==>
      Lookup(SignatureParams(encQuery, encPost, encAuth, multipart), k) == Lookup(encPost, k)
    ensures forall k :: k in Keys(encQuery) && (multipart || k !in Keys(encPost)) && k !in Keys(encAuth) ==>
      Lookup(SignatureParams(encQuery, encPost, encAuth, multipart), k) == Lookup(encQuery, k)
  {
    var empty: Dict<string> := [];
    var withQuery := UpdateWith(empty, encQuery);
    UpdateWithKeys(empty, encQuery);
    var withPost := if multipart then withQuery else UpdateWith(withQuery, encPost);
    UpdateWithKeys(withQuery, encPost);
    var all := UpdateWith(withPost, encAuth);
    UpdateWithKeys(withPost, encAuth);
    assert all == SignatureParams(encQuery, encPost, encAuth, multipart);
    forall k | k in Keys(all)
      ensures Lookup(all, k) == if k in Keys(encAuth) then Lookup(encAuth, k)
                                else if !multipart && k in Keys(encPost) then Lookup(encPost, k)
                                else Lookup(encQuery, k)
    {
      UpdateWithLookup(withPost, encAuth, k);
      if k !in Keys(encAuth) {
        if !multipart {
          UpdateWithLookup(withQuery, encPost, k);
        }
        if k !in Keys(withPost) || k !in Keys(encPost) || multipart {
          UpdateWithLookup(empty, encQuery, k);
        }
      }
    }
  }

  /** The sorted view of a dict has the same entries, each name once, in strictly increasing order. */
  lemma SortedEntriesAreTheEntries(params: Dict<string>)
    requires DistinctKeys(params)
    ensures StrictlySorted(Keys(SortedEntries(params)))
    ensures DistinctKeys(SortedEntries(params))
    ensures DictEq(SortedEntries(params), params)
  {
    var names := SortStrings(Keys(params));
    var r := SortedEntries(params);
    SortStringsStrictly(Keys(params));
    assert Keys(r) == names;
    forall i, j | 0 <= i < j < |names| ensures names[i] != names[j] {
      LexLessIrreflexive(names[i]);
    }
    forall k ensures k in Keys(r) <==> k in Keys(params) {
      assert (k in names) == (k in multiset(names));
      assert (k in Keys(params)) == (k in multiset(Keys(params)));
    }
    forall k | k in Keys(r) ensures Lookup(r, k) == Lookup(params, k) {
      var i :| 0 <= i < |r| && Keys(r)[i] == k;
      LookupAt(r, i);
    }
  }

  /** Dicts with the same entries have the same sorted view, whatever their order. */
  lemma SortedEntriesRespectsEq(a: Dict<string>, b: Dict<string>)
    requires DistinctKeys(a) && DistinctKeys(b) && DictEq(a, b)
    ensures SortedEntries(a) == SortedEntries(b)
  {
    SortStringsCanonical(Keys(a), Keys(b));
    var names := SortStrings(Keys(a));
    SortedNamesAreKeys(a);
    forall i | 0 <= i < |names| ensures SortedEntries(a)[i] == SortedEntries(b)[i] {
      assert names[i] in Keys(a);
    }
  }

  /** The post variables as text keep their names and, under each name, the text of its value. */
  lemma PostTextsRespectsEq(p1: Dict<PostValue>, p2: Dict<PostValue>, dictStr: DictStr)
    requires DistinctKeys(p1) && DistinctKeys(p2) && DictEq(p1, p2)
    ensures DistinctKeys(PostTexts(p1, dictStr)) && DistinctKeys(PostTexts(p2, dictStr))
    ensures DictEq(PostTexts(p1, dictStr), PostTexts(p2, dictStr))
  {
    var t1, t2 := PostTexts(p1, dictStr), PostTexts(p2, dictStr);
    forall k | k in Keys(t1) ensures Lookup(t1, k) == Lookup(t2, k) {
      var i :| 0 <= i < |p1| && Keys(p1)[i] == k;
      var j :| 0 <= j < |p2| && Keys(p2)[j] == k;
      LookupAt(p1, i);
      LookupAt(p2, j);
      LookupAt(t1, i);
      LookupAt(t2, j);
    }
  }

  /** Equal inputs give equal signed parameter sets. */
  lemma SignatureParamsRespectsEq(q1: Dict<string>, q2: Dict<string>, p1: Dict<string>, p2: Dict<string>,
                                  encAuth: Dict<string>, multipart: bool)
    requires DistinctKeys(q1) && DistinctKeys(q2) && DistinctKeys(p1) && DistinctKeys(p2) && DistinctKeys(encAuth)
    requires DictEq(q1, q2) && DictEq(p1, p2)
    ensures DistinctKeys(SignatureParams(q1, p1, encAuth, multipart))
    ensures DistinctKeys(SignatureParams(q2, p2, encAuth, multipart))
    ensures DictEq(SignatureParams(q1, p1, encAuth, multipart), SignatureParams(q2, p2, encAuth, multipart))
  {
    var empty: Dict<string> := [];
    var w1, w2 := UpdateWith(empty, q1), UpdateWith(empty, q2);
    UpdateWithKeys(empty, q1);
    UpdateWithKeys(empty, q2);
    UpdateWithRespectsEq(empty, empty, q1, q2);
    var v1 := if multipart then w1 else UpdateWith(w1, p1);
    var v2 := if multipart then w2 else UpdateWith(w2, p2);
    UpdateWithKeys(w1, p1);
    UpdateWithKeys(w2, p2);
    UpdateWithRespectsEq(w1, w2, p1, p2);
    UpdateWithKeys(v1, encAuth);
    UpdateWithKeys(v2, encAuth);
    UpdateWithRespectsEq(v1, v2, encAuth, encAuth);
  }

  /** The Authorization header does not depend on the order in which the query and
      post variables are given: the signature is over the sorted parameter set. */
  lemma AuthorizationIgnoresOrder(c: Credentials, signatureMethod: string, version: string, nonce: string,
                                  timestamp: string, httpMethod: string, url: string,
                                  q1: Dict<string>, q2: Dict<string>, p1: Dict<PostValue>, p2: Dict<PostValue>,
                                  multipart: bool, hmac: HmacSha1B64, dictStr: DictStr)
    requires DistinctKeys(q1) && DistinctKeys(q2) && DistinctKeys(p1) && DistinctKeys(p2)
    requires multiset(q1) == multiset(q2) && multiset(p1) == multiset(p2)
    ensures Authorization(c, signatureMethod, version, nonce, timestamp, httpMethod, url, q1, p1, multipart, hmac, dictStr)
         == Authorization(c, signatureMethod, version, nonce, timestamp, httpMethod, url, q2, p2, multipart, hmac, dictStr)
  {
    PermutedDictsEqual(q1, q2);
    PermutedDictsEqual(p1, p2);
    EncodeDictEntries(q1);
    EncodeDictEntries(q2);
    EncodeDictRespectsEq(q1, q2);
    var t1, t2 := PostTexts(p1, dictStr), PostTexts(p2, dictStr);
    PostTextsRespectsEq(p1, p2, dictStr);
    EncodeDictEntries(t1);
    EncodeDictEntries(t2);
    EncodeDictRespectsEq(t1, t2);
    var authParams := AuthHeaderParams(c.consumerKey, nonce, timestamp, signatureMethod, version, c.accessToken);
    AuthHeaderParamsDistinct(c.consumerKey, nonce, timestamp, signatureMethod, version, c.accessToken);
    EncodeDictEntries(authParams);
    var s1 := SignatureParams(EncodeDict(q1), EncodeDict(t1), EncodeDict(authParams), multipart);
    var s2 := SignatureParams(EncodeDict(q2), EncodeDict(t2), EncodeDict(authParams), multipart);
    SignatureParamsRespectsEq(EncodeDict(q1), EncodeDict(q2), EncodeDict(t1), EncodeDict(t2), EncodeDict(authParams), multipart);
    SortedEntriesRespectsEq(s1, s2);
    assert NormalizedParameters(s1) == NormalizedParameters(s2);
  }

  // ---------------------------------------------------------------------
  // Properties of the base string, the signing key and the header
  // ---------------------------------------------------------------------

  /** The base string has exactly three `&`-separated parts — the method, the encoded
      URL and the encoded normalized parameters — whenever the method has no `&`. */
  lemma BaseStringParts(httpMethod: string, url: string, params: Dict<string>)
    requires '&' !in httpMethod
    ensures Split(BaseString(httpMethod, url, params), '&')
         == [httpMethod, PercentEncode(url), PercentEncode(NormalizedParameters(params))]
  {
    var parts := [httpMethod, PercentEncode(url), PercentEncode(NormalizedParameters(params))];
    PercentEncodeHasNoSeparators(url);
    PercentEncodeHasNoSeparators(NormalizedParameters(params));
    SplitJoin(parts, '&');
  }

  /** The signing key is the encoded consumer secret and the encoded token secret around
      one `&`, so it determines both secrets; without secrets it is the single `&`. */
  lemma SigningKeyParts(consumerSecretKey: Option<string>, accessSecretToken: Option<string>)
    ensures Split(SigningKey(consumerSecretKey, accessSecretToken), '&')
         == [PercentEncode(OrEmpty(consumerSecretKey)), PercentEncode(OrEmpty(accessSecretToken))]
    ensures SigningKey(None, None) == "&"
  {
    var parts := [PercentEncode(OrEmpty(consumerSecretKey)), PercentEncode(OrEmpty(accessSecretToken))];
    PercentEncodeHasNoSeparators(OrEmpty(consumerSecretKey));
    PercentEncodeHasNoSeparators(OrEmpty(accessSecretToken));
    SplitJoin(parts, '&');
  }

  lemma SigningKeyInjective(cs1: Option<string>, ts1: Option<string>, cs2: Option<string>, ts2: Option<string>)
    requires SigningKey(cs1, ts1) == SigningKey(cs2, ts2)
    ensures OrEmpty(cs1) == OrEmpty(cs2) && OrEmpty(ts1) == OrEmpty(ts2)
  {
    SigningKeyParts(cs1, ts1);
    SigningKeyParts(cs2, ts2);
    PercentEncodeInjective(OrEmpty(cs1), OrEmpty(cs2));
    PercentEncodeInjective(OrEmpty(ts1), OrEmpty(ts2));
  }

  /** The seven OAuth parameter names in the order `sorted` puts them. */
  predicate IsSortedOAuthNames(names: seq<string>)
  {
    names == [ConsumerKeyName, NonceName, SignatureName, SignatureMethodName, TimestampName, TokenName, VersionName]
  }

  // Each adjacent pair of names is compared in a lemma of its own, at the first position where they differ.

  /** `oauth_c` before `oauth_n` */
  lemma NamesInOrder01(names: seq<string>)
    requires IsSortedOAuthNames(names)
    ensures |names| == 7 && LexLess(names[0], names[1])
  {
    LexLessAt(names[0], names[1], 6);
  }

  /** `oauth_n` before `oauth_s` */
  lemma NamesInOrder12(names: seq<string>)
    requires IsSortedOAuthNames(names)
    ensures |names| == 7 && LexLess(names[1], names[2])
  {
    LexLessAt(names[1], names[2], 6);
  }

  /** `oauth_signature` is a proper prefix of `oauth_signature_method` */
  lemma NamesInOrder23(names: seq<string>)
    requires IsSortedOAuthNames(names)
    ensures |names| == 7 && LexLess(names[2], names[3])
  {
    LexLessProperPrefix(names[2], names[3]);
  }

  /** `oauth_s` before `oauth_t` */
  lemma NamesInOrder34(names: seq<string>)
    requires IsSortedOAuthNames(names)
    ensures |names| == 7 && LexLess(names[3], names[4])
  {
    LexLessAt(names[3], names[4], 6);
  }

  /** `oauth_ti` before `oauth_to` */
  lemma NamesInOrder45(names: seq<string>)
    requires IsSortedOAuthNames(names)
    ensures |names| == 7 && LexLess(names[4], names[5])
  {
    LexLessAt(names[4], names[5], 7);
  }

  /** `oauth_t` before `oauth_v` */
  lemma NamesInOrder56(names: seq<string>)
    requires IsSortedOAuthNames(names)
    ensures |names| == 7 && LexLess(names[5], names[6])
  {
    LexLessAt(names[5], names[6], 6);
  }

  lemma SevenInOrder(s: seq<string>)
    requires |s| == 7
    requires LexLess(s[0], s[1]) && LexLess(s[1], s[2]) && LexLess(s[2], s[3])
    requires LexLess(s[3], s[4]) && LexLess(s[4], s[5]) && LexLess(s[5], s[6])
    ensures StrictlySorted(s) && Distinct(s)
  {
    AdjacentStrictlySorted(s);
    forall i, j | 0 <= i < j < |s| ensures s[i] != s[j] {
      LexLessIrreflexive(s[i]);
    }
  }

  /** The seven OAuth parameter names are distinct and sort as listed. */
  lemma OAuthNamesSorted(names: seq<string>)
    requires IsSortedOAuthNames(names)
    ensures StrictlySorted(names) && Distinct(names)
  {
    NamesInOrder01(names);
    NamesInOrder12(names);
    NamesInOrder23(names);
    NamesInOrder34(names);
    NamesInOrder45(names);
    NamesInOrder56(names);
    SevenInOrder(names);
  }

  lemma AuthHeaderParamsKeys(consumerKey: Option<string>, nonce: string, timestamp: string,
                             signatureMethod: string, version: string, token: Option<string>, names: seq<string>)
    requires IsSortedOAuthNames(names)
    ensures Keys(AuthHeaderParams(consumerKey, nonce, timestamp, signatureMethod, version, token))
         == [names[0], names[1], names[4], names[3], names[6], names[5]]
  {
  }

  lemma SixOfSevenDistinct(names: seq<string>, keys: seq<string>)
    requires |names| == 7 && Distinct(names)
    requires keys == [names[0], names[1], names[4], names[3], names[6], names[5]]
    ensures Distinct(keys) && names[2] !in keys
  {
  }

  /** The OAuth parameters have distinct names, none of them `oauth_signature`. */
  lemma AuthHeaderParamsDistinct(consumerKey: Option<string>, nonce: string, timestamp: string,
                                 signatureMethod: string, version: string, token: Option<string>)
    ensures DistinctKeys(AuthHeaderParams(consumerKey, nonce, timestamp, signatureMethod, version, token))
    ensures SignatureName !in Keys(AuthHeaderParams(consumerKey, nonce, timestamp, signatureMethod, version, token))
  {
    var names := [ConsumerKeyName, NonceName, SignatureName, SignatureMethodName, TimestampName, TokenName, VersionName];
    OAuthNamesSorted(names);
    AuthHeaderParamsKeys(consumerKey, nonce, timestamp, signatureMethod, version, token, names);
    SixOfSevenDistinct(names, Keys(AuthHeaderParams(consumerKey, nonce, timestamp, signatureMethod, version, token)));
  }

  /** The OAuth parameters once the signature is added: the six in insertion order, then the signature. */
  lemma AuthParamsWithSignature(consumerKey: Option<string>, nonce: string, timestamp: string, signatureMethod: string,
                                version: string, token: Option<string>, signature: string, names: seq<string>, values: seq<string>)
    requires IsSortedOAuthNames(names)
    requires values == [PyStr(consumerKey), nonce, signature, signatureMethod, timestamp, PyStr(token), version]
    ensures var full := SetItem(AuthHeaderParams(consumerKey, nonce, timestamp, signatureMethod, version, token), SignatureName, signature);
      && |full| == 7
      && full[0] == (names[0], values[0]) && full[1] == (names[1], values[1]) && full[2] == (names[4], values[4])
      && full[3] == (names[3], values[3]) && full[4] == (names[6], values[6]) && full[5] == (names[5], values[5])
      && full[6] == (names[2], values[2])
  {
    var params := AuthHeaderParams(consumerKey, nonce, timestamp, signatureMethod, version, token);
    AuthHeaderParamsDistinct(consumerKey, nonce, timestamp, signatureMethod, version, token);
    IndexOfPresent(params, SignatureName);
  }

  /** The header of seven entries whose sorted view is known. */
  lemma HeaderOfSortedEntries(full: Dict<string>, names: seq<string>, values: seq<string>)
    requires |names| == 7 && |values| == 7
    requires |SortedEntries(full)| == 7
    requires forall i :: 0 <= i < 7 ==> SortedEntries(full)[i] == (names[i], values[i])
    ensures AuthorizationHeader(full)
         == "OAuth " + Join(", ", [HeaderField(names[0], values[0]), HeaderField(names[1], values[1]),
                                   HeaderField(names[2], values[2]), HeaderField(names[3], values[3]),
                                   HeaderField(names[4], values[4]), HeaderField(names[5], values[5]),
                                   HeaderField(names[6], values[6])])
  {
    var entries := SortedEntries(full);
    assert seq(|entries|, i requires 0 <= i < |entries| => HeaderField(entries[i].0, entries[i].1))
        == [HeaderField(names[0], values[0]), HeaderField(names[1], values[1]),
            HeaderField(names[2], values[2]), HeaderField(names[3], values[3]),
            HeaderField(names[4], values[4]), HeaderField(names[5], values[5]),
            HeaderField(names[6], values[6])];
  }

  /** The Authorization header lists the seven OAuth parameters in this order:
      consumer key, nonce, signature, signature method, timestamp, token, version. */
  lemma AuthorizationHeaderLayout(consumerKey: Option<string>, nonce: string, timestamp: string,
                                  signatureMethod: string, version: string, token: Option<string>, signature: string)
    ensures AuthorizationHeader(SetItem(AuthHeaderParams(consumerKey, nonce, timestamp, signatureMethod, version, token),
                                        SignatureName, signature))
         == "OAuth " + Join(", ", [HeaderField(ConsumerKeyName, PyStr(consumerKey)), HeaderField(NonceName, nonce),
                                   HeaderField(SignatureName, signature), HeaderField(SignatureMethodName, signatureMethod),
                                   HeaderField(TimestampName, timestamp), HeaderField(TokenName, PyStr(token)),
                                   HeaderField(VersionName, version)])
  {
    var names := [ConsumerKeyName, NonceName, SignatureName, SignatureMethodName, TimestampName, TokenName, VersionName];
    var values := [PyStr(consumerKey), nonce, signature, signatureMethod, timestamp, PyStr(token), version];
    var full := SetItem(AuthHeaderParams(consumerKey, nonce, timestamp, signatureMethod, version, token), SignatureName, signature);
    OAuthNamesSorted(names);
    AuthParamsWithSignature(consumerKey, nonce, timestamp, signatureMethod, version, token, signature, names, values);
    SortedAuthEntries(names, values, full);
    HeaderOfSortedEntries(full, names, values);
  }

  lemma SortPermutedSeven(names: seq<string>, keys: seq<string>)
    requires |names| == 7 && StrictlySorted(names) && Distinct(names)
    requires keys == [names[0], names[1], names[4], names[3], names[6], names[5], names[2]]
    ensures Distinct(keys) && SortStrings(keys) == names
  {
    assert Distinct(keys);
    forall x ensures x in keys <==> x in names {
      assert x in names ==> (x == names[0] || x == names[1] || x == names[2] || x == names[3]
                          || x == names[4] || x == names[5] || x == names[6]);
    }
    SortStringsCanonical(keys, names);
    SortStringsOfSorted(names);
  }

  lemma SortedEntryAt(d: Dict<string>, names: seq<string>, i: nat, j: nat, v: string)
    requires DistinctKeys(d) && SortStrings(Keys(d)) == names
    requires i < |names| && j < |d| && d[j] == (names[i], v)
    ensures |SortedEntries(d)| == |names| && SortedEntries(d)[i] == (names[i], v)
  {
    LookupAt(d, j);
  }

  lemma SortedAuthKeys(names: seq<string>, values: seq<string>, full: Dict<string>)
    requires |names| == 7 && |values| == 7 && StrictlySorted(names) && Distinct(names)
    requires |full| == 7
    requires full[0] == (names[0], values[0]) && full[1] == (names[1], values[1]) && full[2] == (names[4], values[4])
    requires full[3] == (names[3], values[3]) && full[4] == (names[6], values[6]) && full[5] == (names[5], values[5])
    requires full[6] == (names[2], values[2])
    ensures DistinctKeys(full) && SortStrings(Keys(full)) == names
  {
    assert Keys(full) == [names[0], names[1], names[4], names[3], names[6], names[5], names[2]];
    SortPermutedSeven(names, Keys(full));
  }

  /** The sorted view of the seven OAuth entries, whatever the names, once they are sorted and distinct. */
  lemma SortedAuthEntries(names: seq<string>, values: seq<string>, full: Dict<string>)
    requires |names| == 7 && |values| == 7 && StrictlySorted(names) && Distinct(names)
    requires |full| == 7
    requires full[0] == (names[0], values[0]) && full[1] == (names[1], values[1]) && full[2] == (names[4], values[4])
    requires full[3] == (names[3], values[3]) && full[4] == (names[6], values[6]) && full[5] == (names[5], values[5])
    requires full[6] == (names[2], values[2])
    ensures |SortedEntries(full)| == 7
    ensures forall i :: 0 <= i < 7 ==> SortedEntries(full)[i] == (names[i], values[i])
  {
    SortedAuthKeys(names, values, full);
    SortedEntryAt(full, names, 0, 0, values[0]);
    SortedEntryAt(full, names, 1, 1, values[1]);
    SortedEntryAt(full, names, 2, 6, values[2]);
    SortedEntryAt(full, names, 3, 3, values[3]);
    SortedEntryAt(full, names, 4, 2, values[4]);
    SortedEntryAt(full, names, 5, 5, values[5]);
    SortedEntryAt(full, names, 6, 4, values[6]);
  }

  // ---------------------------------------------------------------------
  // Properties of the query string
  // ---------------------------------------------------------------------

  /** No name or value of the dict contains `&` or `=`. */
  predicate NoSeparators(d: Dict<string>)
  {
    forall i :: 0 <= i < |d| ==> '&' !in d[i].0 && '=' !in d[i].0 && '&' !in d[i].1 && '=' !in d[i].1
  }

  /** A serialized dict whose names and values hold no separator parses back into its fields and their halves. */
  lemma SerializeFields(d: Dict<string>)
    requires d != [] && NoSeparators(d)
    ensures Split(Serialize(d), '&') == Fields(d)
    ensures forall i :: 0 <= i < |d| ==> Split(Fields(d)[i], '=') == [d[i].0, d[i].1]
  {
    var fields := Fields(d);
    forall i | 0 <= i < |d| ensures '&' !in fields[i] && Split(fields[i], '=') == [d[i].0, d[i].1] {
      assert fields[i] == d[i].0 + ['='] + d[i].1;
      SplitAtFirstSeparator(d[i].0, '=', d[i].1);
      SplitWithoutSeparator(d[i].1, '=');
    }
    SplitJoin(fields, '&');
  }

  lemma SerializeInjective(d1: Dict<string>, d2: Dict<string>)
    requires d1 != [] && d2 != [] && NoSeparators(d1) && NoSeparators(d2)
    requires Serialize(d1) == Serialize(d2)
    ensures d1 == d2
  {
    SerializeFields(d1);
    SerializeFields(d2);
    assert |d1| == |Fields(d1)| == |Fields(d2)| == |d2|;
    forall i | 0 <= i < |d1| ensures d1[i] == d2[i] {
      assert Split(Fields(d1)[i], '=') == Split(Fields(d2)[i], '=');
    }
  }

  lemma EncodeDictNoSeparators(d: Dict<string>)
    ensures NoSeparators(EncodeDict(d))
  {
    forall i | 0 <= i < |EncodeDict(d)|
      ensures '&' !in EncodeDict(d)[i].0 && '=' !in EncodeDict(d)[i].0 && '&' !in EncodeDict(d)[i].1 && '=' !in EncodeDict(d)[i].1
    {
      PercentEncodeHasNoSeparators(d[i].0);
      PercentEncodeHasNoSeparators(d[i].1);
    }
  }

  /** The URL is left alone when there are no query variables, and otherwise grows by a
      query string from which the query variables can be recovered. */
  lemma RequestUrlInjective(url: string, q1: Dict<string>, q2: Dict<string>)
    requires RequestUrl(url, q1) == RequestUrl(url, q2)
    ensures q1 == q2
  {
    assert q1 == [] <==> |RequestUrl(url, q1)| == |url|;
    assert q2 == [] <==> |RequestUrl(url, q2)| == |url|;
    if q1 != [] {
      var s1, s2 := Serialize(EncodeDict(q1)), Serialize(EncodeDict(q2));
      assert s1 == RequestUrl(url, q1)[|url| + 1..];
      assert s2 == RequestUrl(url, q2)[|url| + 1..];
      EncodeDictNoSeparators(q1);
      EncodeDictNoSeparators(q2);
      SerializeInjective(EncodeDict(q1), EncodeDict(q2));
      assert |q1| == |EncodeDict(q1)| == |EncodeDict(q2)| == |q2|;
      forall i | 0 <= i < |q1| ensures q1[i] == q2[i] {
        assert EncodeDict(q1)[i] == EncodeDict(q2)[i];
        PercentEncodeInjective(q1[i].0, q2[i].0);
        PercentEncodeInjective(q1[i].1, q2[i].1);
      }
    }
  }

  // ---------------------------------------------------------------------
  // Properties of the multipart body
  // ---------------------------------------------------------------------

  predicate AllOk(results: seq<Result<string, SignError>>)
  {
    forall i :: 0 <= i < |results| ==> results[i].Ok?
  }

  function Texts(results: seq<Result<string, SignError>>): seq<string>
    requires AllOk(results)
  {
    seq(|results|, i requires 0 <= i < |results| => results[i].value)
  }

  /** One more successful outcome extends the joined text by its own. */
  lemma CollectStep(results: seq<Result<string, SignError>>, i: nat, prefix: string, text: string)
    requires i < |results| && Collect(results[..i]) == Ok(prefix) && results[i] == Ok(text)
    ensures Collect(results[..i + 1]) == Ok(prefix + text)
  {
    assert results[..i + 1][..i] == results[..i];
  }

  /** Joining succeeds exactly when every outcome does. */
  lemma {:induction false} CollectOk(results: seq<Result<string, SignError>>)
    ensures Collect(results).Ok? <==> AllOk(results)
    decreases |results|
  {
    if results != [] {
      var n := |results|;
      CollectOk(results[..n - 1]);
      assert forall i :: 0 <= i < n - 1 ==> results[..n - 1][i] == results[i];
    }
  }

  /** A successful join is the concatenation of the texts in order. */
  lemma {:induction false} CollectText(results: seq<Result<string, SignError>>)
    requires Collect(results).Ok?
    ensures AllOk(results) && Collect(results).value == Concat(Texts(results))
    decreases |results|
  {
    CollectOk(results);
    if results != [] {
      var n := |results|;
      var init := results[..n - 1];
      CollectOk(init);
      CollectText(init);
      assert Texts(results) == Texts(init) + [results[n - 1].value];
      ConcatAppend(Texts(init), results[n - 1].value);
    }
  }

  /** A failed join reports the first error. */
  lemma {:induction false} CollectErr(results: seq<Result<string, SignError>>)
    requires Collect(results).Err?
    ensures exists j :: 0 <= j < |results| && results[j].Err?
                     && (forall i :: 0 <= i < j ==> results[i].Ok?)
                     && Collect(results).error == results[j].error
    decreases |results|
  {
    var n := |results|;
    var init := results[..n - 1];
    if Collect(init).Err? {
      CollectErr(init);
      var j :| 0 <= j < |init| && init[j].Err?
        && (forall i :: 0 <= i < j ==> init[i].Ok?)
        && Collect(init).error == init[j].error;
      assert forall i :: 0 <= i <= j ==> init[i] == results[i];
    } else {
      CollectOk(init);
      assert forall i :: 0 <= i < n - 1 ==> init[i] == results[i];
    }
  }

  /** Once a prefix of the outcomes fails, the whole join fails with the same error. */
  lemma {:induction false} CollectErrPrefix(results: seq<Result<string, SignError>>, k: nat)
    requires k <= |results| && Collect(results[..k]).Err?
    ensures Collect(results) == Collect(results[..k])
    decreases |results| - k
  {
    if k < |results| {
      assert results[..k + 1][..k] == results[..k];
      CollectErrPrefix(results, k + 1);
    } else {
      assert results[..k] == results;
    }
  }

  /** The outcome of one iteration: the text of its variable, or the error of a missing attachment. */
  lemma PartResultAt(delimiter: string, postVars: Dict<PostValue>, i: nat)
    requires i < |postVars|
    ensures PartResults(delimiter, postVars)[i].Ok? <==> !MissingData(postVars[i].1)
    ensures PartResults(delimiter, postVars)[i].Ok? ==>
      PartResults(delimiter, postVars)[i].value == PartText(delimiter, postVars[i].0, postVars[i].1)
    ensures PartResults(delimiter, postVars)[i].Err? ==>
      PartResults(delimiter, postVars)[i].error == MissingAttachmentData(postVars[i].0)
  {
  }

  /** The parts succeed exactly when no attachment lacks its data. */
  lemma PartsOk(delimiter: string, postVars: Dict<PostValue>)
    ensures Parts(delimiter, postVars).Ok? <==> forall i :: 0 <= i < |postVars| ==> !MissingData(postVars[i].1)
  {
    var results := PartResults(delimiter, postVars);
    CollectOk(results);
    forall i | 0 <= i < |postVars| ensures results[i].Ok? <==> !MissingData(postVars[i].1) {
      PartResultAt(delimiter, postVars, i);
    }
  }

  /** Successful parts are the texts of the post variables in order. */
  lemma PartsText(delimiter: string, postVars: Dict<PostValue>)
    requires Parts(delimiter, postVars).Ok?
    ensures Parts(delimiter, postVars).value == Concat(PartTexts(delimiter, postVars))
  {
    var results := PartResults(delimiter, postVars);
    CollectText(results);
    forall i | 0 <= i < |postVars| ensures Texts(results)[i] == PartTexts(delimiter, postVars)[i] {
      PartResultAt(delimiter, postVars, i);
    }
    assert Texts(results) == PartTexts(delimiter, postVars);
  }

  /** A failing build names the first attachment without its data. */
  lemma PartsErr(delimiter: string, postVars: Dict<PostValue>)
    requires Parts(delimiter, postVars).Err?
    ensures exists j :: 0 <= j < |postVars| && MissingData(postVars[j].1)
                     && (forall i :: 0 <= i < j ==> !MissingData(postVars[i].1))
                     && Parts(delimiter, postVars).error == MissingAttachmentData(postVars[j].0)
  {
    var results := PartResults(delimiter, postVars);
    CollectErr(results);
    var j :| 0 <= j < |results| && results[j].Err?
      && (forall i :: 0 <= i < j ==> results[i].Ok?)
      && Collect(results).error == results[j].error;
    PartResultAt(delimiter, postVars, j);
    forall i | 0 <= i < j ensures !MissingData(postVars[i].1) {
      PartResultAt(delimiter, postVars, i);
    }
  }

  /** The multipart body succeeds exactly when no attachment lacks its data; it is then the
      texts of all post variables in order followed by the closing delimiter. */
  lemma MultipartBodyResult(delimiter: string, postVars: Dict<PostValue>)
    ensures MultipartBody(delimiter, postVars).Ok? <==> forall i :: 0 <= i < |postVars| ==> !MissingData(postVars[i].1)
    ensures MultipartBody(delimiter, postVars).Ok? ==>
      MultipartBody(delimiter, postVars).value == Concat(PartTexts(delimiter, postVars)) + delimiter + "--"
    ensures MultipartBody(delimiter, postVars).Err? ==>
      exists j :: 0 <= j < |postVars| && MissingData(postVars[j].1)
        && (forall i :: 0 <= i < j ==> !MissingData(postVars[i].1))
        && MultipartBody(delimiter, postVars).error == MissingAttachmentData(postVars[j].0)
  {
    PartsOk(delimiter, postVars);
    if Parts(delimiter, postVars).Ok? {
      PartsText(delimiter, postVars);
    } else {
      PartsErr(delimiter, postVars);
    }
  }

  // ---------------------------------------------------------------------
  // Properties of the whole request
  // ---------------------------------------------------------------------

  /** The caller's headers afterwards: `Authorization` holds the new header (replacing any
      earlier one), `Content-Type` is set exactly when the request has one, and every other
      header keeps its value. */
  lemma HeadersAfterContents(headers: Dict<string>, r: SignedRequest)
    requires DistinctKeys(headers)
    ensures DistinctKeys(HeadersAfter(headers, r))
    ensures forall k :: k in Keys(HeadersAfter(headers, r)) <==>
      k in Keys(headers) || k == "Authorization" || (r.contentType.Some? && k == "Content-Type")
    ensures Lookup(HeadersAfter(headers, r), "Authorization") == r.authorization
    ensures r.contentType.Some? ==> Lookup(HeadersAfter(headers, r), "Content-Type") == r.contentType.value
    ensures forall k :: k in Keys(headers) && k != "Authorization" && (r.contentType.None? || k != "Content-Type") ==>
      Lookup(HeadersAfter(headers, r), k) == Lookup(headers, k)
  {
    SetItemContents(headers, "Authorization", r.authorization);
    if r.contentType.Some? {
      assert "Authorization"[0] != "Content-Type"[0];
      SetItemContents(SetItem(headers, "Authorization", r.authorization), "Content-Type", r.contentType.value);
    }
  }

  /** The URL gains `?` and a query string exactly when there are query variables, and
      always starts with the base URL; the query string splits on `&` into the encoded
      `name=value` fields in the caller's order. */
  lemma RequestUrlShape(url: string, queryVars: Dict<string>)
    ensures RequestUrl(url, queryVars) == url <==> queryVars == []
    ensures |RequestUrl(url, queryVars)| >= |url| && RequestUrl(url, queryVars)[..|url|] == url
    ensures queryVars != [] ==> |RequestUrl(url, queryVars)| > |url| && RequestUrl(url, queryVars)[|url|] == '?'
    ensures queryVars != [] ==> Split(RequestUrl(url, queryVars)[|url| + 1..], '&') == Fields(EncodeDict(queryVars))
  {
    if queryVars != [] {
      var full := url + "?" + Serialize(EncodeDict(queryVars));
      assert |full| > |url|;
      assert full[..|url|] == url;
      assert full[|url| + 1..] == Serialize(EncodeDict(queryVars));
      EncodeDictNoSeparators(queryVars);
      SerializeFields(EncodeDict(queryVars));
    }
  }

  /** There is no body exactly when there are no post variables; only a multipart body can
      fail; and a multipart body closes with the delimiter followed by `--`. */
  lemma PayloadShape(postVars: Dict<PostValue>, multipart: bool, boundary: string, dictStr: DictStr)
    ensures Payload(postVars, multipart, boundary, dictStr) == Ok(None) <==> postVars == []
    ensures Payload(postVars, multipart, boundary, dictStr).Err? ==> multipart && postVars != []
    ensures multipart && Payload(postVars, multipart, boundary, dictStr).Ok? &&
            Payload(postVars, multipart, boundary, dictStr).value.Some? ==>
      var body, closing := Payload(postVars, multipart, boundary, dictStr).value.value, Delimiter(boundary) + "--";
      |body| >= |closing| && body[|body| - |closing|..] == closing
  {
    var delimiter := Delimiter(boundary);
    var result := MultipartBody(delimiter, postVars);
    if multipart && postVars != [] && result.Ok? {
      var parts := Parts(delimiter, postVars).value;
      assert result.value == parts + (delimiter + "--");
    }
  }
}
