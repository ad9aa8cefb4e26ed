/**
  The `OAuth1` object of py/oauth.py: the four credentials it stores and
  updates, and `init_request`, which signs a request and writes its headers
  into the caller's header dict. Each step mirrors the source; the ensures
  clauses tie the results to the functions of module Signing.
 */
module Signer {
  import opened Wrappers
  import opened Strings
  import opened Dicts
  import opened Percent
  import opened Tokens
  import opened Signing

  /** What `init_request` returns besides the headers: the upper-cased method, the URL with its query string, and the body. */
  datatype Request = Request(httpMethod: string, url: string, payload: Option<string>)

  /** A header dict, which `init_request` updates in place. */
  class Headers {
    var entries: Dict<string>

    /** Like every Python dict, a header dict holds each name once. */
    ghost predicate Valid()
      reads this
    {
      DistinctKeys(entries)
    }

    constructor (entries: Dict<string>)
      requires DistinctKeys(entries)
      ensures Valid() && this.entries == entries
    {
      this.entries := entries;
    }

    /** `headers[name] = value` */
    method Set(name: string, value: string)
      requires Valid()
      modifies this
      ensures Valid() && entries == SetItem(old(entries), name, value)
    {
      SetItemDistinct(entries, name, value);
      entries := SetItem(entries, name, value);
    }
  }

  /** The multipart loop of `init_request`: one part per post variable, then the closing delimiter. */
  method BuildMultipartPayload(delimiter: string, postVars: Dict<PostValue>) returns (result: Result<string, SignError>)
    ensures result == MultipartBody(delimiter, postVars)
  {
    ghost var results := PartResults(delimiter, postVars);
    var payloadData: seq<string> := [];
    var i := 0;
    while i < |postVars|
      invariant 0 <= i <= |postVars|
      invariant Collect(results[..i]) == Ok(Concat(payloadData))
    {
      var (name, value) := postVars[i];
      match value {
        case Field(text) =>
          var part := FieldPart(delimiter, name, text);
          PartResultAt(delimiter, postVars, i);
          CollectStep(results, i, Concat(payloadData), part);
          ConcatAppend(payloadData, part);
          payloadData := payloadData + [part];
        case File(a) =>
          var filename := if a.filename.Some? then a.filename.value else DefaultFilename;
          var mimetype := if a.mimetype.Some? then a.mimetype.value else DefaultMimetype;
          var encoding := if a.encoding.Some? then a.encoding.value else DefaultEncoding;
          var header := FileHeader(delimiter, name, filename, mimetype, encoding);
          if a.data.None? {
            PartResultAt(delimiter, postVars, i);
            assert results[..i + 1][..i] == results[..i];
            CollectErrPrefix(results, i + 1);
            return Err(MissingAttachmentData(name));
          }
          PartResultAt(delimiter, postVars, i);
          CollectStep(results, i, Concat(payloadData), PartText(delimiter, name, value));
          FilePartText(delimiter, name, a);
          ConcatAppendThree(payloadData, header, a.data.value, "\r\n");
          payloadData := payloadData + [header] + [a.data.value] + ["\r\n"];
      }
      i := i + 1;
    }
    assert results[..i] == results;
    ConcatAppend(payloadData, delimiter + "--");
    assert Concat(payloadData) + (delimiter + "--") == Concat(payloadData) + delimiter + "--";
    return Ok(Concat(payloadData + [delimiter + "--"]));
  }

  class OAuth1 {
    var consumerKey: Option<string>
    var consumerSecretKey: Option<string>
    var accessToken: Option<string>
    var accessSecretToken: Option<string>
    var oauthVersion: string
    var signatureMethod: string
    /** `test_nonce` and `test_timestamp`: attributes that tests may set to fix the nonce and the timestamp. */
    var testNonce: Option<string>
    var testTimestamp: Option<string>

    function Stored(): Credentials
      reads this
    {
      Credentials(consumerKey, consumerSecretKey, accessToken, accessSecretToken)
    }

    constructor (consumerKey: Option<string>, consumerSecretKey: Option<string>,
                 accessToken: Option<string>, accessSecretToken: Option<string>)
      ensures Stored() == Credentials(consumerKey, consumerSecretKey, accessToken, accessSecretToken)
      ensures oauthVersion == "1.0" && signatureMethod == "HMAC-SHA1"
      ensures testNonce.None? && testTimestamp.None?
    {
      this.consumerKey := None;
      this.consumerSecretKey := None;
      this.accessToken := None;
      this.accessSecretToken := None;
      oauthVersion := "1.0";
      signatureMethod := "HMAC-SHA1";
      testNonce := None;
      testTimestamp := None;
      new;
      Update(consumerKey, consumerSecretKey, accessToken, accessSecretToken);
    }

    /** `__call__`: replace the credentials given, keep the others. */
    method Update(consumerKey: Option<string>, consumerSecretKey: Option<string>,
                  accessToken: Option<string>, accessSecretToken: Option<string>)
      modifies this
      ensures Stored() == Overwrite(old(Stored()),
                                         Credentials(consumerKey, consumerSecretKey, accessToken, accessSecretToken))
      ensures oauthVersion == old(oauthVersion) && signatureMethod == old(signatureMethod)
      ensures testNonce == old(testNonce) && testTimestamp == old(testTimestamp)
    {
      if consumerKey.Some? {
        this.consumerKey := consumerKey;
      }
      if consumerSecretKey.Some? {
        this.consumerSecretKey := consumerSecretKey;
      }
      if accessToken.Some? {
        this.accessToken := accessToken;
      }
      if accessSecretToken.Some? {
        this.accessSecretToken := accessSecretToken;
      }
    }

    /** The nonce `init_request` signs with: the test hook, else a fresh random token. */
    function Nonce(noncePicks: seq<nat>): string
      requires ValidChoices(noncePicks, TokenLength)
      reads this
    {
      if testNonce.Some? then testNonce.value else RandomToken(TokenLength, noncePicks)
    }

    /** The timestamp `init_request` signs with: the test hook, else the clock in whole seconds. */
    function Timestamp(epochSeconds: nat): string
      reads this
    {
      if testTimestamp.Some? then testTimestamp.value else NatToDecimal(epochSeconds)
    }

    /** The OAuth parameters of `init_request` before signing: the six entries, then the test hooks. */
    method AuthParams(noncePicks: seq<nat>, epochSeconds: nat) returns (authParams: Dict<string>)
      requires ValidChoices(noncePicks, TokenLength)
      ensures authParams == AuthHeaderParams(consumerKey, Nonce(noncePicks), Timestamp(epochSeconds),
                                             signatureMethod, oauthVersion, accessToken)
    {
      authParams := AuthHeaderParams(consumerKey, RandomToken(TokenLength, noncePicks), NatToDecimal(epochSeconds),
                                     signatureMethod, oauthVersion, accessToken);
      if testNonce.Some? {
        AuthHeaderParamsHooks(consumerKey, RandomToken(TokenLength, noncePicks), NatToDecimal(epochSeconds),
                              signatureMethod, oauthVersion, accessToken, testNonce.value, NatToDecimal(epochSeconds));
        authParams := SetItem(authParams, NonceName, testNonce.value);
      }
      if testTimestamp.Some? {
        AuthHeaderParamsHooks(consumerKey, Nonce(noncePicks), NatToDecimal(epochSeconds),
                              signatureMethod, oauthVersion, accessToken, Nonce(noncePicks), testTimestamp.value);
        authParams := SetItem(authParams, TimestampName, testTimestamp.value);
      }
    }

    /**
     * The signing half of `init_request`: the value of the Authorization header, with the
     * percent-encoded query and form variables the rest of the request reuses. A multipart
     * body is built from the raw post variables (`enc_post_vars = post_vars`), so no encoded
     * copy of them is made then.
     */
    method SignedAuthorization(httpMethod: string, url: string, queryVars: Dict<string>, postVars: Dict<PostValue>,
                               multipart: bool, noncePicks: seq<nat>, epochSeconds: nat,
                               hmac: HmacSha1B64, dictStr: DictStr)
      returns (authorization: string, encQueryVars: Dict<string>, encPostVars: Dict<string>)
      requires ValidChoices(noncePicks, TokenLength)
      ensures authorization == Authorization(Stored(), signatureMethod, oauthVersion, Nonce(noncePicks),
                                             Timestamp(epochSeconds), httpMethod, url, queryVars, postVars,
                                             multipart, hmac, dictStr)
      ensures encQueryVars == EncodeDict(queryVars)
      ensures encPostVars == if multipart then [] else EncodeDict(PostTexts(postVars, dictStr))
    {
      var upperMethod := UpperAscii(httpMethod);
      var authParams := AuthParams(noncePicks, epochSeconds);
      ghost var authParams0 := authParams;

      encQueryVars := EncodeDict(queryVars);
      encPostVars := [];
      if !multipart {
        encPostVars := EncodeDict(PostTexts(postVars, dictStr));
      }
      var encAuthHeaderParams := EncodeDict(authParams);

      var authSignatureParams: Dict<string> := [];
      authSignatureParams := UpdateWith(authSignatureParams, encQueryVars);
      if !multipart {
        authSignatureParams := UpdateWith(authSignatureParams, encPostVars);
      }
      authSignatureParams := UpdateWith(authSignatureParams, encAuthHeaderParams);

      var signatureStr := BaseString(upperMethod, url, authSignatureParams);
      var signingKey := SigningKey(consumerSecretKey, accessSecretToken);
      authParams := SetItem(authParams, SignatureName, EncodedSignature(hmac, signingKey, signatureStr));
      AuthorizationSteps(Stored(), signatureMethod, oauthVersion, Nonce(noncePicks), Timestamp(epochSeconds),
                         httpMethod, url, queryVars, postVars, multipart, hmac, dictStr, authParams0, authSignatureParams);
      authorization := AuthorizationHeader(authParams);
    }

    /** `init_request`. The random draws and the clock are parameters; `headers` is None when null. */
    method InitRequest(httpMethod: string, url: string, queryVars: Dict<string>, postVars: Dict<PostValue>,
                       headers: Headers?, multipart: bool,
                       noncePicks: seq<nat>, epochSeconds: nat, boundaryPicks: seq<nat>,
                       hmac: HmacSha1B64, dictStr: DictStr)
      returns (result: Result<Request, SignError>, outHeaders: Headers)
      requires ValidChoices(noncePicks, TokenLength) && ValidChoices(boundaryPicks, TokenLength)
      requires headers != null ==> headers.Valid()
      modifies headers
      ensures headers != null ==> outHeaders == headers
      ensures headers == null ==> fresh(outHeaders)
      ensures outHeaders.Valid()
      ensures var r := SignRequest(old(Stored()), old(signatureMethod), old(oauthVersion),
                                   old(Nonce(noncePicks)), old(Timestamp(epochSeconds)),
                                   RandomToken(TokenLength, boundaryPicks), httpMethod, url, queryVars, postVars,
                                   multipart, hmac, dictStr);
        && outHeaders.entries == HeadersAfter(if headers == null then [] else old(headers.entries), r)
        && result == match r.payload
                     case Err(e) => Err(e)
                     case Ok(payload) => Ok(Request(r.httpMethod, r.url, payload))
    {
      var upperMethod := UpperAscii(httpMethod);
      var authorization, encQueryVars, encPostVars :=
        SignedAuthorization(httpMethod, url, queryVars, postVars, multipart, noncePicks, epochSeconds, hmac, dictStr);

      ghost var headers0 := if headers == null then [] else headers.entries;
      ghost var r := SignRequest(Stored(), signatureMethod, oauthVersion, Nonce(noncePicks), Timestamp(epochSeconds),
                                 RandomToken(TokenLength, boundaryPicks), httpMethod, url, queryVars, postVars,
                                 multipart, hmac, dictStr);
      assert r.authorization == authorization;

      if headers == null {
        outHeaders := new Headers([]);
      } else {
        outHeaders := headers;
      }
      outHeaders.Set("Authorization", authorization);

      var fullUrl := url;
      if queryVars != [] {
        fullUrl := fullUrl + "?" + Serialize(encQueryVars);
      }
      assert r.url == fullUrl;

      var payload: Option<string> := None;
      if postVars != [] {
        if !multipart {
          payload := Some(Serialize(encPostVars));
        } else {
          var boundary := BoundaryString(RandomToken(TokenLength, boundaryPicks));
          outHeaders.Set("Content-Type", MultipartContentType(boundary));
          assert outHeaders.entries == HeadersAfter(headers0, r);
          var body := BuildMultipartPayload(Delimiter(boundary), postVars);
          if body.Err? {
            assert r.payload == Err(body.error);
            assert headers0 == if headers == null then [] else old(headers.entries);
            return Err(body.error), outHeaders;
          }
          payload := Some(body.value);
        }
      }
      assert r.payload == Ok(payload);
      assert outHeaders.entries == HeadersAfter(headers0, r);
      assert headers0 == if headers == null then [] else old(headers.entries);
      result := Ok(Request(upperMethod, fullUrl, payload));
    }
  }
}
