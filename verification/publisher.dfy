/** The media publisher of `helpers/tweet.py`: `upload_media` with its
    retry policy, `create_tweet` and `post_tweet_with_image`. The network is
    a `Platform` value that answers each request. */
module Publisher {
  import opened Wrappers
  import opened Utf8
  import OAuth

  const UploadUrl: string := "https://upload.twitter.com/1.1/media/upload.json"
  const TweetsUrl: string := "https://api.twitter.com/2/tweets"

  /** The retry policy of `upload_media`. */
  const MaxRetries: nat := 3
  const BackoffSeconds: nat := 2

  /** How one upload POST ended: a 2xx reply whose JSON may or may not hold
      `media_id_string`, an `SSLError`, or any other exception (an error
      status from `raise_for_status`, a timeout, a body that is not JSON). */
  datatype UploadReply = Accepted(mediaId: Option<string>) | SslError | OtherError

  /** How the tweet POST ended: a 2xx reply whose JSON may or may not hold
      `data.id`, or an exception. */
  datatype TweetReply = Created(id: Option<string>) | Rejected

  /** The exception `post_tweet_with_image` lets escape. */
  datatype PublishError = ImageFetchFailed | UploadSslFailed | UploadFailed | TweetFailed

  /** The JSON body of `create_tweet`; `media_ids` entries are `None` when
      the upload reply had no `media_id_string`. */
  datatype TweetPayload = TweetPayload(text: string, media: Option<seq<Option<string>>>)

  /** One POST as sent: its URL, the nonce and clock reading its header was
      signed with, its form body and its JSON body. */
  datatype Request = Request(
    url: string,
    entropy: OAuth.Entropy,
    form: OAuth.Params,
    json: Option<TweetPayload>)

  /** The platform during one `post_tweet_with_image` call: the credentials,
      the crypto primitives, the nonce and clock reading drawn for the n-th
      header of the call, the image download, the reply to each upload
      attempt (numbered from 1) and the reply to the tweet. */
  datatype Platform = Platform(
    creds: OAuth.Credentials,
    crypto: OAuth.Crypto,
    entropy: nat -> OAuth.Entropy,
    fetch: string -> Option<seq<byte>>,
    upload: nat -> UploadReply,
    tweet: TweetPayload -> TweetReply)

  /** The form body of the upload: the Base64 of the image as `media_data`. */
  function MediaForm(image: seq<byte>, p: Platform): OAuth.Params {
    [("media_data", p.crypto.base64(image))]
  }

  /** The Authorization header of a request: a POST signed over its form
      parameters (both requests of this module are POSTs). It reads back as
      the six protocol parameters drawn for the request and the HMAC-SHA1
      signature, under the two secrets, of the base string of the POST to
      the request's URL over those parameters merged with its form. */
  function Authorization(r: Request, p: Platform): (h: string)
    ensures OAuth.ParseHeader(h) == Some(OAuth.OAuthParams(p.creds, r.entropy) + [("oauth_signature",
      OAuth.Signature(p.crypto,
        OAuth.SigningKey(p.creds.consumerSecret, p.creds.accessTokenSecret),
        OAuth.BaseString("POST", r.url, OAuth.ParamString(OAuth.Merge(OAuth.OAuthParams(p.creds, r.entropy), r.form)))))])
  {
    OAuth.AuthorizationHeader("POST", r.url, p.creds, r.entropy, r.form, p.crypto)
  }

  /** The request of upload attempt `attempt`: `media_data` in the form. */
  function UploadRequest(image: seq<byte>, p: Platform, attempt: nat): Request
    requires attempt >= 1
  {
    Request(UploadUrl, p.entropy(attempt - 1), MediaForm(image, p), None)
  }

  /** The result of an upload, the number of attempts it made and the
      seconds it slept between them. */
  datatype UploadRun = UploadRun(result: Result<Option<string>, PublishError>, attempts: nat, slept: nat)

  /** What the last attempt of an upload yields. */
  function UploadOutcome(reply: UploadReply): Result<Option<string>, PublishError> {
    match reply
    case Accepted(id) => Ok(id)
    case SslError => Err(UploadSslFailed)
    case OtherError => Err(UploadFailed)
  }

  /** The `for attempt in range(...)` loop of `upload_media`, from attempt
      `attempt` on. */
  function UploadFrom(replies: nat -> UploadReply, attempt: nat): (r: UploadRun)
    requires 1 <= attempt <= MaxRetries
    ensures attempt <= r.attempts <= MaxRetries
    ensures forall k :: attempt <= k < r.attempts ==> replies(k) == SslError
    ensures r.attempts < MaxRetries ==> replies(r.attempts) != SslError
    ensures r.result == UploadOutcome(replies(r.attempts))
    ensures r.slept == BackoffSeconds * (r.attempts - attempt)
    decreases MaxRetries - attempt
  {
    match replies(attempt)
    case Accepted(id) => UploadRun(Ok(id), attempt, 0)
    case OtherError => UploadRun(Err(UploadFailed), attempt, 0)
    case SslError =>
      if attempt == MaxRetries then UploadRun(Err(UploadSslFailed), attempt, 0)
      else
        var rest := UploadFrom(replies, attempt + 1);
        UploadRun(rest.result, rest.attempts, BackoffSeconds + rest.slept)
  }

  /** `upload_media(image_bytes)` as a retry policy over the replies to
      attempts 1, 2, 3: at most three attempts; only an SSL error is
      retried, after a two-second pause; the third SSL error is raised; any
      other error or a reply ends the loop at once. */
  function UploadMedia(replies: nat -> UploadReply): (r: UploadRun)
    ensures 1 <= r.attempts <= MaxRetries
    ensures forall k :: 1 <= k < r.attempts ==> replies(k) == SslError
    ensures r.attempts < MaxRetries ==> replies(r.attempts) != SslError
    ensures r.result == UploadOutcome(replies(r.attempts))
    ensures r.result == Err(UploadSslFailed) ==> r.attempts == MaxRetries
    ensures r.slept == BackoffSeconds * (r.attempts - 1)
  {
    UploadFrom(replies, 1)
  }

  /** The requests an upload of `image` sends: one per attempt, each signed
      afresh. */
  function UploadRequests(image: seq<byte>, p: Platform, attempts: nat): (rs: seq<Request>)
    ensures |rs| == attempts
    ensures forall i :: 0 <= i < attempts ==> rs[i] == UploadRequest(image, p, i + 1)
  {
    seq(attempts, i requires 0 <= i < attempts => UploadRequest(image, p, i + 1))
  }

  /** `create_tweet(text, media_ids)`: the payload carries `media` whenever
      the id list is non-empty, even if its one id is `None`. */
  function Payload(text: string, mediaIds: seq<Option<string>>): TweetPayload {
    TweetPayload(text, if |mediaIds| > 0 then Some(mediaIds) else None)
  }

  /** The tweet request. It is signed with no extra parameters: the JSON
      body is not part of the signature. */
  function TweetRequest(payload: TweetPayload, p: Platform, headerNo: nat): Request {
    Request(TweetsUrl, p.entropy(headerNo), [], Some(payload))
  }

  function TweetOutcome(reply: TweetReply): Result<Option<string>, PublishError> {
    match reply
    case Created(id) => Ok(id)
    case Rejected => Err(TweetFailed)
  }

  /** The result of `post_tweet_with_image` and the signed requests it sent. */
  datatype PublishRun = PublishRun(result: Result<Option<string>, PublishError>, requests: seq<Request>)

  /** `post_tweet_with_image(text, image_url)`: download the image, upload
      it, then tweet the text with the one media id. */
  function PostTweetWithImage(text: string, imageUrl: string, p: Platform): (r: PublishRun)
    ensures p.fetch(imageUrl).None? ==> r == PublishRun(Err(ImageFetchFailed), [])
  {
    match p.fetch(imageUrl)
    case None => PublishRun(Err(ImageFetchFailed), [])
    case Some(image) =>
      var up := UploadMedia(p.upload);
      var uploads := UploadRequests(image, p, up.attempts);
      match up.result
      case Err(e) => PublishRun(Err(e), uploads)
      case Ok(mediaId) =>
        var payload := Payload(text, [mediaId]);
        PublishRun(TweetOutcome(p.tweet(payload)), uploads + [TweetRequest(payload, p, up.attempts)])
  }

  /** Once the image is downloaded: one upload request per attempt comes
      first; the tweet is sent only after a successful upload, exactly once,
      with the text unchanged and the media list `[media_id]` (present even
      when the id is `None`); a tweet id is returned only if both calls
      succeed. */
  lemma PublishSequence(text: string, imageUrl: string, p: Platform)
    requires p.fetch(imageUrl).Some?
    ensures var up := UploadMedia(p.upload);
      var r := PostTweetWithImage(text, imageUrl, p);
      && r.requests[..up.attempts] == UploadRequests(p.fetch(imageUrl).value, p, up.attempts)
      && (up.result.Err? ==> |r.requests| == up.attempts && r.result == up.result)
      && (up.result.Ok? ==>
            && |r.requests| == up.attempts + 1
            && r.requests[up.attempts].url == TweetsUrl
            && r.requests[up.attempts].json == Some(TweetPayload(text, Some([up.result.value])))
            && r.result == TweetOutcome(p.tweet(TweetPayload(text, Some([up.result.value])))))
  {
    var up := UploadMedia(p.upload);
    var uploads := UploadRequests(p.fetch(imageUrl).value, p, up.attempts);
    if up.result.Ok? {
      var payload := Payload(text, [up.result.value]);
      assert (uploads + [TweetRequest(payload, p, up.attempts)])[..up.attempts] == uploads;
    }
  }

  /** Every upload attempt signs `media_data`, the Base64 of the image,
      into its base string, whatever the endpoint. */
  lemma UploadSignsMediaData(image: seq<byte>, p: Platform, attempt: nat)
    requires attempt >= 1
    ensures var r := UploadRequest(image, p, attempt);
      forall url :: OAuth.Get(OAuth.BuildOAuth("POST", url, p.creds, r.entropy, r.form, p.crypto).allParams, "media_data")
                    == Some(p.crypto.base64(image))
  {
    var r := UploadRequest(image, p, attempt);
    var form := MediaForm(image, p);
    assert OAuth.DistinctKeys(form);
    assert "media_data" in OAuth.Keys(form) by {
      assert form[0].0 == "media_data";
    }
    OAuth.GetAt(form, 0);
    forall url
      ensures OAuth.Get(OAuth.BuildOAuth("POST", url, p.creds, r.entropy, r.form, p.crypto).allParams, "media_data")
              == Some(p.crypto.base64(image))
    {
      OAuth.SignedParameters("POST", url, p.creds, r.entropy, form, p.crypto, "media_data");
    }
  }
}
