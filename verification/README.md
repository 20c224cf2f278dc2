# blog-x-auto-poster: a verified model of the signer, the publisher and the article pipeline

This project models the core of a script that promotes blog articles on X.
For each stored article, the script asks a text model for a tweet and an image model for a picture.
It then publishes the tweet with the picture through the X API.

Three parts are modelled, each as pure Dafny functions with proved contracts:

- **The request signer** (`helpers/tweet.py`, `build_oauth_header`). This is OAuth 1.0a HMAC-SHA1 signing as in RFC 5849 (The OAuth 1.0 Protocol). It covers:
  - the percent-encoding of section 3.6;
  - the normalized parameter string of section 3.4.1.3.2;
  - the signature base string of section 3.4.1.1;
  - the signing key of section 3.4.2;
  - the `OAuth k="v", ...` header of section 3.5.1.

  The nonce bytes, the clock reading, HMAC-SHA1 and Base64 are parameters.
- **The media publisher** (`upload_media`, `create_tweet`, `post_tweet_with_image`). This covers the upload retry policy, the tweet payload and the order of the requests. Every network exchange is a reply taken from a `Platform` value.
- **The orchestrator** (`main.py`). This covers:
  - the post normalization of `generate_post_for_article`;
  - the URL extraction and the three-attempt loop of `generate_image_for_post`;
  - the three stage gates, evaluated top to bottom in one pass;
  - the tweet composition under the 280-character budget;
  - the `changed_articles` tracking and the write-back after the loop.

  The text model, `tweet_to_image_description`, the image model and `image_has_text` are oracles (`Content.Generators`). Each is indexed by the running number of the collaborator call, so repeated calls may answer differently.

Modules, one per file:

- **`Wrappers`**: `Option` and `Result`.
- **`Utf8`**: UTF-8 encoding with a strict decoder, for `str.encode("utf-8")`.
- **`Percent`**: `percent_encode` and its inverse.
- **`Sorting`**: Python's tuple order and `list.sort` on `(key, value)` pairs.
- **`Text`**:
  - the Python whitespace set;
  - `strip`, `split()`/`" ".join`, `str.split(c)`/`c.join` and `upper`.
- **`OAuth`**: the signer.
- **`Publisher`**: the publisher.
- **`Content`**: the two generators of `main.py`.
- **`Compose`**: the tweet composition.
- **`Pipeline`**: the article loop and the write-back.

The pipeline's loop body takes its four collaborators as a `Services` value:

- the post generator;
- the image generator;
- the composition;
- the publisher.

`Pipeline.Implemented` builds that value from the real definitions. Lemmas about a single pass hold for any services. Lemmas that need a guarantee from a service state it as a predicate such as `Pipeline.PostsWellBehaved`. Those predicates are proved once for the real services.

## Model

| member | source | states |
|---|---|---|
| Percent.EncodeByte | helpers/tweet.py:28-29 | A byte stays a single character exactly when it is an unreserved ASCII character (ALPHA, DIGIT, `-`, `.`, `_`, `~`). Otherwise it becomes `%` followed by two upper-case hex digits whose value is the byte. |
| Percent.Encode | helpers/tweet.py:28-29 | The encoding of a string contains only unreserved characters, `%` and upper-case hex digits. |
| Percent.DecodeEncode | helpers/tweet.py:28-29 | Decoding the percent-encoding of any string gives the string back. |
| Percent.EncodeInjective | helpers/tweet.py:28-29 | Two strings with the same encoding are equal. |
| Percent.EncodedHasNoDelimiters | helpers/tweet.py:28-29 | An encoded value never contains `&`, `=`, `"`, `,` or a space, so it cannot break the base string, the parameter string or the header. |
| Percent.EncodeIdentityIff | helpers/tweet.py:28-29 | Encoding leaves a string unchanged exactly when all its characters are unreserved. Otherwise the encoding is at least two characters longer. |
| Percent.EncodeChar | helpers/tweet.py:28-29 | An unreserved first character is kept as is. Any other first character takes at least three characters of output. |
| Percent.EncodeSpace | helpers/tweet.py:28-29 | A space is encoded as `%20`, not `+`. |
| Percent.EncodePlus | helpers/tweet.py:28-29 | `+` is encoded as `%2B`. |
| Percent.EncodeAppend | helpers/tweet.py:28-29 | Encoding distributes over concatenation. |
| Utf8.EncodeChar | helpers/tweet.py:57-59 | A character takes one to four bytes. It takes one byte, its own code, exactly when it is ASCII; every byte of a longer encoding has the high bit set. |
| Utf8.DecodeEncode | helpers/tweet.py:57-59 | Decoding the UTF-8 encoding of a string gives the string back, so the signed bytes determine the signed text. |
| Sorting.Sort | helpers/tweet.py:46-47 | The sorted pairs are in Python's tuple order and are a permutation of the input. |
| Sorting.SortedUnique | helpers/tweet.py:46-47 | Two sorted arrangements of the same pairs are equal, so the sort result is independent of the input order. |
| Sorting.StrLeTotal | helpers/tweet.py:47 | Python's string order is total; it is also reflexive, antisymmetric and transitive (`StrLeReflexive`, `StrLeAntisymmetric`, `StrLeTransitive`). |
| Text.Strip | main.py:17-18 | The stripped string has no whitespace at either end and is a prefix of the input with its leading whitespace removed. |
| Text.StripRemovesSpace | main.py:17-18 | Stripping removes whitespace and nothing else: the result is the slice of the input after its leading whitespace, and everything after that slice is whitespace too. |
| Text.StripIdempotent | main.py:87 | Stripping twice is stripping once. |
| Text.StrippedIff | main.py:87 | A string is its own strip exactly when neither end is whitespace. |
| Text.CollapseSpec | main.py:44 | Re-joining the words with single spaces gives a normalized string (no whitespace at the ends and no run of whitespace) with the same words. The result is empty exactly when the input is blank. Collapsing is idempotent, and a string is its own collapse exactly when it is normalized. |
| Text.WordsOfJoin | main.py:44 | Joining words with single spaces and splitting again gives the same words. |
| Text.NormalizedFixpoint | main.py:44 | A normalized string is the join of its own words. |
| Text.SplitJoin | helpers/tweet.py:65-68 | Splitting on `c` a join on `c` of parts that do not contain `c` gives back the parts. |
| Text.JoinSplit | helpers/tweet.py:50-52 | Joining on `c` the parts of a split on `c` gives back the string. |
| Text.Upper | helpers/tweet.py:51 | The upper-cased method has the same length, each ASCII lower-case letter is raised and every other character is kept (see Left out for non-ASCII letters). |
| OAuth.Get | helpers/tweet.py:42-44 | A dict lookup finds a value exactly when the key is present. |
| OAuth.GetAt | helpers/tweet.py:42-44 | In a dict, looking up the key stored at a position finds the value stored there. |
| OAuth.Update | helpers/tweet.py:44 | `d[k] = v` adds `k` to the keys and keeps them distinct. A new key is appended at the end. |
| OAuth.UpdateGet | helpers/tweet.py:44 | After `d[k] = v`, `k` maps to `v` and every other key is unaffected. |
| OAuth.Merge | helpers/tweet.py:42-44 | The merged dict's keys are the union of both key sets, and they stay distinct. |
| OAuth.MergeGet | helpers/tweet.py:42-44 | In the merged dict, a key of `extra_params` has the extra value and every other key keeps its oauth value. |
| OAuth.HexLower | helpers/tweet.py:35 | The nonce text has two characters per byte, all unreserved. |
| OAuth.NonceUnescaped | helpers/tweet.py:35 | Percent-encoding the nonce leaves it unchanged. |
| OAuth.Decimal | helpers/tweet.py:37 | The timestamp text is a non-empty run of decimal digits with no leading zero. |
| OAuth.DecimalRoundTrip | helpers/tweet.py:37 | The timestamp text reads back as the clock value. |
| OAuth.OAuthParams | helpers/tweet.py:33-40 | There are exactly six oauth parameters, with distinct keys, in the literal's order. |
| OAuth.SignedParameters | helpers/tweet.py:33-44 | The signed set has distinct keys: all six oauth keys plus every extra key. An extra key that repeats an oauth key carries the extra value. |
| OAuth.EncodeItemsPermutation | helpers/tweet.py:46 | Reordering the parameters reorders their encoded pairs the same way. |
| OAuth.ParamStringPermutation | helpers/tweet.py:46-48 | The normalized parameter string does not depend on the order in which the parameters were inserted. |
| OAuth.ParamString | helpers/tweet.py:46-48 | The parameter string is the `&`-join of `k=v` over any sorted arrangement of the encoded pairs. |
| OAuth.ParamStringExample | helpers/tweet.py:46-48 | `{b: "2", a: "1"}` gives `a=1&b=2`. |
| OAuth.BaseString | helpers/tweet.py:50-52 | If the method has no `&`, the base string splits on `&` into exactly three parts: the upper-cased method, the encoded URL and the encoded parameter string. The last two decode back to their inputs. |
| OAuth.SigningKey | helpers/tweet.py:53-55 | The signing key splits on `&` into the two encoded secrets, and each decodes back to its secret. |
| OAuth.SignatureAppended | helpers/tweet.py:64 | Storing the signature appends `oauth_signature` after the six oauth keys. |
| OAuth.RenderHeader | helpers/tweet.py:65-68 | The header starts with `OAuth `. Parsing it gives back exactly the pairs it was rendered from, in order, when there is at least one and keys contain no `=` or `,`. |
| OAuth.BuildOAuth | helpers/tweet.py:32-68 | The signed parameters are the six oauth parameters updated with the extra ones, the parameter string is their sorted encoded join, the base string is built from the verb, the URL and that parameter string, the signing key from the two secrets, and the signature is HMAC-SHA1 under that key over that base string, each as its own function characterises it. The signed keys are the six oauth keys and the extra keys. The header starts with `OAuth ` and reads back as exactly the six oauth parameters, with their values before any override, then `oauth_signature`; no extra parameter such as `media_data` appears in it. |
| OAuth.OAuthHeaderRoundTrip | helpers/tweet.py:64-68 | The six oauth fields and the signature field read back from the rendered header unchanged. |
| Publisher.UploadFrom | helpers/tweet.py:81-106 | From any attempt on, attempts continue only after an SSL error and never beyond the third. The result is what the last attempt's reply yields, and two seconds are slept per retry. |
| Publisher.UploadMedia | helpers/tweet.py:71-106 | One to three attempts; every attempt before the last hit an SSL error. A reply, or any error other than SSL, ends the loop at once. The SSL error is raised only on the third attempt. The sleep totals two seconds per retry. |
| Publisher.UploadSignsMediaData | helpers/tweet.py:75-91 | Every upload attempt signs `media_data`, the Base64 of the image. |
| Publisher.PostTweetWithImage | helpers/tweet.py:151-154 | A failed image download raises before any request is sent. |
| Publisher.Authorization | helpers/tweet.py:82-92 | The header of a request reads back as the six oauth parameters drawn for it and the signature over the base string of a POST to the request's URL, the parameters merged with its form, under the two secrets. |
| Publisher.PublishSequence | helpers/tweet.py:109-157 | After a download, the upload requests come first. The tweet is sent once, only after a successful upload, with the text unchanged and `media_ids` holding the one id, even when that id is `None`. The result is the tweet's id, or the first exception raised. |
| Content.NormalizePost | main.py:43-48 | The post is normalized, at most 280 characters long, and empty exactly when the reply is blank. |
| Content.NormalizePostShape | main.py:43-48 | The post is the reply's words joined by single spaces when that fits in 280 characters. Otherwise it is the first 277 characters of that and `...`, exactly 280 characters. Normalizing a post again changes nothing. |
| Content.TruncatedNormalized | main.py:45-46 | Truncating a normalized text to 277 characters and adding `...` keeps it normalized. |
| Content.GeneratePost | main.py:16-48 | One text model call, with the stripped title and content in the prompt. The post is normalized, at most 280 characters long, and empty exactly when the reply is blank. |
| Content.AskForPost | main.py:41-48 | The reply to the one text model call, normalized; it is empty exactly when the reply is blank. |
| Content.IsHttpUrlStartsWith | main.py:88 | The URL test is exactly `startswith("http://") or startswith("https://")`. |
| Content.UrlOf | main.py:77-89 | An item contributes a URL exactly when its stripped candidate starts with an HTTP scheme, and the URL is that stripped candidate. |
| Content.UrlOfStripped | main.py:87-89 | A contributed URL is an HTTP URL and is its own strip. |
| Content.FilterMapMembership | main.py:74-89 | A value is kept exactly when some element yields it. |
| Content.ExtractUrlsMembership | main.py:74-89 | A URL is extracted exactly when some output item contributes it. |
| Content.ExtractUrlsFirst | main.py:74-94 | Nothing is extracted exactly when no item contributes. The first URL comes from the first item that contributes one. |
| Content.ExtractUrls | main.py:74-89 | At most one URL per item. Every extracted URL is stripped and starts with `http://` or `https://`. Nothing is extracted exactly when no item contributes a URL. |
| Content.UrlsAt | main.py:72-89 | Every URL taken from an image model answer is stripped and HTTP. |
| Content.ImageAttemptsBounded | main.py:63-65 | A loop with `left` attempts calls the image model at most `left` times. |
| Content.ImageAttempts | main.py:65-100 | At most two collaborator calls per attempt left. With attempts left, the first call is the image call on the prompt. A loop that returns URLs made at least an image call and a gate call. |
| Content.ImageAttemptsEndWithGate | main.py:91-96 | A loop that returns URLs ends with the image call that produced them, then the gate call on the first of them. |
| Content.ImageAttemptsAccepted | main.py:91-96 | The URLs returned are those of the last image call, and the gate reported no text for their first URL. |
| Content.FirstNonEmptyAttemptWins | main.py:65-100 | With a gate that never reports text, the loop returns the first attempt that yields URLs. It returns `[]` only after every attempt yielded none, having made one call per attempt. |
| Content.ImageAttemptsUrls | main.py:65-100 | The loop returns only URLs the image model answered with, so they keep any shape every answer has. |
| Content.ImageLoop | main.py:63-100 | At most three image model calls; every URL returned is stripped and HTTP. |
| Content.GenerateImage | main.py:51-100 | The post is described first. Then at most three image model calls follow, and every URL returned is stripped and HTTP. |
| Compose.TrimmedPost | main.py:150-161 | A post that fits beside the URL is kept whole. Otherwise the kept text is a prefix of the post, or a prefix followed by `...`. It exactly fills 280 characters with the space and the URL when the URL leaves room, and is empty when it does not. |
| Compose.ComposeTweet | main.py:147-166 | With an empty stripped URL the tweet is the post unchanged. Otherwise it ends with the exact stripped URL. |
| Compose.ComposeTweetBudget | main.py:150-166 | With a URL, the tweet is the URL alone or some text, a space and the URL. It is at most `max(280, len(url))` characters long. A post that fits is kept whole, and an empty post gives the URL alone. |
| Compose.ComposeTweetTruncates | main.py:154-164 | An over-long post with more than three characters of room is cut to a prefix plus `...`, with exactly 280 characters in total. With one to three characters of room, the prefix goes without `...`, again exactly 280. With no room, the tweet is the URL. |
| Compose.ComposeTweetLongUrl | main.py:155-166 | A URL of 279 characters or more is tweeted alone, whatever the post. |
| Pipeline.PostStage | main.py:119-128 | The post stage runs exactly when there is no post. It changes only the post, and stores what the post generator returned, even when empty. |
| Pipeline.ImageStage | main.py:131-144 | The image stage runs only for an article with a post and no image URLs. It changes only the image URLs. When it runs, it stores the generator's URLs exactly when the generator returned some. |
| Pipeline.ProcessArticle | main.py:146-178 | An exception can escape only from the publish stage. |
| Pipeline.NeverOverwrites | main.py:119-178 | A stored post, image list or truthy tweet id survives the pass. URL, title and content never change. An article with a truthy tweet id is never published. |
| Pipeline.PublishGate | main.py:146-178 | Publishing runs exactly when, after the earlier stages of the same pass, there is a post and image URLs and no truthy tweet id. It tweets the composed text with the first image URL, and stores the returned id, `None` included. |
| Pipeline.StageOrder | main.py:119-144 | The calls go post, then image, in one pass. The image stage sees the post just generated, and the stored fields are the ones these calls produced. |
| Pipeline.EmptyResultsStopThePass | main.py:119-146 | No image URLs means none are stored and publishing is skipped this pass. A blank text reply leaves the post empty, stops the pass and still counts as a modification. |
| Pipeline.PublishSettles | main.py:146-170 | A publish that returns no id leaves the gate open for the next run. One that returns an id closes every gate, and a later pass makes no call and changes nothing. |
| Pipeline.TouchedWhenChanged | main.py:119-174 | A pass that changes the record counts as a modification. |
| Pipeline.TouchedOnlyWhenPending | main.py:119-174 | Only an article some gate let in counts as modified. |
| Pipeline.StoredPostWellFormed | main.py:119-121 | A post stored in place of none is normalized and at most 280 characters long. |
| Pipeline.PassImageCalls | main.py:119-144 | One pass asks the image model at most three times. |
| Pipeline.StoredImagesWellFormed | main.py:131-134 | Image URLs stored in place of none are stripped HTTP URLs. |
| Pipeline.ComposedTweet | main.py:146-168 | The published text is the post composed with the article URL. It ends with the stripped URL and fits 280 characters whenever the URL does. The image is the first image URL. |
| Pipeline.ImplementedPostsWellBehaved | main.py:16-48 | The real post generator always gives a normalized post of at most 280 characters from one text model call. |
| Pipeline.ImplementedImagesWellBehaved | main.py:51-100 | The real image generator always makes at most three image model calls and gives only stripped HTTP URLs. |
| Pipeline.ImplementedComposes | main.py:147-166 | The real services compose tweets with `Compose.ComposeTweet`. |
| Pipeline.LoopFrom | main.py:118-178 | Each finished article holds what the loop body made of its loaded record, with the calls that body made, numbered on from the previous article's. Later articles are untouched. `changed_articles` lists, in order, exactly the articles that went through a stage, have a non-empty URL, and are the first such article with that URL. The loop stops only at an article whose body run raises, every article before it having run without raising, and returns that exception. |
| Pipeline.RunWith | main.py:112-186 | Every article the loop went through is as the loop body made it from its loaded record, with that body's calls, numbered consecutively across the run, and raised nothing. A run is aborted exactly at the first article whose body run raises, with that run's exception and calls, and the articles after it are as loaded with no call; otherwise it completes. |
| Pipeline.RunCompletes | main.py:118-178 | A run completes exactly when no article's body run raises, and so whenever every publish succeeds. |
| Pipeline.RaisesAtPublish | main.py:146-168 | A body run that raises ends with its tweet call, numbered after its generator calls, which the publish service answered with that exception; the article then had a post, image URLs and no tweet id. |
| Pipeline.RunAbortsAtPublish | main.py:146-168 | In an aborted run, the last call logged for the failing article is its tweet, and the publish service answered it with the run's exception. |
| Pipeline.IdleArticle | main.py:119-146 | An article no gate lets in goes through the body with no call, no change and no exception. |
| Pipeline.IdleRun | main.py:118-186 | A run over articles none of which is pending completes, changes nothing and writes nothing back. |
| Pipeline.Run | main.py:112-186 | Over the real services, a run with nothing pending completes and writes nothing back. |
| Pipeline.RunWriteBack | main.py:115-186 | In a completed run, an article is written exactly when it went through a stage, has a non-empty URL, and no earlier article that went through a stage has the same URL. Writes come in article order, one per URL, each the record as the loop left it. Only articles some gate let in are written, and every changed article went through a stage. |
| Pipeline.RunKeepsSettled | main.py:118-178 | In every run, completed or aborted, an article loaded with a truthy tweet id is never published and keeps its id, and its post and image URLs when it had them. An article no gate lets in is left as loaded, makes no call and does not count as modified. A run is only aborted at a pending article without a tweet id. |

## Left out

- HMAC-SHA1 and Base64 (helpers/tweet.py:57-62, 75) are the `Crypto` parameter. The nonce from `secrets.token_hex` and the clock from `time.time` (helpers/tweet.py:35, 37) are the `Entropy` parameter.
- HTTP requests, response statuses and JSON parsing are left out. Each exchange is a reply of the `Platform` value: the download, each upload attempt and the tweet. The response prints are left out.
- `time.sleep` is left out. The upload run records the seconds it would sleep.
- `get_env` and the module-level credentials (helpers/tweet.py:15-25) are startup configuration. They are the `Credentials` value.
- `post_simple_tweet` (helpers/tweet.py:144-148) is a demonstration, not part of the pipeline.
- helpers/models.py is not part of this model. The text model, `tweet_to_image_description`, the image model and `image_has_text` are the `Generators` oracles. `Content.FirstNonEmptyAttemptWins` covers the case where `image_has_text` always answers False.
- helpers/db.py and the scraper are not part of this model. The run starts from the records `get_all_articles` yields: the post reads `""` when NULL, `image_urls` reads `[]` when missing or malformed, and `tweet_id` is optional. The write-back yields the records passed to `update_article`, in order.
- Console output and the end-of-run counters (`updated_posts` and the like) are left out.
- Pipeline.Record: the three `url_key` checks of one article (main.py:123-126, 136-139, 171-174) are folded into one check after the body. This loses nothing observable: the URL never changes within the body, and a run that raises writes nothing back.
- Text.Upper: raises ASCII letters only, while Python's `str.upper` also raises other letters and can change the length (`'ß'` becomes `'SS'`). Every caller passes `"POST"` (helpers/tweet.py:73, 111), on which the two agree.
- Content.GeneratePost: the unused `url` strip of `generate_post_for_article` (main.py:19) is left out.
- The byte case of `generate_image_for_post` (main.py:82-86): the lenient UTF-8 decoding `errors="ignore"` is the `decode` parameter of the generators.
- Exceptions raised by the text model, the description model or the image model are not modelled. Only exceptions from `post_tweet_with_image` are.

## Behaviour kept as written

- **All three stages can run in one pass.** The post, image and publish stages are checked one after another on the same record in one iteration (main.py:119-178), so a fresh article gets its post, its image and its tweet in a single run of `main`.
- **A blank reply still counts.** `generate_post_for_article` may return `""`; main.py:120-126 stores it as the post and lists the article as changed.
- **A publish exception aborts the whole run.** `main` does not catch an exception from `post_tweet_with_image` (main.py:168), so the write-back at main.py:180-186 is never reached and tweet ids obtained earlier in the run are not saved. `Pipeline.RunWith` returns `Aborted` with no writes.
- **An empty URL is never written back.** The `url_key` test at main.py:124, 137 and 172 skips an article whose URL is empty or missing, whatever changed in it.
- **A repeated URL is written back once.** The `changed_urls` test at main.py:124, 137 and 172 lists only the first article with a given URL.
