/** The content generator of `main.py`: `generate_post_for_article` (the
    text model's reply normalized to one tweet) and `generate_image_for_post`
    (the image model's output filtered to URLs, behind a text-in-image gate
    with up to three attempts). The models are `Generators` oracles. */
module Content {
  import opened Wrappers
  import opened Utf8
  import Text

  /** The tweet length limit. */
  const MaxTweet: nat := 280
  /** What is kept of an over-long post before the ellipsis. */
  const KeptOnTruncation: nat := 277

  const Ellipsis: string := "..."

  /** The post-processing of `generate_post_for_article`: collapse whitespace,
      then cut to 277 characters plus "..." when over 280. */
  function NormalizePost(reply: string): (post: string)
    ensures Text.Normalized(post)
    ensures |post| <= MaxTweet
    ensures post == "" <==> Text.Words(reply) == []
  {
    var text := Text.Collapse(reply);
    Text.CollapseSpec(reply);
    if |text| > MaxTweet then
      TruncatedNormalized(text);
      text[..KeptOnTruncation] + Ellipsis
    else text
  }

  /** A normalized string cut to its first 277 characters and ended with
      "..." is still normalized. */
  lemma TruncatedNormalized(t: string)
    requires Text.Normalized(t) && |t| > KeptOnTruncation
    ensures Text.Normalized(t[..KeptOnTruncation] + Ellipsis)
  {
    var s := t[..KeptOnTruncation] + Ellipsis;
    forall i | 0 <= i < |s| && Text.IsSpace(s[i])
      ensures s[i] == ' '
    {
      assert s[i] == t[i];
    }
    forall i, j | 0 <= i && j == i + 1 < |s| && Text.IsSpace(s[j])
      ensures !Text.IsSpace(s[i])
    {
      assert s[j] == t[j] && s[i] == t[i];
    }
    assert s[0] == t[0];
  }

  /** What `generate_post_for_article` promises: the post is the reply's
      words re-joined with single spaces when that fits in 280 characters,
      otherwise the first 277 characters of it and "..."; normalizing a
      normalized post changes nothing. */
  lemma NormalizePostShape(reply: string)
    ensures var text := Text.Join(Text.Words(reply), " ");
      && (|text| <= MaxTweet ==>
            NormalizePost(reply) == text && Text.Words(NormalizePost(reply)) == Text.Words(reply))
      && (|text| > MaxTweet ==>
            NormalizePost(reply) == text[..KeptOnTruncation] + "..." && |NormalizePost(reply)| == MaxTweet)
      && NormalizePost(NormalizePost(reply)) == NormalizePost(reply)
  {
    Text.CollapseSpec(reply);
    var post := NormalizePost(reply);
    Text.CollapseSpec(post);
  }

  /** The prompt `generate_post_for_article` sends, around the stripped
      title and content. */
  function PostPrompt(title: string, content: string): string {
    PostBrief + "Title: " + title + "\n\n" + "Article content:\n" + content + "\n\n" + PostClosing
  }

  /** The fixed opening of the post prompt: the role and the constraints. */
  const PostBrief: string :=
    "You are a marketing copywriter for SourceBox AI.\n\n"
    + "Write a single X (Twitter) post promoting the blog article below.\n\n"
    + "Constraints:\n"
    + "- One tweet only (no thread)\n"
    + "- Maximum 280 characters\n"
    + "- Strong hook, concise value\n"
    + "- Up to 2 emojis\n"
    + "- No hashtags, no @mentions\n"
    + "- Do NOT include any URLs or links of any kind.\n\n"

  const PostClosing: string := "Now write just the tweet text, nothing else.\n"

  /** The post a run of `generate_post_for_article` returns and the text
      model call it made. */
  datatype PostRun = PostRun(post: string, call: GenCall)

  /** `generate_post_for_article(article)` with `n` the number of its text
      model call: the prompt around the stripped title and content, the
      reply normalized. */
  function GeneratePost(title: string, content: string, g: Generators, n: nat): (r: PostRun)
    ensures var prompt := PostPrompt(Text.Strip(title), Text.Strip(content));
      && r.call == TextCall(prompt)
      && Text.Normalized(r.post) && |r.post| <= MaxTweet
      && (r.post == "" <==> Text.Words(g.text(n, prompt)) == [])
  {
    AskForPost(PostPrompt(Text.Strip(title), Text.Strip(content)), g, n)
  }

  /** The text model call of `generate_post_for_article` and the
      normalization of its reply: the post is empty exactly when the reply
      is blank. */
  function AskForPost(prompt: string, g: Generators, n: nat): (r: PostRun)
    ensures Text.Normalized(r.post) && |r.post| <= MaxTweet
    ensures r.call == TextCall(prompt) && (r.post == "" <==> Text.Words(g.text(n, prompt)) == [])
  {
    PostRun(NormalizePost(g.text(n, prompt)), TextCall(prompt))
  }

  /** The prompt `generate_image_for_post` sends, around the description. */
  function ImagePrompt(description: string): string {
    "\n        No text, no words just a visual representation of:\n        "
    + description + "\n\n\n        "
  }

  /** One item of the image model's output: an object whose `url` attribute
      is a string, one whose `url` is bytes, or one with no usable `url`
      (then `str(item)` is used). */
  datatype ImageItem = UrlText(url: string) | UrlBytes(raw: seq<byte>) | NoUrl(repr: string)

  /** The model returns either a single item or a list of them. */
  datatype ImageOutput = Single(item: ImageItem) | Many(items: seq<ImageItem>)

  function Items(out: ImageOutput): seq<ImageItem> {
    match out
    case Single(item) => [item]
    case Many(items) => items
  }

  /** The text taken from an item before stripping; bytes are decoded with
      `decode`, which stands for `bytes.decode("utf-8", errors="ignore")`. */
  function Candidate(item: ImageItem, decode: seq<byte> -> string): string {
    match item
    case UrlText(u) => u
    case UrlBytes(b) => decode(b)
    case NoUrl(r) => r
  }

  /** `u.startswith("http://") or u.startswith("https://")`, spelled out
      character by character. */
  predicate IsHttpUrl(u: string) {
    && |u| >= 7 && u[0] == 'h' && u[1] == 't' && u[2] == 't' && u[3] == 'p'
    && ((u[4] == ':' && u[5] == '/' && u[6] == '/')
        || (|u| >= 8 && u[4] == 's' && u[5] == ':' && u[6] == '/' && u[7] == '/'))
  }

  /** The character-wise test is the two `startswith` calls. */
  lemma IsHttpUrlStartsWith(u: string)
    ensures IsHttpUrl(u) <==> Text.StartsWith(u, "http://") || Text.StartsWith(u, "https://")
  {
    if Text.StartsWith(u, "http://") {
      assert u[..7][4] == ':';
    }
    if Text.StartsWith(u, "https://") {
      assert u[..8][4] == 's';
    }
    if IsHttpUrl(u) && u[4] == ':' {
      assert u[..7] == "http://";
    }
    if IsHttpUrl(u) && u[4] == 's' {
      assert u[..8] == "https://";
    }
  }

  /** The URL one item contributes: its stripped candidate, when that
      starts with an HTTP scheme. */
  function UrlOf(item: ImageItem, decode: seq<byte> -> string): (u: Option<string>)
    ensures u.Some? <==> IsHttpUrl(Text.Strip(Candidate(item, decode)))
    ensures u.Some? ==> u.value == Text.Strip(Candidate(item, decode))
  {
    var c := Text.Strip(Candidate(item, decode));
    if IsHttpUrl(c) then Some(c) else None
  }

  /** A contributed URL carries no surrounding whitespace. */
  lemma UrlOfStripped(item: ImageItem, decode: seq<byte> -> string)
    ensures UrlOf(item, decode).Some? ==>
      var u := UrlOf(item, decode).value;
      IsHttpUrl(u) && Text.IsStripped(u) && Text.Strip(u) == u
  {
    var t := Text.Strip(Candidate(item, decode));
    Text.StripIdempotent(Candidate(item, decode));
    Text.StrippedIff(t);
  }

  /** The present values of `f` over `xs`, in order. */
  function FilterMap<T>(xs: seq<T>, f: T -> Option<string>): (vs: seq<string>)
    ensures |vs| <= |xs|
  {
    if |xs| == 0 then []
    else if f(xs[0]).Some? then [f(xs[0]).value] + FilterMap(xs[1..], f)
    else FilterMap(xs[1..], f)
  }

  lemma {:induction false} FilterMapMembership<T>(xs: seq<T>, f: T -> Option<string>, v: string)
    ensures v in FilterMap(xs, f) <==> exists i :: 0 <= i < |xs| && f(xs[i]) == Some(v)
  {
    if |xs| > 0 {
      FilterMapMembership(xs[1..], f, v);
      if exists i :: 0 <= i < |xs| && f(xs[i]) == Some(v) {
        var i :| 0 <= i < |xs| && f(xs[i]) == Some(v);
        if i > 0 {
          assert xs[1..][i - 1] == xs[i];
        }
      }
      if exists i :: 0 <= i < |xs[1..]| && f(xs[1..][i]) == Some(v) {
        var i :| 0 <= i < |xs[1..]| && f(xs[1..][i]) == Some(v);
        assert xs[i + 1] == xs[1..][i];
      }
    }
  }

  /** The first present value comes from the first element `f` keeps. */
  lemma {:induction false} FilterMapFirst<T>(xs: seq<T>, f: T -> Option<string>)
    ensures var vs := FilterMap(xs, f);
      vs != [] <==> exists i :: 0 <= i < |xs| && f(xs[i]).Some?
    ensures var vs := FilterMap(xs, f);
      vs != [] ==> exists i :: 0 <= i < |xs| && f(xs[i]) == Some(vs[0]) && forall j :: 0 <= j < i ==> f(xs[j]).None?
  {
    if |xs| > 0 {
      FilterMapFirst(xs[1..], f);
      if f(xs[0]).None? {
        if exists i :: 0 <= i < |xs| && f(xs[i]).Some? {
          var i :| 0 <= i < |xs| && f(xs[i]).Some?;
          assert xs[1..][i - 1] == xs[i];
        }
        var vs := FilterMap(xs[1..], f);
        if vs != [] {
          var i :| 0 <= i < |xs[1..]| && f(xs[1..][i]) == Some(vs[0]) && forall j :: 0 <= j < i ==> f(xs[1..][j]).None?;
          assert xs[i + 1] == xs[1..][i];
          forall j | 0 <= j < i + 1
            ensures f(xs[j]).None?
          {
            if j > 0 {
              assert xs[j] == xs[1..][j - 1];
            }
          }
        }
      }
    }
  }

  /** The normalization loop of `generate_image_for_post`: strip each
      candidate, keep those starting with "http://" or "https://", in
      order. */
  function ExtractUrls(items: seq<ImageItem>, decode: seq<byte> -> string): (urls: seq<string>)
    ensures |urls| <= |items|
    ensures forall u :: u in urls ==> IsHttpUrl(u) && Text.IsStripped(u)
    ensures urls != [] <==> exists i :: 0 <= i < |items| && UrlOf(items[i], decode).Some?
  {
    var f := item => UrlOf(item, decode);
    FilterMapShaped(items, decode, f);
    FilterMapFirst(items, f);
    FilterMap(items, f)
  }

  lemma FilterMapShaped(items: seq<ImageItem>, decode: seq<byte> -> string, f: ImageItem -> Option<string>)
    requires forall item :: f(item) == UrlOf(item, decode)
    ensures forall u :: u in FilterMap(items, f) ==> IsHttpUrl(u) && Text.IsStripped(u)
  {
    forall u | u in FilterMap(items, f)
      ensures IsHttpUrl(u) && Text.IsStripped(u)
    {
      FilterMapMembership(items, f, u);
      var i :| 0 <= i < |items| && f(items[i]) == Some(u);
      UrlOfStripped(items[i], decode);
    }
  }

  /** A URL is extracted exactly when some item contributes it. */
  lemma ExtractUrlsMembership(items: seq<ImageItem>, decode: seq<byte> -> string, u: string)
    ensures u in ExtractUrls(items, decode) <==> exists i :: 0 <= i < |items| && UrlOf(items[i], decode) == Some(u)
  {
    var f := item => UrlOf(item, decode);
    FilterMapMembership(items, f, u);
    assert forall i :: 0 <= i < |items| ==> f(items[i]) == UrlOf(items[i], decode);
  }

  /** The first extracted URL is that of the first item contributing one;
      nothing is extracted exactly when no item contributes. */
  lemma ExtractUrlsFirst(items: seq<ImageItem>, decode: seq<byte> -> string)
    ensures var urls := ExtractUrls(items, decode);
      urls != [] <==> exists i :: 0 <= i < |items| && UrlOf(items[i], decode).Some?
    ensures var urls := ExtractUrls(items, decode);
      urls != [] ==> exists i :: && 0 <= i < |items| && UrlOf(items[i], decode) == Some(urls[0])
                                && forall j :: 0 <= j < i ==> UrlOf(items[j], decode).None?
  {
    var f := item => UrlOf(item, decode);
    FilterMapFirst(items, f);
    assert forall i :: 0 <= i < |items| ==> f(items[i]) == UrlOf(items[i], decode);
  }

  /** The generative collaborators, each indexed by the running number of
      the collaborator call so that repeated calls may answer differently:
      the text model, `tweet_to_image_description`, the image model,
      `image_has_text`, and the lenient UTF-8 decoding of byte URLs. */
  datatype Generators = Generators(
    text: (nat, string) -> string,
    describe: (nat, string) -> string,
    image: (nat, string) -> ImageOutput,
    hasText: (nat, string) -> bool,
    decode: seq<byte> -> string)

  /** A call to one of the collaborators. */
  datatype GenCall = TextCall(prompt: string) | DescribeCall(post: string) | ImageCall(prompt: string) | GateCall(url: string)

  const MaxImageAttempts: nat := 3

  function CountImageCalls(calls: seq<GenCall>): nat {
    if |calls| == 0 then 0
    else (if calls[0].ImageCall? then 1 else 0) + CountImageCalls(calls[1..])
  }

  lemma CountImageCallsCons(c: GenCall, rest: seq<GenCall>)
    ensures CountImageCalls([c] + rest) == (if c.ImageCall? then 1 else 0) + CountImageCalls(rest)
  {
    assert ([c] + rest)[1..] == rest;
  }

  /** The URLs the image model's answer to call `n` yields. */
  function UrlsAt(g: Generators, n: nat, prompt: string): (urls: seq<string>)
    ensures forall u :: u in urls ==> IsHttpUrl(u) && Text.IsStripped(u)
  {
    ExtractUrls(Items(g.image(n, prompt)), g.decode)
  }

  /** The URLs a run of the image pipeline returns and the collaborator
      calls it made, in order. */
  datatype ImageRun = ImageRun(urls: seq<string>, calls: seq<GenCall>)

  /** The attempt loop of `generate_image_for_post` with `left` attempts
      remaining and `n` the number of the next collaborator call; `urlsAt(m)`
      is what the image model's answer to call `m` yields. An attempt with
      no URL is retried, one whose first URL the gate flags is retried, the
      first other one is returned. */
  function ImageAttempts(prompt: string, urlsAt: nat -> seq<string>, hasText: (nat, string) -> bool,
                         n: nat, left: nat): (r: ImageRun)
    ensures |r.calls| <= 2 * left
    ensures left > 0 ==> |r.calls| >= 1 && r.calls[0] == ImageCall(prompt)
    ensures r.urls != [] ==> |r.calls| >= 2
    decreases left
  {
    if left == 0 then ImageRun([], [])
    else
      var urls := urlsAt(n);
      if |urls| == 0 then
        var rest := ImageAttempts(prompt, urlsAt, hasText, n + 1, left - 1);
        ImageRun(rest.urls, [ImageCall(prompt)] + rest.calls)
      else if !hasText(n + 1, urls[0]) then
        ImageRun(urls, [ImageCall(prompt), GateCall(urls[0])])
      else
        var rest := ImageAttempts(prompt, urlsAt, hasText, n + 2, left - 1);
        ImageRun(rest.urls, [ImageCall(prompt), GateCall(urls[0])] + rest.calls)
  }

  /** Each attempt calls the image model once, so a loop with `left`
      attempts calls it at most `left` times. */
  lemma {:induction false} ImageAttemptsBounded(prompt: string, urlsAt: nat -> seq<string>,
                                                hasText: (nat, string) -> bool, n: nat, left: nat)
    ensures CountImageCalls(ImageAttempts(prompt, urlsAt, hasText, n, left).calls) <= left
    decreases left
  {
    if left > 0 {
      var urls := urlsAt(n);
      var one := [ImageCall(prompt)];
      assert CountImageCalls(one) == 1 by {
        assert one[1..] == [];
      }
      if |urls| == 0 {
        var rest := ImageAttempts(prompt, urlsAt, hasText, n + 1, left - 1);
        ImageAttemptsBounded(prompt, urlsAt, hasText, n + 1, left - 1);
        CountImageCallsAppend(one, rest.calls);
      } else {
        var two := [ImageCall(prompt), GateCall(urls[0])];
        assert CountImageCalls(two) == 1 by {
          assert two[1..] == [GateCall(urls[0])] && two[1..][1..] == [];
        }
        if hasText(n + 1, urls[0]) {
          var rest := ImageAttempts(prompt, urlsAt, hasText, n + 2, left - 1);
          ImageAttemptsBounded(prompt, urlsAt, hasText, n + 2, left - 1);
          CountImageCallsAppend(two, rest.calls);
        }
      }
    }
  }

  lemma {:induction false} CountImageCallsAppend(a: seq<GenCall>, b: seq<GenCall>)
    ensures CountImageCalls(a + b) == CountImageCalls(a) + CountImageCalls(b)
    decreases |a|
  {
    if |a| > 0 {
      assert (a + b)[1..] == a[1..] + b;
      CountImageCallsAppend(a[1..], b);
    } else {
      assert a + b == b;
    }
  }

  /** A loop that returns URLs ends with the image call that produced them
      followed by a gate call on the first of them. */
  lemma {:induction false} ImageAttemptsEndWithGate(prompt: string, urlsAt: nat -> seq<string>,
                                                    hasText: (nat, string) -> bool, n: nat, left: nat)
    ensures var r := ImageAttempts(prompt, urlsAt, hasText, n, left);
      r.urls != [] ==>
        && r.calls[|r.calls| - 1] == GateCall(r.urls[0])
        && r.calls[|r.calls| - 2] == ImageCall(prompt)
    decreases left
  {
    if left > 0 {
      var urls := urlsAt(n);
      var r := ImageAttempts(prompt, urlsAt, hasText, n, left);
      if |urls| == 0 {
        var rest := ImageAttempts(prompt, urlsAt, hasText, n + 1, left - 1);
        ImageAttemptsEndWithGate(prompt, urlsAt, hasText, n + 1, left - 1);
        assert r.calls == [ImageCall(prompt)] + rest.calls && r.urls == rest.urls;
      } else if hasText(n + 1, urls[0]) {
        var rest := ImageAttempts(prompt, urlsAt, hasText, n + 2, left - 1);
        ImageAttemptsEndWithGate(prompt, urlsAt, hasText, n + 2, left - 1);
        assert r.calls == [ImageCall(prompt), GateCall(urls[0])] + rest.calls && r.urls == rest.urls;
      }
    }
  }

  /** The URLs a loop returns are those of the image call just before its
      last collaborator call, and the gate, asked at that last call,
      reported no text. */
  lemma {:induction false} ImageAttemptsAccepted(prompt: string, urlsAt: nat -> seq<string>,
                                                 hasText: (nat, string) -> bool, n: nat, left: nat)
    ensures var r := ImageAttempts(prompt, urlsAt, hasText, n, left);
      r.urls != [] ==>
        && !hasText(n + |r.calls| - 1, r.urls[0])
        && r.urls == urlsAt(n + |r.calls| - 2)
    decreases left
  {
    if left > 0 {
      var urls := urlsAt(n);
      var r := ImageAttempts(prompt, urlsAt, hasText, n, left);
      if |urls| == 0 {
        var rest := ImageAttempts(prompt, urlsAt, hasText, n + 1, left - 1);
        assert r.calls == [ImageCall(prompt)] + rest.calls && r.urls == rest.urls;
        ImageAttemptsAccepted(prompt, urlsAt, hasText, n + 1, left - 1);
        assert n + |r.calls| == (n + 1) + |rest.calls|;
      } else if hasText(n + 1, urls[0]) {
        var rest := ImageAttempts(prompt, urlsAt, hasText, n + 2, left - 1);
        assert r.calls == [ImageCall(prompt), GateCall(urls[0])] + rest.calls && r.urls == rest.urls;
        ImageAttemptsAccepted(prompt, urlsAt, hasText, n + 2, left - 1);
        assert n + |r.calls| == (n + 2) + |rest.calls|;
      } else {
        assert r == ImageRun(urls, [ImageCall(prompt), GateCall(urls[0])]);
      }
    }
  }

  /** With a gate that never reports text (which is what `image_has_text`
      does), the loop returns the URLs of the first attempt that yields
      any, and gives [] only after every remaining attempt yielded none. */
  lemma {:induction false} FirstNonEmptyAttemptWins(prompt: string, urlsAt: nat -> seq<string>,
                                                    hasText: (nat, string) -> bool, n: nat, left: nat)
    requires forall m, u :: !hasText(m, u)
    ensures var r := ImageAttempts(prompt, urlsAt, hasText, n, left);
      && (r.urls == [] ==>
            |r.calls| == left && forall m :: n <= m < n + left ==> urlsAt(m) == [])
      && (r.urls != [] ==>
            && 2 <= |r.calls| <= left + 1
            && r.urls == urlsAt(n + |r.calls| - 2)
            && forall m :: n <= m < n + |r.calls| - 2 ==> urlsAt(m) == [])
    decreases left
  {
    if left > 0 {
      var urls := urlsAt(n);
      var r := ImageAttempts(prompt, urlsAt, hasText, n, left);
      if |urls| == 0 {
        var rest := ImageAttempts(prompt, urlsAt, hasText, n + 1, left - 1);
        assert r.calls == [ImageCall(prompt)] + rest.calls && r.urls == rest.urls;
        FirstNonEmptyAttemptWins(prompt, urlsAt, hasText, n + 1, left - 1);
      } else {
        assert !hasText(n + 1, urls[0]);
        assert r == ImageRun(urls, [ImageCall(prompt), GateCall(urls[0])]);
      }
    }
  }

  /** The prompt for the image model: the description, or the post itself
      when the description is empty. */
  function ImageModelPrompt(post: string, description: string): string {
    ImagePrompt(if description == "" then post else description)
  }

  /** The attempt loop of `generate_image_for_post` on a given prompt,
      with `n` the number of its first call: at most three image model
      calls, and every URL it returns stripped and HTTP. */
  function ImageLoop(prompt: string, g: Generators, n: nat): (r: ImageRun)
    ensures CountImageCalls(r.calls) <= MaxImageAttempts
    ensures forall u :: u in r.urls ==> IsHttpUrl(u) && Text.IsStripped(u)
  {
    ImageAttemptsBounded(prompt, (m: nat) => UrlsAt(g, m, prompt), g.hasText, n, MaxImageAttempts);
    ImageAttemptsUrls(prompt, (m: nat) => UrlsAt(g, m, prompt), g.hasText, n, MaxImageAttempts);
    ImageAttempts(prompt, (m: nat) => UrlsAt(g, m, prompt), g.hasText, n, MaxImageAttempts)
  }

  /** Every URL the attempt loop returns is one the image model answered
      with, so it has whatever shape every answer has. */
  lemma ImageAttemptsUrls(prompt: string, urlsAt: nat -> seq<string>,
                          hasText: (nat, string) -> bool, n: nat, left: nat)
    requires forall m, u :: u in urlsAt(m) ==> IsHttpUrl(u) && Text.IsStripped(u)
    ensures forall u :: u in ImageAttempts(prompt, urlsAt, hasText, n, left).urls ==>
      IsHttpUrl(u) && Text.IsStripped(u)
  {
    ImageAttemptsAccepted(prompt, urlsAt, hasText, n, left);
  }

  /** `generate_image_for_post(post)` with `n` the number of its first
      collaborator call: describe the post, then run the attempt loop. */
  function GenerateImage(post: string, g: Generators, n: nat): (r: ImageRun)
    ensures |r.calls| >= 1 && r.calls[0] == DescribeCall(post)
    ensures CountImageCalls(r.calls) <= MaxImageAttempts
    ensures forall u :: u in r.urls ==> IsHttpUrl(u) && Text.IsStripped(u)
  {
    var loop := ImageLoop(ImageModelPrompt(post, g.describe(n, post)), g, n + 1);
    CountImageCallsCons(DescribeCall(post), loop.calls);
    ImageRun(loop.urls, [DescribeCall(post)] + loop.calls)
  }
}
