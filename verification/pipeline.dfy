/** The article loop of `main` in `main.py`: for each article in database
    order, the post stage, the image stage and the publish stage, each behind
    its gate and all three in the same pass; then the write-back of the
    articles whose record changed. */
module Pipeline {
  import opened Wrappers
  import Text
  import Content
  import Compose
  import Publisher

  /** The record `get_all_articles` yields: `post` is "" when the column is
      NULL, `image_urls` is [] when missing or malformed, `tweet_id` may be
      NULL. */
  datatype Article = Article(
    url: string,
    title: string,
    content: string,
    post: string,
    imageUrls: seq<string>,
    tweetId: Option<string>)

  /** `article.get("tweet_id")` is truthy: present and non-empty. */
  predicate HasTweetId(a: Article) {
    a.tweetId.Some? && a.tweetId.value != ""
  }

  /** The gate of the post stage: `not article.get("post")`. */
  predicate NeedsPost(a: Article) {
    a.post == ""
  }

  /** The gate of the image stage: a post and no image URLs. */
  predicate NeedsImage(a: Article) {
    a.post != "" && a.imageUrls == []
  }

  /** The gate of the publish stage: a post, image URLs and no tweet id. */
  predicate NeedsPublish(a: Article) {
    a.post != "" && a.imageUrls != [] && !HasTweetId(a)
  }

  /** Some stage's gate is open for the record as loaded. */
  predicate Pending(a: Article) {
    NeedsPost(a) || NeedsImage(a) || NeedsPublish(a)
  }

  /** A collaborator call made while processing an article. */
  datatype Call = Generate(gen: Content.GenCall) | Publish(text: string, imageUrl: string)

  /** The collaborators of one run: the generative models, and the platform
      the n-th collaborator call of the run meets when it is a publish. */
  datatype Oracles = Oracles(gen: Content.Generators, platform: nat -> Publisher.Platform)

  /** What the loop delegates: `generate_post_for_article` (title, content
      and the number of its call in), `generate_image_for_post` (post and
      the number of its first call in), the tweet composition (post and
      article URL in) and `post_tweet_with_image` (tweet text, image URL and
      the number of its call in). */
  datatype Services = Services(
    post: (string, string, nat) -> Content.PostRun,
    image: (string, nat) -> Content.ImageRun,
    compose: (string, string) -> string,
    publish: (string, string, nat) -> Result<Option<string>, Publisher.PublishError>)

  /** `generate_post_for_article` over the text model. */
  function PostService(g: Content.Generators): (string, string, nat) -> Content.PostRun {
    (title: string, content: string, n: nat) => Content.GeneratePost(title, content, g, n)
  }

  /** `generate_image_for_post` over the generative models. */
  function ImageService(g: Content.Generators): (image: (string, nat) -> Content.ImageRun)
    ensures forall post, n :: image(post, n) == Content.GenerateImage(post, g, n)
  {
    (post: string, n: nat) => Content.GenerateImage(post, g, n)
  }

  /** `post_tweet_with_image` over the platform the n-th call meets. */
  function PublishService(platform: nat -> Publisher.Platform): (string, string, nat) -> Result<Option<string>, Publisher.PublishError> {
    (text: string, imageUrl: string, n: nat) => Publisher.PostTweetWithImage(text, imageUrl, platform(n)).result
  }

  /** The services as `main.py` and `helpers/tweet.py` implement them over
      the collaborators. */
  function Implemented(o: Oracles): Services {
    Services(
      PostService(o.gen),
      ImageService(o.gen),
      (post: string, url: string) => Compose.ComposeTweet(post, url),
      PublishService(o.platform))
  }

  /** The state of the loop: the in-memory articles, the calls made for
      each article, the number of calls so far, the number of the first
      call made for each article, whether each article counted as modified,
      and `changed_articles` (as article indices) with `changed_urls`. */
  datatype Progress = Progress(
    articles: seq<Article>,
    log: seq<seq<Call>>,
    count: nat,
    starts: seq<nat>,
    touched: seq<bool>,
    changed: seq<nat>,
    changedUrls: set<string>)

  /** What one generation stage did to an article: the article after it,
      the generator calls it made, and whether it counts as a
      modification. */
  datatype Stage = Stage(article: Article, calls: seq<Content.GenCall>, touched: bool)

  /** The post stage (lines 119-129), `n` the number of the text model
      call: a post is generated only when there is none; a blank reply
      leaves the post empty yet counts as a modification. */
  function PostStage(a: Article, sv: Services, n: nat): (s: Stage)
    ensures s.touched <==> NeedsPost(a)
    ensures !NeedsPost(a) ==> s.article == a && s.calls == []
    ensures s.article.(post := a.post) == a
    ensures NeedsPost(a) ==>
      s.article.post == sv.post(a.title, a.content, n).post && s.calls == [sv.post(a.title, a.content, n).call]
  {
    if NeedsPost(a) then
      var run := sv.post(a.title, a.content, n);
      Stage(a.(post := run.post), [run.call], true)
    else Stage(a, [], false)
  }

  /** The image stage (lines 131-144), `n` the number of its first call:
      images are generated only for an article with a post and no images,
      and are stored only when the generator returned some. */
  function ImageStage(a: Article, sv: Services, n: nat): (s: Stage)
    ensures !NeedsImage(a) ==> s == Stage(a, [], false)
    ensures s.article.(imageUrls := a.imageUrls) == a
    ensures s.touched <==> s.article != a
    ensures s.touched ==> s.article.imageUrls == sv.image(a.post, n).urls != []
    ensures NeedsImage(a) ==> s.calls == sv.image(a.post, n).calls
    ensures NeedsImage(a) && sv.image(a.post, n).urls != [] ==>
      s.touched && s.article.imageUrls == sv.image(a.post, n).urls
  {
    if NeedsImage(a) then
      var run := sv.image(a.post, n);
      if run.urls != [] then Stage(a.(imageUrls := run.urls), run.calls, true)
      else Stage(a, run.calls, false)
    else Stage(a, [], false)
  }

  /** The tweet the publish stage posts: its text and image URL. */
  datatype Tweet = Tweet(text: string, imageUrl: string)

  /** What the loop body does for one article: the record after it, the
      generator calls made for it, the tweet it posted if it reached the
      publish stage, whether it counts as modified, and the exception that
      escaped the publish stage, if one did. */
  datatype ArticleRun = ArticleRun(
    article: Article,
    generated: seq<Content.GenCall>,
    tweet: Option<Tweet>,
    touched: bool,
    error: Option<Publisher.PublishError>)

  /** The calls of an article run in the order they were made: the
      generator calls, then the publish. */
  function Calls(r: ArticleRun): (cs: seq<Call>)
    ensures |cs| == |r.generated| + (if r.tweet.Some? then 1 else 0)
    ensures r.tweet.None? ==> forall c :: c in cs ==> c.Generate?
  {
    seq(|r.generated|, k requires 0 <= k < |r.generated| => Generate(r.generated[k]))
    + (match r.tweet case Some(t) => [Publish(t.text, t.imageUrl)] case None => [])
  }

  /** The body of the loop of `main` (lines 119-178) for article `a`, `n`
      the number of its first collaborator call: the post stage, the image
      stage and the publish stage, in that order, each gate read on the
      record the previous stages left. */
  function ProcessArticle(a: Article, sv: Services, n: nat): (r: ArticleRun)
    ensures r.error.Some? ==> r.tweet.Some?
    ensures r.tweet.Some? ==> r.article.imageUrls != [] && r.tweet.value.imageUrl == r.article.imageUrls[0]
  {
    var s1 := PostStage(a, sv, n);
    var s2 := ImageStage(s1.article, sv, n + |s1.calls|);
    var b := s2.article;
    var generated := s1.calls + s2.calls;
    if NeedsPublish(b) then
      var tweet := Tweet(sv.compose(b.post, b.url), b.imageUrls[0]);
      match sv.publish(tweet.text, tweet.imageUrl, n + |generated|)
      case Err(e) => ArticleRun(b, generated, Some(tweet), true, Some(e))
      case Ok(id) => ArticleRun(b.(tweetId := id), generated, Some(tweet), true, None)
    else ArticleRun(b, generated, None, s1.touched || s2.touched, None)
  }

  /** The loop state once article `i` is done: its new record, its calls,
      and, when it was modified and has a URL not yet listed, its index
      appended to `changed_articles` (lines 123-126, 136-139, 171-174: the
      URL never changes, so the three checks of one article have the effect
      of one). */
  function Record(p: Progress, i: nat, b: Article, calls: seq<Call>, touched: bool): (q: Progress)
    requires i < |p.articles| == |p.log| == |p.starts| == |p.touched|
  {
    var key := p.articles[i].url;
    var q := Progress(p.articles[i := b], p.log[i := calls], p.count + |calls|,
                      p.starts[i := p.count], p.touched[i := touched], p.changed, p.changedUrls);
    if touched && key != "" && key !in p.changedUrls then
      q.(changed := p.changed + [i], changedUrls := p.changedUrls + {key})
    else q
  }

  /** The loop goes on with the next article, in the state reached; or an
      exception escaped `post_tweet_with_image` while article `at` was
      processed and ended the run, `p` the state before that article. */
  datatype StepOutcome = Next(p: Progress) | Abort(error: Publisher.PublishError, at: nat, p: Progress)

  /** The loop body over the given services. */
  function Body(sv: Services): (body: (Article, nat) -> ArticleRun)
    ensures forall a, n :: body(a, n) == ProcessArticle(a, sv, n)
  {
    (a: Article, n: nat) => ProcessArticle(a, sv, n)
  }

  /** What the loop relies on from its body: the URL is kept, a changed
      record counts as modified, and only an article some gate let in
      counts as modified. */
  ghost predicate Sound(body: (Article, nat) -> ArticleRun) {
    forall a, n :: SoundAt(a, body(a, n))
  }

  predicate SoundAt(a: Article, r: ArticleRun) {
    && r.article.url == a.url
    && (r.error.None? && r.article != a ==> r.touched)
    && (r.touched ==> Pending(a))
  }

  /** One iteration of the loop, for article `i`. */
  function Step(p: Progress, i: nat, body: (Article, nat) -> ArticleRun): (r: StepOutcome)
    requires i < |p.articles| == |p.log| == |p.starts| == |p.touched|
    ensures |r.p.articles| == |r.p.log| == |r.p.starts| == |r.p.touched| == |p.articles|
  {
    var run := body(p.articles[i], p.count);
    match run.error
    case Some(e) => Abort(e, i, p)
    case None => Next(Record(p, i, run.article, Calls(run), run.touched))
  }

  /** The state before the loop. */
  function Start(init: seq<Article>): (p: Progress)
    ensures |p.articles| == |p.log| == |p.starts| == |p.touched| == |init|
  {
    Progress(init, seq(|init|, j => []), 0, seq(|init|, j => 0), seq(|init|, j => false), [], {})
  }

  /** The loop from article `i` on, in the state `p` reached before it,
      with what it keeps true (see `Tracked`): it goes through every
      article when no body run raises, and otherwise stops at the first
      article whose body run raises, with that run's exception. */
  function LoopFrom(init: seq<Article>, p: Progress, body: (Article, nat) -> ArticleRun, i: nat): (r: StepOutcome)
    requires Sound(body) && i <= |init| && Tracked(init, p, i, body)
    ensures |r.p.articles| == |r.p.log| == |init|
    ensures r.Next? ==> Tracked(init, r.p, |init|, body)
    ensures r.Abort? ==>
      && i <= r.at < |init| && Tracked(init, r.p, r.at, body)
      && body(init[r.at], r.p.count).error == Some(r.error)
    decreases |init| - i
  {
    if i == |init| then Next(p)
    else
      StepTracked(init, p, i, body);
      assert p.articles[i] == init[i];
      match Step(p, i, body)
      case Abort(e, k, q) => Abort(e, k, q)
      case Next(q) => LoopFrom(init, q, body, i + 1)
  }

  /** No stage overwrites a field that is already set: a post, image URLs
      or a truthy tweet id survive the loop body; the URL, title and
      content never change; an article with a truthy tweet id is never
      published, so its body cannot fail. */
  lemma NeverOverwrites(a: Article, sv: Services, n: nat)
    ensures var r := ProcessArticle(a, sv, n);
      var b := r.article;
      && b.url == a.url && b.title == a.title && b.content == a.content
      && (a.post != "" ==> b.post == a.post)
      && (a.imageUrls != [] ==> b.imageUrls == a.imageUrls)
      && (HasTweetId(a) ==> r.error.None? && b.tweetId == a.tweetId)
  {
  }

  /** The publish stage (lines 146-178) runs exactly when, after the post
      and image stages of the same pass, the article has a post and image
      URLs and had no truthy tweet id. It tweets the text composed from the
      post and the URL with the first image URL, as the call numbered after
      the article's generator calls; the tweet id it returns, `None`
      included, is stored; an exception there is the error of the body.
      Without it the tweet id stays and nothing fails. */
  lemma PublishGate(a: Article, sv: Services, n: nat)
    ensures var r := ProcessArticle(a, sv, n);
      var b := r.article;
      && (r.tweet.Some? <==> NeedsPublish(b.(tweetId := a.tweetId)))
      && (r.tweet.Some? ==>
            && r.tweet.value == Tweet(sv.compose(b.post, b.url), b.imageUrls[0])
            && sv.publish(r.tweet.value.text, r.tweet.value.imageUrl, n + |r.generated|)
               == (if r.error.None? then Ok(b.tweetId) else Err(r.error.value)))
      && (r.tweet.None? ==> r.error.None? && b.tweetId == a.tweetId)
  {
  }

  /** The stages run top to bottom in one pass (lines 119-144): the text
      model call first, when the article had no post; then the image
      generator's calls, when the record the post stage left has a post and
      no images, numbered after the text model call; the post and image
      URLs stored are the ones these calls produced, and generated images
      are stored only when there are some. */
  lemma StageOrder(a: Article, sv: Services, n: nat)
    ensures var r := ProcessArticle(a, sv, n);
      var b := r.article;
      var afterPost := a.(post := b.post);
      var m := n + (if NeedsPost(a) then 1 else 0);
      && r.generated
         == (if NeedsPost(a) then [sv.post(a.title, a.content, n).call] else [])
            + (if NeedsImage(afterPost) then sv.image(b.post, m).calls else [])
      && (NeedsPost(a) ==> b.post == sv.post(a.title, a.content, n).post)
      && (NeedsImage(afterPost) && sv.image(b.post, m).urls != [] ==> b.imageUrls == sv.image(b.post, m).urls)
      && (!NeedsImage(afterPost) || sv.image(b.post, m).urls == [] ==> b.imageUrls == a.imageUrls)
  {
  }

  /** When image generation yields nothing the image URLs stay empty and the
      publish stage is skipped in that pass (lines 133-146); when the text
      model's reply is blank the post stays empty, no further stage runs,
      and the article still counts as modified (lines 119-123). */
  lemma EmptyResultsStopThePass(a: Article, sv: Services, n: nat)
    ensures var r := ProcessArticle(a, sv, n);
      && (NeedsImage(a) && sv.image(a.post, n).urls == [] ==>
            r.article.imageUrls == [] && r.tweet.None? && r.error.None?)
      && (NeedsPost(a) && sv.post(a.title, a.content, n).post == "" ==>
            && r.article.post == "" && r.touched
            && r.generated == [sv.post(a.title, a.content, n).call] && r.tweet.None?)
  {
  }

  /** A changed record counts as a modification. */
  lemma TouchedWhenChanged(a: Article, sv: Services, n: nat)
    ensures var r := ProcessArticle(a, sv, n);
      r.error.None? && r.article != a ==> r.touched
  {
  }

  /** Only an article some gate let in counts as modified. */
  lemma TouchedOnlyWhenPending(a: Article, sv: Services, n: nat)
    ensures ProcessArticle(a, sv, n).touched ==> Pending(a)
  {
  }

  /** What the real post service promises whatever its inputs: the post
      is whitespace-normalised and at most 280 characters, from one text
      model call. */
  ghost predicate PostsWellBehaved(post: (string, string, nat) -> Content.PostRun) {
    forall t, c, n ::
      && Text.Normalized(post(t, c, n).post)
      && |post(t, c, n).post| <= Content.MaxTweet
      && post(t, c, n).call.TextCall?
  }

  /** What the real image service promises whatever its inputs: at most
      three image model calls, and only stripped HTTP(S) URLs. */
  ghost predicate ImagesWellBehaved(image: (string, nat) -> Content.ImageRun) {
    ImageCallsBounded(image) && ImageUrlsWellFormed(image)
  }

  ghost predicate ImageCallsBounded(image: (string, nat) -> Content.ImageRun) {
    forall p, n :: Content.CountImageCalls(image(p, n).calls) <= Content.MaxImageAttempts
  }

  ghost predicate ImageUrlsWellFormed(image: (string, nat) -> Content.ImageRun) {
    forall p, n, u :: u in image(p, n).urls ==> Content.IsHttpUrl(u) && Text.IsStripped(u)
  }

  lemma ImplementedPostsWellBehaved(o: Oracles)
    ensures PostsWellBehaved(Implemented(o).post)
  {
    PostServiceWellBehaved(o.gen);
  }

  lemma ImplementedImagesWellBehaved(o: Oracles)
    ensures ImagesWellBehaved(Implemented(o).image)
  {
    ImageServiceWellBehaved(o.gen);
  }

  lemma PostServiceWellBehaved(g: Content.Generators)
    ensures PostsWellBehaved(PostService(g))
  {
    forall t, c, n
      ensures var r := PostService(g)(t, c, n);
        Text.Normalized(r.post) && |r.post| <= Content.MaxTweet && r.call.TextCall?
    {
    }
  }

  lemma ImageServiceWellBehaved(g: Content.Generators)
    ensures ImagesWellBehaved(ImageService(g))
  {
    ImageServiceCallsBounded(g);
    ImageServiceUrlsWellFormed(g);
  }

  lemma ImageServiceCallsBounded(g: Content.Generators)
    ensures ImageCallsBounded(ImageService(g))
  {
  }

  lemma ImageServiceUrlsWellFormed(g: Content.Generators)
    ensures ImageUrlsWellFormed(ImageService(g))
  {
  }

  /** A publish that returns no id leaves the publish gate open, so the
      next run tweets the article again; one that returns a non-empty id
      settles it: no gate is open, and a later pass over the stored record
      makes no call and changes nothing (lines 146-170). */
  lemma PublishSettles(a: Article, sv: Services, n: nat, m: nat)
    ensures var r := ProcessArticle(a, sv, n);
      var b := r.article;
      r.tweet.Some? && r.error.None? ==>
        && (!HasTweetId(b) ==> NeedsPublish(b))
        && (HasTweetId(b) ==>
              && !Pending(b)
              && ProcessArticle(b, sv, m) == ArticleRun(b, [], None, false, None))
  {
  }

  /** Over a well-behaved post service, a post the loop stores in place of
      none (lines 119-121) is normalised and at most 280 characters. */
  lemma StoredPostWellFormed(a: Article, sv: Services, n: nat)
    requires PostsWellBehaved(sv.post)
    ensures var b := ProcessArticle(a, sv, n).article;
      NeedsPost(a) ==> Text.Normalized(b.post) && |b.post| <= Content.MaxTweet
  {
    StageOrder(a, sv, n);
  }

  /** Over well-behaved services, one pass asks the image model at most
      three times (lines 54-100 run at most once per pass). */
  lemma PassImageCalls(a: Article, sv: Services, n: nat)
    requires PostsWellBehaved(sv.post) && ImagesWellBehaved(sv.image)
    ensures Content.CountImageCalls(ProcessArticle(a, sv, n).generated) <= Content.MaxImageAttempts
  {
    var r := ProcessArticle(a, sv, n);
    var b := r.article;
    StageOrder(a, sv, n);
    var afterPost := a.(post := b.post);
    var m := n + (if NeedsPost(a) then 1 else 0);
    var pre := if NeedsPost(a) then [sv.post(a.title, a.content, n).call] else [];
    var img := if NeedsImage(afterPost) then sv.image(b.post, m).calls else [];
    Content.CountImageCallsAppend(pre, img);
    if NeedsPost(a) {
      Content.CountImageCallsCons(pre[0], []);
    }
  }

  /** Over a well-behaved image service, image URLs stored in place of none
      (lines 128-133) are stripped HTTP(S) URLs. */
  lemma StoredImagesWellFormed(a: Article, sv: Services, n: nat)
    requires ImagesWellBehaved(sv.image)
    ensures var b := ProcessArticle(a, sv, n).article;
      a.imageUrls == [] ==> forall u :: u in b.imageUrls ==> Content.IsHttpUrl(u) && Text.IsStripped(u)
  {
    StageOrder(a, sv, n);
  }

  /** Over the real composition, the tweet is the post composed with the
      article URL (lines 148-166): it ends with the stripped URL, stays
      within the 280-character budget whenever the URL alone does, and its
      image is the first image URL. */
  lemma ComposedTweet(a: Article, sv: Services, n: nat)
    requires forall post, url :: sv.compose(post, url) == Compose.ComposeTweet(post, url)
    ensures var r := ProcessArticle(a, sv, n);
      var b := r.article;
      var url := Text.Strip(b.url);
      r.tweet.Some? ==>
        && r.tweet.value.text == Compose.ComposeTweet(b.post, b.url)
        && r.tweet.value.imageUrl == b.imageUrls[0]
        && (url != "" ==> Text.EndsWith(r.tweet.value.text, url))
        && (url != "" && |url| <= Content.MaxTweet ==> |r.tweet.value.text| <= Content.MaxTweet)
  {
    var r := ProcessArticle(a, sv, n);
    PublishGate(a, sv, n);
    Compose.ComposeTweetBudget(r.article.post, r.article.url);
  }

  lemma ImplementedComposes(o: Oracles)
    ensures forall post, url :: Implemented(o).compose(post, url) == Compose.ComposeTweet(post, url)
  {
  }

  /** Article `j` is done: its record, its calls and whether it counted as
      modified are those of the body run on its record as loaded, from the
      call number stored for it, and that run raised nothing. */
  predicate Ran(init: seq<Article>, p: Progress, j: nat, body: (Article, nat) -> ArticleRun)
    requires j < |init| == |p.articles| == |p.log| == |p.starts| == |p.touched|
  {
    var run := body(init[j], p.starts[j]);
    && p.articles[j] == run.article
    && p.log[j] == Calls(run)
    && p.touched[j] == run.touched
    && run.error.None?
  }

  /** Once the first `k` articles are done, each of them holds what the
      body made of it, URLs have not changed, and the later articles are
      as loaded. */
  predicate Framed(init: seq<Article>, p: Progress, k: nat, body: (Article, nat) -> ArticleRun) {
    && k <= |init|
    && |p.articles| == |p.log| == |p.starts| == |p.touched| == |init|
    && (forall j :: 0 <= j < |init| ==> p.articles[j].url == init[j].url)
    && (forall j :: 0 <= j < k ==> Ran(init, p, j, body))
    && (forall j :: k <= j < |init| ==> p.articles[j] == init[j] && p.log[j] == [] && !p.touched[j])
  }

  /** Collaborator calls are numbered in order across the run: the first
      article starts at 0, each next one where the previous left off, and
      `count` is where the next article starts. */
  predicate Numbered(p: Progress, k: nat)
    requires k <= |p.log| == |p.starts|
  {
    && (forall j :: 0 < j < k ==> p.starts[j] == p.starts[j - 1] + |p.log[j - 1]|)
    && (0 < k ==> p.starts[0] == 0)
    && p.count == (if k == 0 then 0 else p.starts[k - 1] + |p.log[k - 1]|)
  }

  /** `changed_articles` lists, in increasing order, articles among the
      first `k` that counted as modified and have a non-empty URL, each
      the first modified article with its URL; `changed_urls` holds
      exactly their URLs. */
  predicate Listed(init: seq<Article>, touched: seq<bool>, changed: seq<nat>, urls: set<string>, k: nat) {
    && k <= |init| == |touched|
    && (forall m :: 0 <= m < |changed| ==>
          && changed[m] < k && touched[changed[m]]
          && init[changed[m]].url != "" && init[changed[m]].url in urls)
    && (forall m, m' :: 0 <= m < m' < |changed| ==> changed[m] < changed[m'])
    && (forall m, j :: 0 <= m < |changed| && 0 <= j < changed[m] && touched[j] ==>
          init[j].url != init[changed[m]].url)
    && (forall u :: u in urls ==> exists m :: 0 <= m < |changed| && init[changed[m]].url == u)
  }

  /** Every article among the first `k` that counted as modified and has a
      non-empty URL has its URL in `changed_urls`. */
  predicate Complete(init: seq<Article>, touched: seq<bool>, urls: set<string>, k: nat) {
    && k <= |init| == |touched|
    && forall j :: 0 <= j < k && touched[j] && init[j].url != "" ==> init[j].url in urls
  }

  /** What the loop keeps true once the first `k` articles are done. */
  predicate Tracked(init: seq<Article>, p: Progress, k: nat, body: (Article, nat) -> ArticleRun) {
    && Framed(init, p, k, body)
    && Numbered(p, k)
    && Listed(init, p.touched, p.changed, p.changedUrls, k)
    && Complete(init, p.touched, p.changedUrls, k)
  }

  lemma StartTracked(init: seq<Article>, body: (Article, nat) -> ArticleRun)
    ensures Tracked(init, Start(init), 0, body)
  {
  }

  /** The body over any services is sound. */
  lemma BodySound(sv: Services)
    ensures Sound(Body(sv))
  {
    forall a, n
      ensures SoundAt(a, Body(sv)(a, n))
    {
      NeverOverwrites(a, sv, n);
      TouchedWhenChanged(a, sv, n);
      TouchedOnlyWhenPending(a, sv, n);
    }
  }

  /** One step keeps the tracking invariant. */
  lemma StepTracked(init: seq<Article>, p: Progress, k: nat, body: (Article, nat) -> ArticleRun)
    requires Sound(body)
    requires Tracked(init, p, k, body) && k < |init|
    ensures Step(p, k, body).Next? ==> Tracked(init, Step(p, k, body).p, k + 1, body)
  {
    var a := p.articles[k];
    var run := body(a, p.count);
    assert a == init[k];
    assert SoundAt(a, run);
    if run.error.None? {
      assert Step(p, k, body).p == Record(p, k, run.article, Calls(run), run.touched);
      RecordTracked(init, p, k, body);
    }
  }

  /** Recording the body's run on article `k` extends the invariant to it. */
  lemma RecordTracked(init: seq<Article>, p: Progress, k: nat, body: (Article, nat) -> ArticleRun)
    requires Tracked(init, p, k, body) && k < |init|
    requires SoundAt(init[k], body(init[k], p.count)) && body(init[k], p.count).error.None?
    ensures var run := body(init[k], p.count);
      Tracked(init, Record(p, k, run.article, Calls(run), run.touched), k + 1, body)
  {
    var run := body(init[k], p.count);
    var q := Record(p, k, run.article, Calls(run), run.touched);
    RecordFramed(init, p, k, body);
    RecordNumbered(p, k, run.article, Calls(run), run.touched);
    assert p.articles[k] == init[k];
    ListedStep(init, p.touched, p.changed, p.changedUrls, k, run.touched);
    assert q.touched == p.touched[k := run.touched];
  }

  lemma RecordFramed(init: seq<Article>, p: Progress, k: nat, body: (Article, nat) -> ArticleRun)
    requires Framed(init, p, k, body) && k < |init|
    requires SoundAt(init[k], body(init[k], p.count)) && body(init[k], p.count).error.None?
    ensures var run := body(init[k], p.count);
      Framed(init, Record(p, k, run.article, Calls(run), run.touched), k + 1, body)
  {
    var run := body(init[k], p.count);
    var q := Record(p, k, run.article, Calls(run), run.touched);
    forall j | 0 <= j < k + 1
      ensures Ran(init, q, j, body)
    {
      if j < k {
        assert Ran(init, p, j, body);
        assert q.starts[j] == p.starts[j];
      } else {
        assert q.starts[k] == p.count;
      }
    }
  }

  lemma RecordNumbered(p: Progress, k: nat, b: Article, calls: seq<Call>, touched: bool)
    requires k < |p.articles| == |p.log| == |p.starts| == |p.touched|
    requires Numbered(p, k)
    ensures Numbered(Record(p, k, b, calls, touched), k + 1)
  {
    var q := Record(p, k, b, calls, touched);
    forall j | 0 < j < k + 1
      ensures q.starts[j] == q.starts[j - 1] + |q.log[j - 1]|
    {
      if j < k {
        assert q.starts[j] == p.starts[j] && q.starts[j - 1] == p.starts[j - 1];
      }
    }
  }

  /** One more article: when it counted as modified, has a non-empty URL
      and that URL is not yet listed, it is appended; either way the list
      stays exact for the first `k + 1` articles. */
  lemma ListedStep(init: seq<Article>, t: seq<bool>, changed: seq<nat>, urls: set<string>, k: nat, mark: bool)
    requires k < |init| == |t|
    requires Listed(init, t, changed, urls, k) && Complete(init, t, urls, k)
    ensures var key := init[k].url;
      var add := mark && key != "" && key !in urls;
      var c' := if add then changed + [k] else changed;
      var u' := if add then urls + {key} else urls;
      Listed(init, t[k := mark], c', u', k + 1) && Complete(init, t[k := mark], u', k + 1)
  {
    var key := init[k].url;
    if mark && key != "" && key !in urls {
      ListedAppend(init, t, changed, urls, k);
    } else {
      ListedKeep(init, t, changed, urls, k, mark);
    }
  }

  lemma ListedKeep(init: seq<Article>, t: seq<bool>, changed: seq<nat>, urls: set<string>, k: nat, mark: bool)
    requires k < |init| == |t|
    requires Listed(init, t, changed, urls, k) && Complete(init, t, urls, k)
    requires !(mark && init[k].url != "" && init[k].url !in urls)
    ensures Listed(init, t[k := mark], changed, urls, k + 1) && Complete(init, t[k := mark], urls, k + 1)
  {
    var t' := t[k := mark];
    forall m | 0 <= m < |changed|
      ensures changed[m] < k + 1 && t'[changed[m]]
    {
      assert changed[m] < k;
    }
    forall m, j | 0 <= m < |changed| && 0 <= j < changed[m] && t'[j]
      ensures init[j].url != init[changed[m]].url
    {
      assert changed[m] < k && t[j];
    }
    forall j | 0 <= j < k + 1 && t'[j] && init[j].url != ""
      ensures init[j].url in urls
    {
      if j < k {
        assert t[j];
      }
    }
  }

  lemma ListedAppend(init: seq<Article>, t: seq<bool>, changed: seq<nat>, urls: set<string>, k: nat)
    requires k < |init| == |t|
    requires Listed(init, t, changed, urls, k) && Complete(init, t, urls, k)
    requires init[k].url != "" && init[k].url !in urls
    ensures var t' := t[k := true];
      Listed(init, t', changed + [k], urls + {init[k].url}, k + 1)
      && Complete(init, t', urls + {init[k].url}, k + 1)
  {
    var t' := t[k := true];
    var c := changed + [k];
    var key := init[k].url;
    forall m | 0 <= m < |c|
      ensures c[m] < k + 1 && t'[c[m]] && init[c[m]].url != "" && init[c[m]].url in urls + {key}
    {
      if m < |changed| {
        assert c[m] == changed[m];
      }
    }
    forall m, m' | 0 <= m < m' < |c|
      ensures c[m] < c[m']
    {
      assert c[m] == changed[m];
      if m' < |changed| {
        assert c[m'] == changed[m'];
      }
    }
    forall m, j | 0 <= m < |c| && 0 <= j < c[m] && t'[j]
      ensures init[j].url != init[c[m]].url
    {
      if m < |changed| {
        assert c[m] == changed[m];
      } else {
        assert c[m] == k && t[j];
      }
    }
    forall j | 0 <= j < k + 1 && t'[j] && init[j].url != ""
      ensures init[j].url in urls + {key}
    {
      if j < k {
        assert t[j];
      }
    }
    forall u | u in urls + {key}
      ensures exists m :: 0 <= m < |c| && init[c[m]].url == u
    {
      if u in urls {
        var m :| 0 <= m < |changed| && init[changed[m]].url == u;
        assert c[m] == changed[m];
      } else {
        assert c[|changed|] == k;
      }
    }
  }

  /** The end of a run. After the loop: the in-memory articles, the calls
      made for each article, the number of the first call made for each,
      whether each counted as modified, the indices of `changed_articles`
      and the records `update_article` is given, in that order. Or the
      exception that escaped `post_tweet_with_image` while article `at` was
      processed, in which case nothing is written, with the same record of
      the articles up to it. */
  datatype RunOutcome =
    | Completed(articles: seq<Article>, log: seq<seq<Call>>, starts: seq<nat>, touched: seq<bool>,
                changed: seq<nat>, writes: seq<Article>)
    | Aborted(error: Publisher.PublishError, at: nat,
              articles: seq<Article>, log: seq<seq<Call>>, starts: seq<nat>, touched: seq<bool>)

  /** `changed_articles` holds the article dicts themselves, so what is
      written is each listed article's record as the loop left it. */
  function WriteBack(articles: seq<Article>, changed: seq<nat>): (ws: seq<Article>)
    requires forall m :: 0 <= m < |changed| ==> changed[m] < |articles|
    ensures |ws| == |changed|
    ensures forall m :: 0 <= m < |changed| ==> ws[m] == articles[changed[m]]
  {
    seq(|changed|, m requires 0 <= m < |changed| => articles[changed[m]])
  }

  /** `main` after `refresh_articles_from_web` and `get_all_articles`
      (lines 112-186), over the records as loaded. Every article the loop
      went through is as the loop body made it from its loaded record, with
      the calls that body made, numbered consecutively across the run, and
      its body run raised nothing. The run is aborted exactly when some body
      run raises: at the first such article, with that run's exception and
      calls; the articles after it are left as loaded and make no call. */
  function RunWith(init: seq<Article>, sv: Services): (r: RunOutcome)
    ensures |r.articles| == |r.log| == |r.starts| == |r.touched| == |init|
    ensures r.Aborted? ==> r.at < |init|
    ensures forall i :: 0 <= i < |init| && (r.Completed? || i < r.at) ==>
      RanAs(init[i], sv, r.starts[i], r.articles[i], r.log[i], r.touched[i])
    ensures r.Aborted? ==>
      var run := ProcessArticle(init[r.at], sv, r.starts[r.at]);
      && r.articles[r.at] == run.article
      && r.log[r.at] == Calls(run)
      && run.error == Some(r.error)
    ensures r.Aborted? ==> forall j :: r.at < j < |init| ==> r.articles[j] == init[j] && r.log[j] == []
    ensures r.Aborted? ==> forall j :: r.at <= j < |init| ==> !r.touched[j]
    ensures 0 < |init| ==> r.starts[0] == 0
    ensures forall i :: 0 < i < |init| && (r.Completed? || i <= r.at) ==>
      r.starts[i] == r.starts[i - 1] + |r.log[i - 1]|
    ensures r.Completed? ==> |r.writes| == |r.changed|
  {
    BodySound(sv);
    StartTracked(init, Body(sv));
    match LoopFrom(init, Start(init), Body(sv), 0)
    case Abort(e, k, p) => Halted(init, sv, e, k, p)
    case Next(p) => Finished(init, sv, p)
  }

  /** The completed run, in the state `p` the loop ended in. */
  function Finished(init: seq<Article>, sv: Services, p: Progress): (r: RunOutcome)
    requires Tracked(init, p, |init|, Body(sv))
    ensures r.Completed? && r.articles == p.articles && r.touched == p.touched && r.changed == p.changed
    ensures |r.articles| == |r.log| == |r.starts| == |r.touched| == |init|
    ensures forall i :: 0 <= i < |init| ==>
      RanAs(init[i], sv, r.starts[i], r.articles[i], r.log[i], r.touched[i])
    ensures 0 < |init| ==> r.starts[0] == 0
    ensures forall i :: 0 < i < |init| ==> r.starts[i] == r.starts[i - 1] + |r.log[i - 1]|
    ensures |r.writes| == |r.changed|
  {
    FinishedRuns(init, p, sv, |init|);
    Completed(p.articles, p.log, p.starts, p.touched, p.changed, WriteBack(p.articles, p.changed))
  }

  /** Article record `b`, calls `calls` and the flag `touched` are what
      the loop body made of the loaded record `a` from call number `n`, and
      that body run raised nothing. */
  predicate RanAs(a: Article, sv: Services, n: nat, b: Article, calls: seq<Call>, touched: bool) {
    var run := ProcessArticle(a, sv, n);
    && b == run.article
    && calls == Calls(run)
    && touched == run.touched
    && run.error.None?
  }

  /** The aborted run: the loop stopped at article `k`, whose body run
      raised `e`, in the state `p` reached before it. */
  function Halted(init: seq<Article>, sv: Services, e: Publisher.PublishError, k: nat, p: Progress): (r: RunOutcome)
    requires k < |init| && Framed(init, p, k, Body(sv)) && Numbered(p, k)
    requires ProcessArticle(init[k], sv, p.count).error == Some(e)
    ensures r.Aborted? && r.at == k && r.error == e
    ensures |r.articles| == |r.log| == |r.starts| == |r.touched| == |init|
    ensures forall i :: 0 <= i < k ==>
      RanAs(init[i], sv, r.starts[i], r.articles[i], r.log[i], r.touched[i])
    ensures var run := ProcessArticle(init[k], sv, r.starts[k]);
      && r.articles[k] == run.article
      && r.log[k] == Calls(run)
      && run.error == Some(e)
    ensures forall j :: k < j < |init| ==> r.articles[j] == init[j] && r.log[j] == []
    ensures forall j :: k <= j < |init| ==> !r.touched[j]
    ensures 0 < |init| ==> r.starts[0] == 0
    ensures forall i :: 0 < i <= k ==> r.starts[i] == r.starts[i - 1] + |r.log[i - 1]|
  {
    FinishedRuns(init, p, sv, k);
    var run := ProcessArticle(init[k], sv, p.count);
    Aborted(e, k, p.articles[k := run.article], p.log[k := Calls(run)], p.starts[k := p.count], p.touched)
  }

  /** A loop over the body that has gone through the first `k` articles
      holds, for each of them, the run of `ProcessArticle` from the call
      number recorded for it; the calls are numbered from 0 on, and the
      later articles are as loaded, with no call and not modified. */
  lemma FinishedRuns(init: seq<Article>, p: Progress, sv: Services, k: nat)
    requires Framed(init, p, k, Body(sv)) && Numbered(p, k)
    ensures forall i :: 0 <= i < k ==>
      RanAs(init[i], sv, p.starts[i], p.articles[i], p.log[i], p.touched[i])
    ensures forall j :: k <= j < |init| ==> p.articles[j] == init[j] && p.log[j] == [] && !p.touched[j]
    ensures forall i :: 0 < i < k ==> p.starts[i] == p.starts[i - 1] + |p.log[i - 1]|
    ensures 0 < k ==> p.starts[0] == 0
    ensures p.count == (if k == 0 then 0 else p.starts[k - 1] + |p.log[k - 1]|)
  {
    forall i | 0 <= i < k
      ensures RanAs(init[i], sv, p.starts[i], p.articles[i], p.log[i], p.touched[i])
    {
      assert Ran(init, p, i, Body(sv));
    }
  }

  /** The run over the real services. When no article is pending it goes
      through every article and writes nothing back. */
  function Run(init: seq<Article>, o: Oracles): (r: RunOutcome)
    ensures |r.log| == |init|
    ensures (forall i :: 0 <= i < |init| ==> !Pending(init[i])) ==>
      r.Completed? && r.articles == init && r.writes == []
  {
    IdleRun(init, Implemented(o));
    RunWith(init, Implemented(o))
  }

  /** The write-back (lines 123-126, 136-139, 171-174, 180-183): an
      article is written exactly when it counted as modified, its URL is
      non-empty, and no earlier article that counted as modified has the
      same URL; writes come in article order, one per URL, each the record
      as the loop left it. Only articles some gate let in are written, and
      every article whose record changed counted as modified. */
  lemma RunWriteBack(init: seq<Article>, sv: Services)
    ensures var r := RunWith(init, sv);
      r.Completed? ==>
        && (forall j :: 0 <= j < |r.writes| ==>
              r.changed[j] < |init| && r.writes[j] == r.articles[r.changed[j]])
        && (forall j, j' :: 0 <= j < j' < |r.writes| ==>
              r.changed[j] < r.changed[j'] && r.writes[j].url != r.writes[j'].url)
        && (forall i :: 0 <= i < |init| ==>
              ((exists j :: 0 <= j < |r.changed| && r.changed[j] == i)
               <==> FirstModified(init, r.touched, i)))
        && (forall i :: 0 <= i < |init| && r.touched[i] ==> Pending(init[i]))
        && (forall i :: 0 <= i < |init| && r.articles[i] != init[i] ==> r.touched[i])
  {
    BodySound(sv);
    StartTracked(init, Body(sv));
    var o := LoopFrom(init, Start(init), Body(sv), 0);
    if o.Next? {
      var r := RunWith(init, sv);
      assert r == Completed(o.p.articles, o.p.log, o.p.starts, o.p.touched, o.p.changed,
                            WriteBack(o.p.articles, o.p.changed));
      WrittenOnce(init, o.p, Body(sv));
      ListedExactly(init, o.p.touched, o.p.changed, o.p.changedUrls);
      forall i | 0 <= i < |init|
        ensures r.touched[i] ==> Pending(init[i])
        ensures r.articles[i] != init[i] ==> r.touched[i]
      {
        assert Ran(init, o.p, i, Body(sv));
        assert SoundAt(init[i], Body(sv)(init[i], o.p.starts[i]));
      }
    }
  }

  /** Article `i` counted as modified, has a non-empty URL, and is the
      first article that counted as modified with that URL. */
  predicate FirstModified(init: seq<Article>, touched: seq<bool>, i: nat)
    requires i < |init| == |touched|
  {
    && touched[i] && init[i].url != ""
    && forall j :: 0 <= j < i && touched[j] ==> init[j].url != init[i].url
  }

  /** The write-back of a finished loop lists distinct URLs in increasing
      article order, each the record as the loop left it. */
  lemma WrittenOnce(init: seq<Article>, p: Progress, body: (Article, nat) -> ArticleRun)
    requires Tracked(init, p, |init|, body)
    ensures var ws := WriteBack(p.articles, p.changed);
      && (forall j :: 0 <= j < |ws| ==> p.changed[j] < |init| && ws[j] == p.articles[p.changed[j]])
      && (forall j, j' :: 0 <= j < j' < |ws| ==>
            p.changed[j] < p.changed[j'] && ws[j].url != ws[j'].url)
  {
    var ws := WriteBack(p.articles, p.changed);
    forall j, j' | 0 <= j < j' < |ws|
      ensures p.changed[j] < p.changed[j'] && ws[j].url != ws[j'].url
    {
      assert p.touched[p.changed[j]];
    }
  }

  /** A finished list holds exactly the first modified article of each
      non-empty URL. */
  lemma ListedExactly(init: seq<Article>, t: seq<bool>, changed: seq<nat>, urls: set<string>)
    requires Listed(init, t, changed, urls, |init|) && Complete(init, t, urls, |init|)
    ensures forall i :: 0 <= i < |init| ==>
      ((exists j :: 0 <= j < |changed| && changed[j] == i) <==> FirstModified(init, t, i))
  {
    forall i | 0 <= i < |init|
      ensures (exists j :: 0 <= j < |changed| && changed[j] == i) <==> FirstModified(init, t, i)
    {
      if FirstModified(init, t, i) {
        var m :| 0 <= m < |changed| && init[changed[m]].url == init[i].url;
        assert t[changed[m]] && t[i];
        assert changed[m] == i;
      }
    }
  }

  /** An article no gate lets in goes through the loop body untouched:
      no call, no change, no exception (lines 119, 129, 142). */
  lemma IdleArticle(a: Article, sv: Services, n: nat)
    ensures !Pending(a) ==> ProcessArticle(a, sv, n) == ArticleRun(a, [], None, false, None)
  {
  }

  /** An article loaded with a truthy tweet id is never published and
      keeps its id, its post and its image URLs when it had them, whether
      the run completes or not; an article no gate let in is left exactly
      as loaded, makes no call and is not counted as modified. A run is
      only ever aborted at a pending article without a tweet id. */
  lemma RunKeepsSettled(init: seq<Article>, sv: Services)
    ensures var r := RunWith(init, sv);
      && (forall i :: 0 <= i < |init| ==>
            && (HasTweetId(init[i]) ==>
                  && (forall c :: c in r.log[i] ==> c.Generate?)
                  && r.articles[i].tweetId == init[i].tweetId
                  && (init[i].post != "" ==> r.articles[i].post == init[i].post)
                  && (init[i].imageUrls != [] ==> r.articles[i].imageUrls == init[i].imageUrls))
            && (!Pending(init[i]) ==> r.articles[i] == init[i] && r.log[i] == [] && !r.touched[i]))
      && (r.Aborted? ==> Pending(init[r.at]) && !HasTweetId(init[r.at]))
  {
    var r := RunWith(init, sv);
    forall i | 0 <= i < |init|
      ensures HasTweetId(init[i]) ==>
              && (forall c :: c in r.log[i] ==> c.Generate?)
              && r.articles[i].tweetId == init[i].tweetId
              && (init[i].post != "" ==> r.articles[i].post == init[i].post)
              && (init[i].imageUrls != [] ==> r.articles[i].imageUrls == init[i].imageUrls)
      ensures !Pending(init[i]) ==> r.articles[i] == init[i] && r.log[i] == [] && !r.touched[i]
    {
      var a := init[i];
      NeverOverwrites(a, sv, r.starts[i]);
      PublishGate(a, sv, r.starts[i]);
      IdleArticle(a, sv, r.starts[i]);
    }
    if r.Aborted? {
      NeverOverwrites(init[r.at], sv, r.starts[r.at]);
      IdleArticle(init[r.at], sv, r.starts[r.at]);
    }
  }

  /** Whether a run completes is decided by the body runs: it completes
      exactly when no article's body run raises, so in particular whenever
      every publish succeeds. */
  lemma RunCompletes(init: seq<Article>, sv: Services)
    ensures var r := RunWith(init, sv);
      && (r.Completed? <==>
            forall i :: 0 <= i < |init| ==> ProcessArticle(init[i], sv, r.starts[i]).error.None?)
      && ((forall t, u, m :: sv.publish(t, u, m).Ok?) ==> r.Completed?)
  {
    var r := RunWith(init, sv);
    if r.Aborted? {
      PublishGate(init[r.at], sv, r.starts[r.at]);
    }
  }

  /** A body run that raises ends with its publish (lines 146-178): the
      last call it makes is the tweet, numbered after its generator calls,
      and the publish service answered it with that exception; the article
      then had a post, image URLs and no tweet id. */
  lemma RaisesAtPublish(a: Article, sv: Services, n: nat)
    ensures var run := ProcessArticle(a, sv, n);
      var calls := Calls(run);
      run.error.Some? ==>
        && |calls| > 0
        && calls[|calls| - 1].Publish?
        && sv.publish(calls[|calls| - 1].text, calls[|calls| - 1].imageUrl, n + |calls| - 1)
           == Err(run.error.value)
        && NeedsPublish(run.article)
  {
    var run := ProcessArticle(a, sv, n);
    PublishGate(a, sv, n);
    NeverOverwrites(a, sv, n);
    if run.tweet.Some? {
      var calls := Calls(run);
      assert calls[|calls| - 1] == Publish(run.tweet.value.text, run.tweet.value.imageUrl);
    }
  }

  /** An aborted run stops at a publish: the last call logged for the
      failing article is its tweet, made with the call number after its
      generator calls, and the publish service answered it with the run's
      exception; that article had a post, image URLs and no tweet id when
      it got there. */
  lemma RunAbortsAtPublish(init: seq<Article>, sv: Services)
    ensures var r := RunWith(init, sv);
      r.Aborted? ==>
        var calls := r.log[r.at];
        && |calls| > 0
        && calls[|calls| - 1].Publish?
        && sv.publish(calls[|calls| - 1].text, calls[|calls| - 1].imageUrl, r.starts[r.at] + |calls| - 1)
           == Err(r.error)
        && NeedsPublish(r.articles[r.at])
  {
    var r := RunWith(init, sv);
    if r.Aborted? {
      RaisesAtPublish(init[r.at], sv, r.starts[r.at]);
    }
  }

  /** A run over records none of which is pending goes through every
      article, changes none and writes nothing back. */
  lemma IdleRun(init: seq<Article>, sv: Services)
    ensures var r := RunWith(init, sv);
      (forall i :: 0 <= i < |init| ==> !Pending(init[i])) ==>
        r.Completed? && r.articles == init && r.writes == []
  {
    var r := RunWith(init, sv);
    if forall i :: 0 <= i < |init| ==> !Pending(init[i]) {
      forall i | 0 <= i < |init|
        ensures ProcessArticle(init[i], sv, r.starts[i]) == ArticleRun(init[i], [], None, false, None)
      {
        IdleArticle(init[i], sv, r.starts[i]);
      }
      RunWriteBack(init, sv);
      if r.Completed? {
        NothingListed(r.changed, r.touched);
      }
    }
  }

  /** A list of indices of modified articles is empty when no article is
      modified. */
  lemma NothingListed(changed: seq<nat>, touched: seq<bool>)
    requires forall j :: 0 <= j < |changed| ==> changed[j] < |touched| && touched[changed[j]]
    ensures (forall i :: 0 <= i < |touched| ==> !touched[i]) ==> changed == []
  {
    if changed != [] {
      assert touched[changed[0]];
    }
  }
}
