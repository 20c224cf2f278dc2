/** The tweet composition of `main` in `main.py`: the post followed by a
    space and the article URL, with the post cut so that the whole stays
    within 280 characters, and the URL never cut. */
module Compose {
  import Text
  import opened Content

  const Sep: string := " "

  /** The part of the post kept beside a URL of length `urlLen`: the whole
      post when post, space and URL fit; otherwise, with `allowed` the room
      left for the post, its first `allowed - 3` characters and "..." when
      `allowed > 3`, its first `allowed` characters when `allowed > 0`, and
      nothing else. */
  function TrimmedPost(post: string, urlLen: nat): (text: string)
    ensures |text| <= |post| + |Ellipsis|
    ensures |post| + |Sep| + urlLen <= MaxTweet ==> text == post
    ensures |post| + |Sep| + urlLen > MaxTweet ==>
      && ((|text| <= |post| && text == post[..|text|])
          || (3 < |text| <= |post| + 3 && text == post[..|text| - 3] + Ellipsis))
      && (urlLen + |Sep| < MaxTweet ==> |text| + |Sep| + urlLen == MaxTweet)
      && (urlLen + |Sep| >= MaxTweet ==> text == "")
  {
    if |post| + |Sep| + urlLen > MaxTweet then
      var allowed: int := MaxTweet - |Sep| - urlLen;
      if allowed > 3 then post[..allowed - 3] + Ellipsis
      else if allowed > 0 then post[..allowed]
      else ""
    else post
  }

  /** The tweet text for a post and the article's `url` field (`None`
      reads as the empty string): the stripped URL appended after a space,
      or after nothing when the trimmed post is empty; the post alone when
      the stripped URL is empty. */
  function ComposeTweet(post: string, rawUrl: string): (tweet: string)
    ensures Text.Strip(rawUrl) == "" ==> tweet == post
    ensures Text.Strip(rawUrl) != "" ==> Text.EndsWith(tweet, Text.Strip(rawUrl))
  {
    var url := Text.Strip(rawUrl);
    if url == "" then post
    else
      var text := TrimmedPost(post, |url|);
      if text != "" then text + Sep + url else url
  }

  /** The budget: with a non-empty URL the tweet is the URL alone or some
      text, a space and the URL, never longer than 280 characters unless the
      URL alone is; a post that fits is kept whole. */
  lemma ComposeTweetBudget(post: string, rawUrl: string)
    ensures var url := Text.Strip(rawUrl);
      var tweet := ComposeTweet(post, rawUrl);
      url != "" ==>
        && (tweet == url || exists t :: t != "" && tweet == t + " " + url)
        && |tweet| <= (if |url| > MaxTweet then |url| else MaxTweet)
        && (post != "" && |post| + 1 + |url| <= MaxTweet ==> tweet == post + " " + url)
        && (post == "" ==> tweet == url)
  {
    var url := Text.Strip(rawUrl);
    if url != "" {
      var text := TrimmedPost(post, |url|);
      if text != "" {
        assert ComposeTweet(post, rawUrl) == text + " " + url;
      }
    }
  }

  /** An over-long post with more than three characters of room is cut to a
      prefix of itself followed by "...", and the tweet is then exactly 280
      characters; with one to three characters of room the prefix goes
      without "...", again filling 280 characters. */
  lemma ComposeTweetTruncates(post: string, rawUrl: string)
    ensures var url := Text.Strip(rawUrl);
      var tweet := ComposeTweet(post, rawUrl);
      var allowed := MaxTweet - 1 - |url|;
      url != "" && |post| + 1 + |url| > MaxTweet ==>
        && (allowed > 3 ==>
              && tweet == post[..allowed - 3] + "..." + " " + url
              && |tweet| == MaxTweet)
        && (0 < allowed <= 3 ==>
              && tweet == post[..allowed] + " " + url
              && |tweet| == MaxTweet)
        && (allowed <= 0 ==> tweet == url)
  {
    var url := Text.Strip(rawUrl);
    var allowed := MaxTweet - 1 - |url|;
    if url != "" && |post| + 1 + |url| > MaxTweet {
      var text := TrimmedPost(post, |url|);
      if allowed > 3 {
        assert text == post[..allowed - 3] + Ellipsis;
      } else if allowed > 0 {
        assert text == post[..allowed];
      } else {
        assert text == "";
      }
      assert ComposeTweet(post, rawUrl) == if text != "" then text + Sep + url else url;
    }
  }

  /** When the URL leaves no room (279 characters or more), the tweet is
      the URL alone, whatever the post. */
  lemma ComposeTweetLongUrl(post: string, rawUrl: string)
    requires |Text.Strip(rawUrl)| >= MaxTweet - 1
    ensures ComposeTweet(post, rawUrl) == Text.Strip(rawUrl)
  {
    ComposeTweetTruncates(post, rawUrl);
  }
}
