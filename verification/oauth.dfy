/** `build_oauth_header`: OAuth 1.0a HMAC-SHA1 request signing as laid down
    in RFC 5849 (The OAuth 1.0 Protocol). The nonce bytes, the clock reading,
    HMAC-SHA1 and Base64 are parameters. */
module OAuth {
  import opened Wrappers
  import opened Utf8
  import Text
  import Percent
  import Sorting

  /** A Python dict of string keys and values, in insertion order. */
  type Params = seq<(string, string)>

  predicate DistinctKeys(ps: Params) {
    forall i, j :: 0 <= i < j < |ps| ==> ps[i].0 != ps[j].0
  }

  function Keys(ps: Params): set<string> {
    set i | 0 <= i < |ps| :: ps[i].0
  }

  lemma KeysCons(ps: Params)
    requires |ps| > 0
    ensures Keys(ps) == {ps[0].0} + Keys(ps[1..])
    ensures DistinctKeys(ps) ==> DistinctKeys(ps[1..]) && ps[0].0 !in Keys(ps[1..])
  {
    assert forall i :: 0 < i < |ps| ==> ps[i].0 == ps[1..][i - 1].0;
    assert forall x :: x in Keys(ps[1..]) ==> x in Keys(ps) by {
      forall x | x in Keys(ps[1..]) ensures x in Keys(ps) {
        var i :| 0 <= i < |ps[1..]| && ps[1..][i].0 == x;
        assert ps[i + 1].0 == x;
      }
    }
  }

  lemma KeysPrepend(p: (string, string), ps: Params)
    ensures Keys([p] + ps) == {p.0} + Keys(ps)
    ensures DistinctKeys(ps) && p.0 !in Keys(ps) ==> DistinctKeys([p] + ps)
  {
    var r := [p] + ps;
    assert r[1..] == ps;
    KeysCons(r);
    if DistinctKeys(ps) && p.0 !in Keys(ps) {
      forall i, j | 0 <= i < j < |r| ensures r[i].0 != r[j].0 {
        if i == 0 {
          assert r[j].0 == ps[j - 1].0;
        } else {
          assert r[i].0 == ps[i - 1].0 && r[j].0 == ps[j - 1].0;
        }
      }
    }
  }

  /** `d.get(k)` */
  function Get(ps: Params, k: string): (r: Option<string>)
    ensures r.Some? <==> k in Keys(ps)
  {
    if |ps| == 0 then None
    else
      KeysCons(ps);
      if ps[0].0 == k then Some(ps[0].1) else Get(ps[1..], k)
  }

  /** In a dict, the value found for the key at position `i` is the value
      stored there. */
  lemma {:induction false} GetAt(ps: Params, i: nat)
    requires DistinctKeys(ps) && i < |ps|
    ensures Get(ps, ps[i].0) == Some(ps[i].1)
  {
    if i > 0 {
      KeysCons(ps);
      assert ps[i].0 == ps[1..][i - 1].0;
      GetAt(ps[1..], i - 1);
    }
  }

  /** `d[k] = v`: overwrites the value of an existing key in place, or
      appends the pair at the end. */
  function Update(ps: Params, k: string, v: string): (r: Params)
    ensures Keys(r) == Keys(ps) + {k}
    ensures DistinctKeys(ps) ==> DistinctKeys(r)
    ensures k !in Keys(ps) ==> r == ps + [(k, v)]
  {
    if |ps| == 0 then
      KeysPrepend((k, v), []);
      [(k, v)]
    else
      KeysCons(ps);
      if ps[0].0 == k then
        KeysPrepend((k, v), ps[1..]);
        [(k, v)] + ps[1..]
      else
        var t := Update(ps[1..], k, v);
        KeysPrepend(ps[0], t);
        assert k !in Keys(ps) ==> [ps[0]] + t == ps + [(k, v)] by {
          if k !in Keys(ps) {
            assert ps == [ps[0]] + ps[1..];
          }
        }
        [ps[0]] + t
  }

  /** After `d[k] = v`, `k` maps to `v` and every other key is untouched. */
  lemma {:induction false} UpdateGet(ps: Params, k: string, v: string, k': string)
    ensures Get(Update(ps, k, v), k') == if k' == k then Some(v) else Get(ps, k')
    decreases |ps|
  {
    if |ps| > 0 && ps[0].0 != k {
      UpdateGet(ps[1..], k, v, k');
    }
  }

  /** `merged = {**base}; merged.update(extra)` */
  function Merge(base: Params, extra: Params): (r: Params)
    ensures Keys(r) == Keys(base) + Keys(extra)
    ensures DistinctKeys(base) ==> DistinctKeys(r)
    decreases |extra|
  {
    if |extra| == 0 then base
    else
      KeysCons(extra);
      Merge(Update(base, extra[0].0, extra[0].1), extra[1..])
  }

  /** In the merged dict a key of `extra` takes the value `extra` gives it;
      every other key keeps its value from `base`. */
  lemma {:induction false} MergeGet(base: Params, extra: Params, k: string)
    requires DistinctKeys(extra)
    ensures Get(Merge(base, extra), k) == if k in Keys(extra) then Get(extra, k) else Get(base, k)
    decreases |extra|
  {
    if |extra| > 0 {
      KeysCons(extra);
      var b' := Update(base, extra[0].0, extra[0].1);
      MergeGet(b', extra[1..], k);
      UpdateGet(base, extra[0].0, extra[0].1, k);
    }
  }

  /** The four secrets, loaded once at start-up. */
  datatype Credentials = Credentials(
    consumerKey: string,
    consumerSecret: string,
    accessToken: string,
    accessTokenSecret: string)

  /** HMAC-SHA1 (key, message) and Base64, the two library primitives of
      the signature. */
  datatype Crypto = Crypto(hmacSha1: (seq<byte>, seq<byte>) -> seq<byte>, base64: seq<byte> -> string)

  /** What one call draws from `secrets.token_hex(16)` and `time.time()`:
      the random nonce bytes and the clock reading, in whole seconds. */
  datatype Entropy = Entropy(nonce: seq<byte>, timestamp: nat)

  function LowerHexDigit(d: int): (c: char)
    requires 0 <= d < 16
    ensures Percent.Unreserved(c)
  {
    if d < 10 then ('0' as int + d) as char else ('a' as int + d - 10) as char
  }

  /** `bytes.hex()`: two lower-case hexadecimal digits per byte. */
  function HexLower(bs: seq<byte>): (r: string)
    ensures |r| == 2 * |bs|
    ensures forall i :: 0 <= i < |r| ==> Percent.Unreserved(r[i])
  {
    if |bs| == 0 then ""
    else [LowerHexDigit(bs[0] as int / 16), LowerHexDigit(bs[0] as int % 16)] + HexLower(bs[1..])
  }

  /** `str(n)` for a natural number. */
  function Decimal(n: nat): (r: string)
    ensures |r| > 0
    ensures forall i :: 0 <= i < |r| ==> '0' <= r[i] <= '9'
    ensures |r| > 1 ==> r[0] != '0'
  {
    if n < 10 then [('0' as int + n) as char]
    else Decimal(n / 10) + [('0' as int + n % 10) as char]
  }

  /** `int(s)` for a string of decimal digits. */
  function ParseDecimal(s: string): int
    requires forall i :: 0 <= i < |s| ==> '0' <= s[i] <= '9'
  {
    if |s| == 0 then 0 else ParseDecimal(s[..|s| - 1]) * 10 + (s[|s| - 1] as int - '0' as int)
  }

  /** The timestamp text reads back as the clock value it was made from. */
  lemma {:induction false} DecimalRoundTrip(n: nat)
    ensures ParseDecimal(Decimal(n)) == n
  {
    if n >= 10 {
      var r := Decimal(n);
      assert r[..|r| - 1] == Decimal(n / 10);
      DecimalRoundTrip(n / 10);
    }
  }

  const OAuthKeys: seq<string> := ["oauth_consumer_key", "oauth_nonce", "oauth_signature_method",
                                   "oauth_timestamp", "oauth_token", "oauth_version"]

  /** `oauth_params`, in the order the dict literal lists them. */
  function OAuthParams(creds: Credentials, entropy: Entropy): (ps: Params)
    ensures |ps| == 6
    ensures forall i :: 0 <= i < 6 ==> ps[i].0 == OAuthKeys[i]
    ensures DistinctKeys(ps)
    ensures Keys(ps) == set i | 0 <= i < 6 :: OAuthKeys[i]
  {
    [("oauth_consumer_key", creds.consumerKey),
     ("oauth_nonce", HexLower(entropy.nonce)),
     ("oauth_signature_method", "HMAC-SHA1"),
     ("oauth_timestamp", Decimal(entropy.timestamp)),
     ("oauth_token", creds.accessToken),
     ("oauth_version", "1.0")]
  }

  /** The `(percent_encode(k), percent_encode(v))` list. */
  function EncodeItems(ps: Params): (r: Params)
    ensures |r| == |ps|
  {
    if |ps| == 0 then []
    else [(Percent.Encode(ps[0].0), Percent.Encode(ps[0].1))] + EncodeItems(ps[1..])
  }

  /** `k=v` for each pair. */
  function KeyValues(ps: Params): seq<string> {
    if |ps| == 0 then [] else [ps[0].0 + "=" + ps[0].1] + KeyValues(ps[1..])
  }

  /** The normalized parameter string of section 3.4.1.3.2 of RFC 5849:
      encoded pairs sorted, then joined as `k=v` with "&". */
  function ParamString(all: Params): (r: string)
    ensures forall sorted :: Sorting.Sorted(sorted) && multiset(sorted) == multiset(EncodeItems(all)) ==>
      r == Text.Join(KeyValues(sorted), "&")
  {
    Sorting.SortIsUnique(EncodeItems(all));
    Text.Join(KeyValues(Sorting.Sort(EncodeItems(all))), "&")
  }

  /** The signature base string of section 3.4.1.1 of RFC 5849. With a
      method that contains no "&", it splits on "&" into exactly the
      upper-cased method, the encoded URL and the encoded parameter string,
      and the last two decode back to their inputs. */
  function BaseString(verb: string, url: string, paramString: string): (r: string)
    ensures '&' !in verb ==>
      Text.Split(r, '&') == [Text.Upper(verb), Percent.Encode(url), Percent.Encode(paramString)]
    ensures '&' !in verb ==>
      && Percent.Decode(Text.Split(r, '&')[1]) == Some(url)
      && Percent.Decode(Text.Split(r, '&')[2]) == Some(paramString)
  {
    var parts := [Text.Upper(verb), Percent.Encode(url), Percent.Encode(paramString)];
    Percent.EncodedHasNoDelimiters(url);
    Percent.EncodedHasNoDelimiters(paramString);
    Percent.DecodeEncode(url);
    Percent.DecodeEncode(paramString);
    if '&' in verb then Text.Join(parts, "&")
    else
      Text.UpperAvoids(verb, '&');
      Text.SplitJoin(parts, '&');
      Text.Join(parts, "&")
  }

  /** The HMAC-SHA1 key of section 3.4.2 of RFC 5849: it splits on "&"
      into the two encoded secrets, each of which decodes back to its
      secret. */
  function SigningKey(consumerSecret: string, tokenSecret: string): (r: string)
    ensures Text.Split(r, '&') == [Percent.Encode(consumerSecret), Percent.Encode(tokenSecret)]
    ensures Percent.Decode(Text.Split(r, '&')[0]) == Some(consumerSecret)
    ensures Percent.Decode(Text.Split(r, '&')[1]) == Some(tokenSecret)
  {
    var parts := [Percent.Encode(consumerSecret), Percent.Encode(tokenSecret)];
    Percent.EncodedHasNoDelimiters(consumerSecret);
    Percent.EncodedHasNoDelimiters(tokenSecret);
    Percent.DecodeEncode(consumerSecret);
    Percent.DecodeEncode(tokenSecret);
    Text.SplitJoin(parts, '&');
    Text.Join(parts, "&")
  }

  /** `oauth_signature`: Base64 of HMAC-SHA1 over the UTF-8 base string,
      keyed by the UTF-8 signing key. */
  function Signature(crypto: Crypto, key: string, base: string): string {
    crypto.base64(crypto.hmacSha1(Utf8.Encode(key), Utf8.Encode(base)))
  }

  /** `k="percent_encode(v)"` */
  function HeaderField(p: (string, string)): string {
    p.0 + "=\"" + Percent.Encode(p.1) + "\""
  }

  function HeaderFields(ps: Params): (r: seq<string>)
    ensures |r| == |ps|
    ensures forall i :: 0 <= i < |ps| ==> r[i] == HeaderField(ps[i])
  {
    if |ps| == 0 then [] else [HeaderField(ps[0])] + HeaderFields(ps[1..])
  }

  /** The Authorization header of section 3.5.1 of RFC 5849. Parsing it
      gives back exactly the pairs it was rendered from, in order, when
      there is at least one and no key holds "=" or ",". */
  function RenderHeader(ps: Params): (h: string)
    ensures Text.StartsWith(h, "OAuth ")
    ensures |ps| > 0 && (forall i :: 0 <= i < |ps| ==> PlainKey(ps[i].0)) ==>
      ParseHeader(h) == Some(ps)
  {
    HeaderParses(ps);
    "OAuth " + Text.Join(HeaderFields(ps), ", ")
  }

  /** Everything one call of `build_oauth_header` computes. */
  datatype Signed = Signed(
    oauthParams: Params,
    allParams: Params,
    paramString: string,
    baseString: string,
    signingKey: string,
    signature: string,
    header: string)

  /** `build_oauth_header(verb, url, ..., extra_params)`; an absent or
      empty `extra_params` is the empty list. */
  function BuildOAuth(verb: string, url: string, creds: Credentials, entropy: Entropy,
                      extra: Params, crypto: Crypto): (s: Signed)
    ensures s.oauthParams == OAuthParams(creds, entropy)
    ensures s.allParams == Merge(s.oauthParams, extra)
    ensures s.paramString == ParamString(s.allParams)
    ensures s.baseString == BaseString(verb, url, s.paramString)
    ensures s.signingKey == SigningKey(creds.consumerSecret, creds.accessTokenSecret)
    ensures s.signature == Signature(crypto, s.signingKey, s.baseString)
    ensures s.header == RenderHeader(s.oauthParams + [("oauth_signature", s.signature)])
    ensures Keys(s.allParams) == Keys(s.oauthParams) + Keys(extra)
    ensures Text.StartsWith(s.header, "OAuth ")
    ensures ParseHeader(s.header) == Some(OAuthParams(creds, entropy) + [("oauth_signature", s.signature)])
  {
    var oauth := OAuthParams(creds, entropy);
    var all := Merge(oauth, extra);
    var ps := ParamString(all);
    var base := BaseString(verb, url, ps);
    var key := SigningKey(creds.consumerSecret, creds.accessTokenSecret);
    var sig := Signature(crypto, key, base);
    SignatureAppended(creds, entropy, sig);
    OAuthHeaderRoundTrip(creds, entropy, sig);
    Signed(oauth, all, ps, base, key, sig, RenderHeader(Update(oauth, "oauth_signature", sig)))
  }

  /** `oauth_signature` is not among the six protocol keys, so storing the
      signature appends it after them. */
  lemma SignatureAppended(creds: Credentials, entropy: Entropy, sig: string)
    ensures var oauth := OAuthParams(creds, entropy);
      Update(oauth, "oauth_signature", sig) == oauth + [("oauth_signature", sig)]
  {
    assert "oauth_signature" !in Keys(OAuthParams(creds, entropy));
  }

  /** The header value `build_oauth_header` returns. */
  function AuthorizationHeader(verb: string, url: string, creds: Credentials, entropy: Entropy,
                               extra: Params, crypto: Crypto): string {
    BuildOAuth(verb, url, creds, entropy, extra, crypto).header
  }

  /** Reads one `k="v"` field back: the key up to the first "=", the value
      percent-decoded from between the quotes. */
  function ParseField(f: string): Option<(string, string)> {
    if '=' in f then
      var i := Text.IndexOf(f, '=');
      var rest := f[i + 1..];
      if |rest| >= 2 && rest[0] == '"' && rest[|rest| - 1] == '"' then
        match Percent.Decode(rest[1..|rest| - 1])
        case None => None
        case Some(v) => Some((f[..i], v))
      else None
    else None
  }

  /** The fields after the first, each preceded by the space of ", ". */
  function ParseFollowing(parts: seq<string>): Option<Params> {
    if |parts| == 0 then Some([])
    else if |parts[0]| > 0 && parts[0][0] == ' ' then
      match ParseField(parts[0][1..])
      case None => None
      case Some(p) =>
        match ParseFollowing(parts[1..])
        case None => None
        case Some(ps) => Some([p] + ps)
    else None
  }

  /** Reads an `OAuth k1="v1", k2="v2", ...` header back into its pairs. */
  function ParseHeader(h: string): Option<Params> {
    if Text.StartsWith(h, "OAuth ") then
      var parts := Text.Split(h[6..], ',');
      match ParseField(parts[0])
      case None => None
      case Some(p) =>
        match ParseFollowing(parts[1..])
        case None => None
        case Some(ps) => Some([p] + ps)
    else None
  }

  /** A key that can stand in a header field unencoded. */
  predicate PlainKey(k: string) {
    '=' !in k && ',' !in k
  }

  function Spaced(fs: seq<string>): (r: seq<string>)
    ensures |r| == |fs|
  {
    if |fs| == 0 then [] else [" " + fs[0]] + Spaced(fs[1..])
  }

  lemma JoinPrefixFirst(t: string, xs: seq<string>, sep: string)
    requires |xs| > 0
    ensures Text.Join([t + xs[0]] + xs[1..], sep) == t + Text.Join(xs, sep)
  {
    var ys := [t + xs[0]] + xs[1..];
    assert ys[1..] == xs[1..];
  }

  /** Joining with ", " is joining with "," after prefixing every field but
      the first with a space. */
  lemma {:induction false} JoinCommaSpace(fs: seq<string>)
    requires |fs| > 0
    ensures Text.Join(fs, ", ") == Text.Join([fs[0]] + Spaced(fs[1..]), ",")
    decreases |fs|
  {
    if |fs| > 1 {
      var tail := fs[1..];
      JoinCommaSpace(tail);
      assert tail[1..] == fs[2..];
      var sp := Spaced(tail);
      assert sp == [" " + tail[0]] + Spaced(tail[1..]);
      JoinPrefixFirst(" ", [tail[0]] + Spaced(tail[1..]), ",");
      assert ([tail[0]] + Spaced(tail[1..]))[1..] == Spaced(tail[1..]);
      var whole := [fs[0]] + sp;
      assert whole[1..] == sp;
    }
  }

  lemma ParseFieldRoundTrip(p: (string, string))
    requires PlainKey(p.0)
    ensures ParseField(HeaderField(p)) == Some(p)
  {
    var e := Percent.Encode(p.1);
    var f := HeaderField(p);
    assert f == p.0 + ("=" + ("\"" + e + "\""));
    assert f[|p.0|] == '=';
    assert f[..|p.0|] == p.0;
    assert Text.IndexOf(f, '=') == |p.0|;
    var rest := f[|p.0| + 1..];
    assert rest == "\"" + e + "\"";
    assert rest[1..|rest| - 1] == e;
    Percent.DecodeEncode(p.1);
  }

  lemma {:induction false} ParseFollowingRoundTrip(ps: Params)
    requires forall i :: 0 <= i < |ps| ==> PlainKey(ps[i].0)
    ensures ParseFollowing(Spaced(HeaderFields(ps))) == Some(ps)
    decreases |ps|
  {
    if |ps| > 0 {
      var fs := HeaderFields(ps);
      assert fs == [HeaderField(ps[0])] + HeaderFields(ps[1..]);
      assert Spaced(fs) == [" " + HeaderField(ps[0])] + Spaced(HeaderFields(ps[1..]));
      ParseFieldRoundTrip(ps[0]);
      ParseFollowingRoundTrip(ps[1..]);
      ParseFollowingStep(HeaderField(ps[0]), Spaced(HeaderFields(ps[1..])), ps[0], ps[1..]);
      assert ps == [ps[0]] + ps[1..];
    }
  }

  lemma ParseFollowingStep(f: string, rest: seq<string>, p: (string, string), ps: Params)
    requires ParseField(f) == Some(p) && ParseFollowing(rest) == Some(ps)
    ensures ParseFollowing([" " + f] + rest) == Some([p] + ps)
  {
    var parts := [" " + f] + rest;
    assert parts[0][1..] == f;
    assert parts[1..] == rest;
  }

  lemma HeaderFieldHasNoComma(p: (string, string))
    requires PlainKey(p.0)
    ensures ',' !in HeaderField(p)
  {
    Percent.EncodedHasNoDelimiters(p.1);
  }

  lemma SplitHeaderFields(ps: Params)
    requires |ps| > 0
    requires forall i :: 0 <= i < |ps| ==> PlainKey(ps[i].0)
    ensures Text.Split(Text.Join(HeaderFields(ps), ", "), ',')
         == [HeaderField(ps[0])] + Spaced(HeaderFields(ps[1..]))
  {
    var fs := HeaderFields(ps);
    assert fs[1..] == HeaderFields(ps[1..]);
    JoinCommaSpace(fs);
    var parts := [fs[0]] + Spaced(fs[1..]);
    forall i | 0 <= i < |parts| ensures ',' !in parts[i] {
      HeaderFieldHasNoComma(ps[i]);
      if i > 0 {
        SpacedAt(fs[1..], i - 1);
      }
    }
    Text.SplitJoin(parts, ',');
  }

  lemma HeaderParses(ps: Params)
    ensures |ps| > 0 && (forall i :: 0 <= i < |ps| ==> PlainKey(ps[i].0)) ==>
      ParseHeader("OAuth " + Text.Join(HeaderFields(ps), ", ")) == Some(ps)
  {
    var h := "OAuth " + Text.Join(HeaderFields(ps), ", ");
    if |ps| > 0 && (forall i :: 0 <= i < |ps| ==> PlainKey(ps[i].0)) {
      assert Text.StartsWith(h, "OAuth ");
      assert h[6..] == Text.Join(HeaderFields(ps), ", ");
      SplitHeaderFields(ps);
      ParseFieldRoundTrip(ps[0]);
      ParseFollowingRoundTrip(ps[1..]);
      assert ps == [ps[0]] + ps[1..];
    }
  }

  lemma {:induction false} SpacedAt(fs: seq<string>, i: nat)
    requires i < |fs|
    ensures Spaced(fs)[i] == " " + fs[i]
    decreases i
  {
    if i > 0 {
      SpacedAt(fs[1..], i - 1);
    }
  }

  /** The signed parameter set holds all six oauth parameters and every
      extra parameter; where an extra key repeats an oauth key, the extra
      value is the one signed. */
  lemma SignedParameters(verb: string, url: string, creds: Credentials, entropy: Entropy,
                         extra: Params, crypto: Crypto, k: string)
    requires DistinctKeys(extra)
    ensures var s := BuildOAuth(verb, url, creds, entropy, extra, crypto);
      && DistinctKeys(s.allParams)
      && Keys(s.allParams) == Keys(OAuthParams(creds, entropy)) + Keys(extra)
      && (forall i :: 0 <= i < 6 ==> OAuthKeys[i] in Keys(s.allParams))
      && Get(s.allParams, k) == if k in Keys(extra) then Get(extra, k)
                                else Get(OAuthParams(creds, entropy), k)
  {
    MergeGet(OAuthParams(creds, entropy), extra, k);
  }

  lemma EncodeItemsAppend(a: Params, b: Params)
    ensures EncodeItems(a + b) == EncodeItems(a) + EncodeItems(b)
  {
    if |a| > 0 {
      assert (a + b)[0] == a[0];
      assert (a + b)[1..] == a[1..] + b;
      EncodeItemsAppend(a[1..], b);
    } else {
      assert a + b == b;
    }
  }

  /** Reordering the parameters reorders their encodings the same way. */
  lemma {:induction false} EncodeItemsPermutation(p: Params, q: Params)
    requires multiset(p) == multiset(q)
    ensures multiset(EncodeItems(p)) == multiset(EncodeItems(q))
    decreases |p|
  {
    if |p| == 0 {
      assert |q| == |multiset(q)| == 0;
    } else {
      var x := p[0];
      assert x in multiset(q);
      var i :| 0 <= i < |q| && q[i] == x;
      var q' := q[..i] + q[i + 1..];
      RemoveAt(q, i);
      assert p == [x] + p[1..];
      assert multiset(p[1..]) == multiset(q');
      EncodeItemsPermutation(p[1..], q');
      EncodeItemsRemoveAt(q, i);
      EncodeItemsAppend([x], p[1..]);
    }
  }

  lemma RemoveAt(q: Params, i: nat)
    requires i < |q|
    ensures multiset(q[..i] + q[i + 1..]) == multiset(q) - multiset{q[i]}
  {
    ConsAt(q, i);
  }

  lemma EncodeItemsRemoveAt(q: Params, i: nat)
    requires i < |q|
    ensures multiset(EncodeItems(q)) == multiset(EncodeItems([q[i]])) + multiset(EncodeItems(q[..i] + q[i + 1..]))
  {
    ConsAt(q, i);
    EncodeItemsAround(q[..i], [q[i]], q[i + 1..]);
  }

  lemma ConsAt(q: Params, i: nat)
    requires i < |q|
    ensures q == q[..i] + ([q[i]] + q[i + 1..])
  {
    var r := q[i..];
    assert q == q[..i] + r;
    assert r[0] == q[i] && r[1..] == q[i + 1..];
    assert r == [q[i]] + r[1..];
  }

  lemma EncodeItemsAround(a: Params, x: Params, b: Params)
    ensures multiset(EncodeItems(a + (x + b))) == multiset(EncodeItems(x)) + multiset(EncodeItems(a + b))
  {
    EncodeItemsAppend(a, x + b);
    EncodeItemsAppend(x, b);
    EncodeItemsAppend(a, b);
  }

  /** The parameter string does not depend on the order in which the
      parameters were inserted. */
  lemma ParamStringPermutation(p: Params, q: Params)
    requires multiset(p) == multiset(q)
    ensures ParamString(p) == ParamString(q)
  {
    EncodeItemsPermutation(p, q);
    Sorting.SortedUnique(Sorting.Sort(EncodeItems(p)), Sorting.Sort(EncodeItems(q)));
  }

  lemma EncodeSingleLetters()
    ensures Percent.Encode("a") == "a" && Percent.Encode("b") == "b"
    ensures Percent.Encode("1") == "1" && Percent.Encode("2") == "2"
  {
    Percent.EncodeIdentityIff("a");
    Percent.EncodeIdentityIff("b");
    Percent.EncodeIdentityIff("1");
    Percent.EncodeIdentityIff("2");
  }

  lemma EncodeItemsExample()
    ensures EncodeItems([("b", "2"), ("a", "1")]) == [("b", "2"), ("a", "1")]
  {
    var given: Params := [("b", "2"), ("a", "1")];
    EncodeSingleLetters();
    assert given[1..] == [("a", "1")];
    assert EncodeItems(given[1..]) == [("a", "1")];
  }

  lemma JoinExample()
    ensures Text.Join(KeyValues([("a", "1"), ("b", "2")]), "&") == "a=1&b=2"
  {
    var items: Params := [("a", "1"), ("b", "2")];
    assert items[1..] == [("b", "2")];
    assert "a" + "=" + "1" == "a=1";
    assert "b" + "=" + "2" == "b=2";
    assert KeyValues(items[1..]) == ["b=2"];
    assert KeyValues(items) == ["a=1", "b=2"];
    assert ["a=1", "b=2"][1..] == ["b=2"];
    assert "a=1" + "&" + "b=2" == "a=1&b=2";
  }

  /** The example of sorting by key: `{b: "2", a: "1"}` gives "a=1&b=2". */
  lemma ParamStringExample()
    ensures ParamString([("b", "2"), ("a", "1")]) == "a=1&b=2"
  {
    var given: Params := [("b", "2"), ("a", "1")];
    var items: Params := [("a", "1"), ("b", "2")];
    EncodeItemsExample();
    assert Sorting.Sorted(items) by {
      assert Sorting.StrLe("a", "b");
    }
    assert multiset(items) == multiset(given);
    JoinExample();
  }

  /** The nonce is sent as lower-case hex and so is never escaped. */
  lemma NonceUnescaped(nonce: seq<byte>)
    ensures Percent.Encode(HexLower(nonce)) == HexLower(nonce)
  {
    Percent.EncodeIdentityIff(HexLower(nonce));
  }

  lemma OAuthKeysPlain()
    ensures forall i :: 0 <= i < 6 ==> PlainKey(OAuthKeys[i])
    ensures PlainKey("oauth_signature")
  {
    assert PlainKey("oauth_consumer_key");
    assert PlainKey("oauth_nonce");
    assert PlainKey("oauth_signature_method");
    assert PlainKey("oauth_timestamp");
    assert PlainKey("oauth_token");
    assert PlainKey("oauth_version");
  }

  lemma OAuthHeaderRoundTrip(creds: Credentials, entropy: Entropy, signature: string)
    ensures ParseHeader(RenderHeader(OAuthParams(creds, entropy) + [("oauth_signature", signature)]))
         == Some(OAuthParams(creds, entropy) + [("oauth_signature", signature)])
  {
    var oauth := OAuthParams(creds, entropy);
    var ps := oauth + [("oauth_signature", signature)];
    OAuthKeysPlain();
    assert forall i :: 0 <= i < 6 ==> ps[i].0 == OAuthKeys[i];
    assert ps[6].0 == "oauth_signature";
  }
}
