/** URL eligibility and the WebP URL rule of `EWWWIO_Lazy_Load`, together
    with the two read-only fields they consult (`parsing_exactdn`,
    `exactdn_domain`) and the low-quality placeholder switch. */
module WebpUrls {
  import opened PhpStrings
  import opened Markup

  /** The fields the rewriter reads but never changes: whether ExactDN URLs
      are parsed, the ExactDN domain, and the placeholder image. */
  datatype Config = Config(parsingExactdn: bool, exactdnDomain: string, placeholderSrc: string)

  /** The constructor's ExactDN set-up: the domain is recorded only when the
      ExactDN integration is active, and ExactDN URLs are parsed only when
      that domain is truthy. */
  function Configure(exactdnActive: bool, domain: string): (c: Config)
    ensures c.parsingExactdn <==> exactdnActive && Truthy(domain)
    ensures c.parsingExactdn ==> c.exactdnDomain == domain && |domain| > 0
    ensures !exactdnActive ==> c.exactdnDomain == ""
    ensures c.placeholderSrc == PLACEHOLDER_SRC
  {
    var d := if exactdnActive then domain else "";
    Config(exactdnActive && Truthy(d), d, PLACEHOLDER_SRC)
  }

  /** The default of the `placeholder_src` field: a 1x1 transparent GIF. */
  const PLACEHOLDER_SRC: string :=
    "data:image/gif;base" + "64,R0lGOD" + "lhAQABAAAAACH5BAEKAAEALAAAAAABAAEAAAICTAEAOw=="

  /** Fragments that mark a known lazy-load placeholder asset. */
  const PLACEHOLDER_FRAGMENTS: seq<string> := [
    "assets/images/dummy.png",
    "base64,R0lGOD",
    "lazy-load/images/1x1",
    "assets/images/transparent.png",
    "assets/images/lazy"
  ]

  /** Some fragment's first occurrence is past offset 0. */
  predicate AnyPlaceholder(image: string, fragments: seq<string>)
    decreases |fragments|
  {
    |fragments| > 0 && (StrposTruthy(image, fragments[0]) || AnyPlaceholder(image, fragments[1..]))
  }

  /** `validate_image_tag`: false for a known placeholder. Each fragment is
      tested with `if ( strpos(...) )`, so only a first occurrence past offset
      0 counts. Everything after the unconditional `return true` (the ExactDN
      domain test) never runs, so the configuration plays no part. */
  predicate ValidateImageTag(image: string)
  {
    !AnyPlaceholder(image, PLACEHOLDER_FRAGMENTS)
  }

  lemma {:induction false} AnyPlaceholderIff(image: string, fragments: seq<string>)
    ensures AnyPlaceholder(image, fragments) <==>
            exists i :: 0 <= i < |fragments| && StrposTruthy(image, fragments[i])
    decreases |fragments|
  {
    if |fragments| > 0 {
      AnyPlaceholderIff(image, fragments[1..]);
      if exists i :: 0 <= i < |fragments| && StrposTruthy(image, fragments[i]) {
        var i :| 0 <= i < |fragments| && StrposTruthy(image, fragments[i]);
        if i > 0 { assert fragments[1..][i - 1] == fragments[i]; }
      }
    }
  }

  /** A text shorter than every placeholder fragment is always eligible. */
  lemma ShortTextValid(image: string)
    requires |image| < 13
    ensures ValidateImageTag(image)
  {
    AnyPlaceholderIff(image, PLACEHOLDER_FRAGMENTS);
    forall i | 0 <= i < |PLACEHOLDER_FRAGMENTS|
      ensures !StrposTruthy(image, PLACEHOLDER_FRAGMENTS[i])
    {
      assert |PLACEHOLDER_FRAGMENTS[i]| >= 13;
      StrposSpec(image, PLACEHOLDER_FRAGMENTS[i]);
    }
  }

  /** `f` occurs in `s` past offset 0, and not at offset 0. */
  ghost predicate OccursPastStart(s: string, f: string)
  {
    (exists k :: k > 0 && OccursAt(s, f, k)) && !OccursAt(s, f, 0)
  }

  /** A text is rejected exactly when one of the placeholder fragments occurs
      in it past offset 0 and not at offset 0. */
  lemma ValidateImageTagIff(image: string)
    ensures !ValidateImageTag(image) <==>
            OccursPastStart(image, "assets/images/dummy.png") ||
            OccursPastStart(image, "base64,R0lGOD") ||
            OccursPastStart(image, "lazy-load/images/1x1") ||
            OccursPastStart(image, "assets/images/transparent.png") ||
            OccursPastStart(image, "assets/images/lazy")
  {
    AnyPlaceholderIff(image, PLACEHOLDER_FRAGMENTS);
    forall i | 0 <= i < |PLACEHOLDER_FRAGMENTS|
      ensures StrposTruthy(image, PLACEHOLDER_FRAGMENTS[i]) <==> OccursPastStart(image, PLACEHOLDER_FRAGMENTS[i])
    {
      StrposTruthyIff(image, PLACEHOLDER_FRAGMENTS[i]);
    }
    var fs := PLACEHOLDER_FRAGMENTS;
    assert fs[0] == "assets/images/dummy.png" && fs[1] == "base64,R0lGOD" &&
           fs[2] == "lazy-load/images/1x1" && fs[3] == "assets/images/transparent.png" &&
           fs[4] == "assets/images/lazy";
  }

  /** A fragment that begins with a character other than `s[0]` cannot sit at offset 0. */
  lemma NotAtStart(s: string, f: string)
    requires |s| > 0 && |f| > 0 && f[0] != s[0]
    ensures !OccursAt(s, f, 0)
  {
    if |f| <= |s| { assert s[0..|f|][0] == s[0]; }
  }

  /** For element text, which opens with `<`, the offset-0 quirk never
      applies: an element is rejected exactly when it contains a fragment. */
  lemma ValidateElementIff(t: Tag)
    ensures !ValidateImageTag(Render(t)) <==>
            exists f :: f in PLACEHOLDER_FRAGMENTS && Contains(Render(t), f)
  {
    var s := Render(t);
    AnyPlaceholderIff(s, PLACEHOLDER_FRAGMENTS);
    forall f | f in PLACEHOLDER_FRAGMENTS
      ensures StrposTruthy(s, f) <==> Contains(s, f)
    {
      NotAtStart(s, f);
      ContainsIff(s, f);
      StrposTruthyIff(s, f);
    }
  }

  /** A text that carries the base64 GIF signature at some offset past 0
      (and not at the very start) is never eligible. */
  lemma PlaceholderRejected(s: string, k: nat)
    requires k > 0 && OccursAt(s, "base64,R0lGOD", k)
    requires !OccursAt(s, "base64,R0lGOD", 0)
    ensures !ValidateImageTag(s)
  {
    StrposTruthyIff(s, "base64,R0lGOD");
    AnyPlaceholderIff(s, PLACEHOLDER_FRAGMENTS);
    assert PLACEHOLDER_FRAGMENTS[1] == "base64,R0lGOD";
  }

  /** WordPress `add_query_arg($key, $value, $url)`, reduced to appending
      `key=value` as a new query argument. */
  function AddQueryArg(key: string, value: string, url: string): (r: string)
    ensures |r| > |url| && r[..|url|] == url
    ensures Contains(r, key + "=" + value)
  {
    var sep := if Contains(url, "?") then "&" else "?";
    var r := url + sep + key + "=" + value;
    assert OccursAt(r, key + "=" + value, |url| + 1) by {
      assert r[|url| + 1..] == key + "=" + value;
    }
    ContainsIff(r, key + "=" + value);
    r
  }

  /** The ExactDN branch of `generate_url`: parsing ExactDN and the URL
      contains the domain (`false !== strpos`, so offset 0 counts). */
  predicate ExactdnHandles(cfg: Config, url: string)
  {
    cfg.parsingExactdn && Contains(url, cfg.exactdnDomain)
  }

  const PENDING_LOAD_QUERY: string := "is-pending-load=1"

  /** `generate_url`: an ExactDN URL gets a `webp=1` query argument; any
      other URL gets `.webp` after the text before its first `?`, followed by
      the text between the first and second `?` unless that is empty, "0" or
      the pending-load marker. */
  function GenerateUrl(cfg: Config, url: string): string
  {
    if ExactdnHandles(cfg, url) then AddQueryArg("webp", "1", url)
    else
      var parts := Split(url, '?');
      parts[0] + ".webp" +
      (if |parts| > 1 && Truthy(parts[1]) && parts[1] != PENDING_LOAD_QUERY then "?" + parts[1] else "")
  }

  lemma GenerateUrlExactdn(cfg: Config, url: string)
    requires ExactdnHandles(cfg, url)
    ensures GenerateUrl(cfg, url) == AddQueryArg("webp", "1", url)
    ensures Contains(GenerateUrl(cfg, url), "webp=1")
  {
    assert "webp" + "=" + "1" == "webp=1";
  }

  /** Without a query string the WebP URL is the URL plus `.webp`. */
  lemma GenerateUrlNoQuery(cfg: Config, url: string)
    requires !ExactdnHandles(cfg, url)
    requires '?' !in url
    ensures GenerateUrl(cfg, url) == url + ".webp"
  {
    SplitWithout(url, '?');
  }

  /** With a query string, `.webp` goes before the `?` and only the first
      query segment `q` is kept, and only when it is truthy and not the
      pending-load marker; anything after a second `?` is dropped. */
  lemma GenerateUrlWithQuery(cfg: Config, path: string, q: string, tail: string)
    requires !ExactdnHandles(cfg, path + "?" + q + tail)
    requires '?' !in path && '?' !in q
    requires tail == [] || tail[0] == '?'
    ensures GenerateUrl(cfg, path + "?" + q + tail) ==
            if Truthy(q) && q != PENDING_LOAD_QUERY then path + ".webp?" + q else path + ".webp"
  {
    var url := path + "?" + q + tail;
    assert url == path + ['?'] + (q + tail);
    SplitAtFirst(path, '?', q + tail);
    SplitFirstPiece(q, '?', tail);
  }

  /** `maybe_lqip`: a defined, falsy EWWW_IMAGE_OPTIMIZER_USE_LQIP constant
      switches low-quality placeholders off; otherwise the filtered value
      passes through. */
  function MaybeLqip(useLqip: bool, constantDefined: bool, constantValue: bool): (r: bool)
    ensures r ==> useLqip
    ensures r <==> useLqip && !(constantDefined && !constantValue)
  {
    if constantDefined && !constantValue then false else useLqip
  }
}
