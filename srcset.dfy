/** `srcset_replace`: rewriting the image candidates of a srcset attribute to
    their WebP URLs, by tokenising on single spaces, skipping descriptor
    tokens (`2x`, `300w`) and replacing `url + trailing` throughout the
    srcset, where `trailing` is the comma or space that followed the URL. */
module Srcset {
  import opened PhpStrings
  import opened WebpUrls

  /** PHP's `bool|string` return: false, or the new srcset. */
  datatype SrcsetResult = NoWebp | WebpSrcset(srcset: string)

  /** `is_numeric( substr( $srcurl, 0, 1 ) )`: the token opens with a digit. */
  predicate IsDescriptor(token: string)
  {
    |token| > 0 && '0' <= token[0] <= '9'
  }

  /** The character written back after the URL: a comma when the token ends
      with one, a space otherwise. */
  function Trailing(token: string): string
  {
    if |token| > 0 && token[|token| - 1] == ',' then "," else " "
  }

  /** The URL part of a token: with a trailing comma, every trailing comma is
      trimmed. */
  function TokenUrl(token: string): string
  {
    if Trailing(token) == "," then TrimTrailing(token, ',') else token
  }

  /** Whether a token triggers a replacement. As written, a token with no URL
      at all (an empty token between two spaces, or a lone comma) passes
      `validate_image_tag`; with `skipUrlless` such tokens are passed over. */
  predicate Rewrites(token: string, skipUrlless: bool)
  {
    !IsDescriptor(token) && !(skipUrlless && TokenUrl(token) == "") && ValidateImageTag(TokenUrl(token))
  }

  /** What the loop body makes of one token: its URL, the separator written
      back after it, and whether it triggers a replacement. */
  datatype Candidate = Candidate(url: string, trailing: string, rewrites: bool)

  function Classify(token: string, skipUrlless: bool): Candidate
  {
    Candidate(TokenUrl(token), Trailing(token), Rewrites(token, skipUrlless))
  }

  /** The tokens of a srcset, classified in order. */
  function Candidates(tokens: seq<string>, skipUrlless: bool): seq<Candidate>
  {
    seq(|tokens|, i requires 0 <= i < |tokens| => Classify(tokens[i], skipUrlless))
  }

  /** One loop pass: a triggering token has every `url + trailing` of the
      current srcset replaced by `generate_url(url) + trailing`. */
  function ApplyCandidate(cfg: Config, s: string, c: Candidate): string
  {
    if c.rewrites then StrReplace(s, c.url + c.trailing, GenerateUrl(cfg, c.url) + c.trailing) else s
  }

  /** The srcset after the loop: each pass works on the srcset as the
      earlier passes left it. */
  function ApplyAll(cfg: Config, s: string, cs: seq<Candidate>): string
    decreases |cs|
  {
    if cs == [] then s else ApplyCandidate(cfg, ApplyAll(cfg, s, cs[..|cs| - 1]), cs[|cs| - 1])
  }

  /** `$found_webp` after the loop. */
  predicate AnyRewrites(cs: seq<Candidate>)
    decreases |cs|
  {
    cs != [] && (cs[|cs| - 1].rewrites || AnyRewrites(cs[..|cs| - 1]))
  }

  /** `srcset_replace`, as written (`skipUrlless` false) or with url-less
      tokens passed over. */
  function SrcsetReplaceWith(cfg: Config, srcset: string, skipUrlless: bool): SrcsetResult
  {
    var tokens := Split(srcset, ' ');
    if |tokens| > 1 then
      var cs := Candidates(tokens, skipUrlless);
      if AnyRewrites(cs) then WebpSrcset(ApplyAll(cfg, srcset, cs)) else NoWebp
    else if ValidateImageTag(srcset) then WebpSrcset(GenerateUrl(cfg, srcset))
    else NoWebp
  }

  /** `srcset_replace` exactly as the source computes it. */
  method SrcsetReplace(cfg: Config, srcset: string) returns (r: SrcsetResult)
    ensures r == SrcsetReplaceWith(cfg, srcset, false)
  {
    var tokens := Split(srcset, ' ');
    var found := false;
    var s := srcset;
    if |tokens| > 1 {
      ghost var cs := Candidates(tokens, false);
      var i := 0;
      while i < |tokens|
        invariant 0 <= i <= |tokens|
        invariant s == ApplyAll(cfg, srcset, cs[..i])
        invariant found == AnyRewrites(cs[..i])
      {
        ApplyPrefix(cfg, srcset, cs, i);
        var url := tokens[i];
        if IsDescriptor(url) {
          i := i + 1;
          continue;
        }
        var trailing := " ";
        if |url| > 0 && url[|url| - 1] == ',' {
          trailing := ",";
          url := TrimTrailing(url, ',');
        }
        assert url == cs[i].url && trailing == cs[i].trailing;
        if ValidateImageTag(url) {
          s := StrReplace(s, url + trailing, GenerateUrl(cfg, url) + trailing);
          found := true;
        }
        i := i + 1;
      }
      assert cs[..|tokens|] == cs;
    } else if ValidateImageTag(srcset) {
      return WebpSrcset(GenerateUrl(cfg, srcset));
    }
    if found {
      r := WebpSrcset(s);
    } else {
      r := NoWebp;
    }
  }

  /** `$found_webp` is set exactly when some candidate triggers a replacement. */
  lemma {:induction false} AnyRewritesIff(cs: seq<Candidate>)
    ensures AnyRewrites(cs) <==> exists i :: 0 <= i < |cs| && cs[i].rewrites
    decreases |cs|
  {
    if cs != [] {
      var n := |cs| - 1;
      AnyRewritesIff(cs[..n]);
      if exists i :: 0 <= i < n && cs[..n][i].rewrites {
        var i :| 0 <= i < n && cs[..n][i].rewrites;
        assert cs[i].rewrites;
      }
      if exists i :: 0 <= i < |cs| && cs[i].rewrites {
        var i :| 0 <= i < |cs| && cs[i].rewrites;
        if i < n { assert cs[..n][i].rewrites; }
      }
    }
  }

  /** Some token of the srcset triggers a replacement. */
  ghost predicate SomeTokenRewrites(tokens: seq<string>, skipUrlless: bool)
  {
    exists i :: 0 <= i < |tokens| && Rewrites(tokens[i], skipUrlless)
  }

  /** For the tokens of a srcset: `$found_webp` is set exactly when some
      token triggers a replacement. */
  lemma FoundIff(tokens: seq<string>, skipUrlless: bool)
    ensures AnyRewrites(Candidates(tokens, skipUrlless)) <==> SomeTokenRewrites(tokens, skipUrlless)
  {
    var cs := Candidates(tokens, skipUrlless);
    AnyRewritesIff(cs);
    assert forall i :: 0 <= i < |tokens| ==> cs[i].rewrites == Rewrites(tokens[i], skipUrlless);
  }

  /** When no token triggers a replacement the srcset is untouched. */
  lemma {:induction false} NothingRewrittenUnchanged(cfg: Config, s: string, cs: seq<Candidate>)
    requires !AnyRewrites(cs)
    ensures ApplyAll(cfg, s, cs) == s
    decreases |cs|
  {
    if cs != [] {
      NothingRewrittenUnchanged(cfg, s, cs[..|cs| - 1]);
    }
  }

  /** The loop's step from `i` to `i + 1` candidates. */
  lemma ApplyPrefix(cfg: Config, s: string, cs: seq<Candidate>, i: nat)
    requires i < |cs|
    ensures ApplyAll(cfg, s, cs[..i + 1]) == ApplyCandidate(cfg, ApplyAll(cfg, s, cs[..i]), cs[i])
    ensures AnyRewrites(cs[..i + 1]) == (cs[i].rewrites || AnyRewrites(cs[..i]))
  {
    assert cs[..i + 1][..i] == cs[..i];
  }

  /** One more candidate is one more pass over the srcset. */
  lemma ApplyAppend(cfg: Config, s: string, cs: seq<Candidate>, c: Candidate)
    ensures ApplyAll(cfg, s, cs + [c]) == ApplyCandidate(cfg, ApplyAll(cfg, s, cs), c)
    ensures AnyRewrites(cs + [c]) == (c.rewrites || AnyRewrites(cs))
  {
    assert (cs + [c])[..|cs|] == cs;
  }

  /** Passes over equal srcsets stay equal when one more candidate is added. */
  lemma AppendCongruence(cfg: Config, s: string, a: seq<Candidate>, b: seq<Candidate>, c: Candidate)
    requires ApplyAll(cfg, s, a) == ApplyAll(cfg, s, b) && AnyRewrites(a) == AnyRewrites(b)
    ensures ApplyAll(cfg, s, a + [c]) == ApplyAll(cfg, s, b + [c]) && AnyRewrites(a + [c]) == AnyRewrites(b + [c])
  {
    ApplyAppend(cfg, s, a, c);
    ApplyAppend(cfg, s, b, c);
  }

  /** A candidate that does not trigger a replacement changes nothing. */
  lemma AppendInert(cfg: Config, s: string, a: seq<Candidate>, c: Candidate)
    requires !c.rewrites
    ensures ApplyAll(cfg, s, a + [c]) == ApplyAll(cfg, s, a) && AnyRewrites(a + [c]) == AnyRewrites(a)
  {
    ApplyAppend(cfg, s, a, c);
  }

  /** A token ending in commas is written back with one comma after its
      URL, which is the token with every trailing comma trimmed; any other
      token is its own URL, written back with a space. */
  lemma TrailingKept(token: string, skipUrlless: bool)
    ensures var c := Classify(token, skipUrlless);
            (|token| > 0 && token[|token| - 1] == ',' ==>
               c.trailing == "," && token[..|c.url|] == c.url &&
               (c.url == [] || c.url[|c.url| - 1] != ',') &&
               forall i :: |c.url| <= i < |token| ==> token[i] == ',') &&
            (!(|token| > 0 && token[|token| - 1] == ',') ==> c.trailing == " " && c.url == token)
  {
  }

  /** Classifying one more token extends the candidates by one. */
  lemma CandidatesAppend(tokens: seq<string>, t: string, skipUrlless: bool)
    ensures Candidates(tokens + [t], skipUrlless) == Candidates(tokens, skipUrlless) + [Classify(t, skipUrlless)]
  {
  }

  /** The tokens that can trigger a replacement, in order. */
  function DropDescriptors(tokens: seq<string>): (r: seq<string>)
    decreases |tokens|
    ensures forall i :: 0 <= i < |r| ==> !IsDescriptor(r[i])
  {
    if tokens == [] then []
    else
      var t := tokens[|tokens| - 1];
      DropDescriptors(tokens[..|tokens| - 1]) + (if IsDescriptor(t) then [] else [t])
  }

  /** The loop over `tokens` does what the loop over its non-descriptor
      tokens does. */
  predicate AgreesWithoutDescriptors(cfg: Config, srcset: string, tokens: seq<string>, skipUrlless: bool)
  {
    ApplyAll(cfg, srcset, Candidates(tokens, skipUrlless)) ==
    ApplyAll(cfg, srcset, Candidates(DropDescriptors(tokens), skipUrlless)) &&
    AnyRewrites(Candidates(tokens, skipUrlless)) == AnyRewrites(Candidates(DropDescriptors(tokens), skipUrlless))
  }

  /** Descriptor tokens such as `2x` and `300w` never influence the result:
      the loop over all tokens does exactly what the loop over the other
      tokens does. */
  lemma {:induction false} DescriptorsIgnored(cfg: Config, srcset: string, tokens: seq<string>, skipUrlless: bool)
    ensures AgreesWithoutDescriptors(cfg, srcset, tokens, skipUrlless)
    decreases |tokens|
  {
    if tokens != [] {
      var init := tokens[..|tokens| - 1];
      var t := tokens[|tokens| - 1];
      DescriptorsIgnored(cfg, srcset, init, skipUrlless);
      LastTokenDescriptor(tokens, skipUrlless);
      if IsDescriptor(t) {
        AppendInert(cfg, srcset, Candidates(init, skipUrlless), Classify(t, skipUrlless));
      } else {
        AppendCongruence(cfg, srcset, Candidates(init, skipUrlless),
                         Candidates(DropDescriptors(init), skipUrlless), Classify(t, skipUrlless));
      }
    }
  }

  /** The candidates of both loops after one more token. */
  lemma LastTokenDescriptor(tokens: seq<string>, skipUrlless: bool)
    requires tokens != []
    ensures var init := tokens[..|tokens| - 1];
            var t := tokens[|tokens| - 1];
            Candidates(tokens, skipUrlless) == Candidates(init, skipUrlless) + [Classify(t, skipUrlless)] &&
            (!IsDescriptor(t) ==>
               Candidates(DropDescriptors(tokens), skipUrlless) ==
               Candidates(DropDescriptors(init), skipUrlless) + [Classify(t, skipUrlless)]) &&
            (IsDescriptor(t) ==> DropDescriptors(tokens) == DropDescriptors(init) && !Classify(t, skipUrlless).rewrites)
  {
    var init := tokens[..|tokens| - 1];
    var t := tokens[|tokens| - 1];
    assert tokens == init + [t];
    CandidatesAppend(init, t, skipUrlless);
    if !IsDescriptor(t) {
      CandidatesAppend(DropDescriptors(init), t, skipUrlless);
    } else {
      assert DropDescriptors(init) + [] == DropDescriptors(init);
    }
  }

  /** A multi-token srcset yields false exactly when no token triggers a
      replacement, and otherwise the srcset after every replacement. */
  lemma MultiTokenResult(cfg: Config, srcset: string, skipUrlless: bool)
    requires ' ' in srcset
    ensures SrcsetReplaceWith(cfg, srcset, skipUrlless) ==
            if SomeTokenRewrites(Split(srcset, ' '), skipUrlless) then WebpSrcset(ApplyAll(cfg, srcset, Candidates(Split(srcset, ' '), skipUrlless)))
            else NoWebp
  {
    assert |Split(srcset, ' ')| > 1;
    FoundIff(Split(srcset, ' '), skipUrlless);
  }

  /** A srcset that is one token is returned as its WebP URL when it is
      valid, and as false otherwise. */
  lemma SingleTokenResult(cfg: Config, srcset: string)
    requires ' ' !in srcset
    ensures SrcsetReplaceWith(cfg, srcset, false) ==
            if ValidateImageTag(srcset) then WebpSrcset(GenerateUrl(cfg, srcset)) else NoWebp
  {
  }

  /** A url-less token (the empty token left by two spaces in a row or by a
      trailing space, or a lone comma) passes every test of the loop as
      written, and is passed over by the corrected loop. */
  lemma UrllessTokenRewrites(t: string)
    requires t == "" || t == ","
    ensures Classify(t, false).url == "" && Classify(t, false).rewrites
    ensures !Classify(t, true).rewrites
  {
  }

  /** The WebP form of the empty URL is `.webp` alone. */
  lemma GenerateUrlEmpty(cfg: Config)
    requires !cfg.parsingExactdn || cfg.exactdnDomain != ""
    ensures GenerateUrl(cfg, "") == ".webp"
  {
    StrposSpec("", cfg.exactdnDomain);
    GenerateUrlNoQuery(cfg, "");
  }

  /** As written, a url-less token rewrites EVERY separator of the srcset:
      each space (or, for a lone comma, each comma) becomes `.webp` followed
      by that separator. */
  lemma UrllessTokenRewritesEverySeparator(cfg: Config, s: string, t: string)
    requires !cfg.parsingExactdn || cfg.exactdnDomain != ""
    requires t == "" || t == ","
    ensures ApplyCandidate(cfg, s, Classify(t, false)) == StrReplace(s, Trailing(t), ".webp" + Trailing(t))
  {
    GenerateUrlEmpty(cfg);
    UrllessTokenRewrites(t);
    assert "" + Trailing(t) == Trailing(t);
  }

  /** The tokens of a single URL followed by a space. */
  lemma TrailingSpaceTokens(u: string)
    requires ' ' !in u
    ensures Split(u + " ", ' ') == [u, ""]
  {
    SplitAtFirst(u, ' ', "");
    assert u + [' '] + "" == u + " ";
  }

  /** The two candidates of `u + " "`. */
  lemma TrailingSpaceCandidates(u: string, skipUrlless: bool)
    requires ' ' !in u
    ensures Candidates(Split(u + " ", ' '), skipUrlless) == [Classify(u, skipUrlless), Classify("", skipUrlless)]
  {
    TrailingSpaceTokens(u);
  }

  /** The first token's replacement on `u + " "`. */
  lemma FirstTokenStep(cfg: Config, u: string, skipUrlless: bool)
    requires !cfg.parsingExactdn
    requires u != [] && ' ' !in u && '?' !in u && u[|u| - 1] != ','
    requires !IsDescriptor(u) && ValidateImageTag(u)
    ensures ApplyAll(cfg, u + " ", [Classify(u, skipUrlless)]) == u + ".webp "
  {
    var c := Classify(u, skipUrlless);
    assert [c][..0] == [];
    assert c == Candidate(u, " ", true);
    GenerateUrlNoQuery(cfg, u);
    assert GenerateUrl(cfg, u) + " " == u + ".webp ";
    StrReplaceWhole(u + " ", u + ".webp ");
  }

  /** Replacing every space of `u + ".webp "` by `.webp ` when `u` has no space. */
  lemma EverySpaceGetsWebp(u: string)
    requires ' ' !in u
    ensures StrReplace(u + ".webp ", " ", ".webp ") == u + ".webp.webp "
  {
    var w := u + ".webp ";
    var k := |u| + 5;
    forall j | 0 <= j < k ensures !OccursAt(w, " ", j) {
      assert w[j..j + 1] == [w[j]];
    }
    assert w[k..k + 1] == " ";
    StrReplaceAtFirst(w, " ", ".webp ", k);
    assert w[k + 1..] == [];
    assert w[..k] == u + ".webp";
  }

  /** Both passes over `u + " "` as written. */
  lemma TwoTokenReplace(cfg: Config, u: string)
    requires !cfg.parsingExactdn
    requires u != [] && ' ' !in u && '?' !in u && u[|u| - 1] != ','
    requires !IsDescriptor(u) && ValidateImageTag(u)
    ensures ApplyAll(cfg, u + " ", [Classify(u, false), Classify("", false)]) == u + ".webp.webp "
  {
    var c1 := Classify(u, false);
    var c2 := Classify("", false);
    FirstTokenStep(cfg, u, false);
    UrllessTokenRewrites("");
    GenerateUrlEmpty(cfg);
    assert c2 == Candidate("", " ", true);
    assert c2.url + c2.trailing == " ";
    assert GenerateUrl(cfg, c2.url) + c2.trailing == ".webp ";
    EverySpaceGetsWebp(u);
    ApplyAppend(cfg, u + " ", [c1], c2);
    assert [c1] + [c2] == [c1, c2];
  }

  /** As written, a srcset holding one URL and a trailing space gets `.webp`
      twice: `a.jpg ` becomes `a.jpg.webp.webp `, because the empty last
      token replaces the space the first token's replacement left behind. */
  lemma TrailingSpaceCorruptsSrcset(cfg: Config, u: string)
    requires !cfg.parsingExactdn
    requires u != [] && ' ' !in u && '?' !in u && u[|u| - 1] != ','
    requires !IsDescriptor(u) && ValidateImageTag(u)
    ensures SrcsetReplaceWith(cfg, u + " ", false) == WebpSrcset(u + ".webp.webp ")
  {
    TrailingSpaceCandidates(u, false);
    TwoTokenReplace(cfg, u);
    UrllessTokenRewrites("");
    ApplyAppend(cfg, u + " ", [Classify(u, false)], Classify("", false));
    assert [Classify(u, false)] + [Classify("", false)] == [Classify(u, false), Classify("", false)];
  }

  /** The smallest such srcset: a file name and a trailing space. */
  lemma TrailingSpaceExample(cfg: Config)
    requires !cfg.parsingExactdn
    ensures SrcsetReplaceWith(cfg, "a.jpg" + " ", false) == WebpSrcset("a.jpg" + ".webp.webp ")
  {
    var u := "a.jpg";
    ShortTextValid(u);
    assert ' ' !in u && '?' !in u && u[4] != ',' && !IsDescriptor(u);
    TrailingSpaceCorruptsSrcset(cfg, u);
  }

  /** `srcset_replace` with url-less tokens passed over, as evidently
      intended. */
  function SrcsetReplaceCorrected(cfg: Config, srcset: string): SrcsetResult
  {
    SrcsetReplaceWith(cfg, srcset, true)
  }

  /** The tokens that carry a URL, in order. */
  function DropUrlless(tokens: seq<string>): seq<string>
    decreases |tokens|
  {
    if tokens == [] then []
    else
      var t := tokens[|tokens| - 1];
      DropUrlless(tokens[..|tokens| - 1]) + (if TokenUrl(t) == "" then [] else [t])
  }

  /** The corrected loop over `tokens` does what the loop as written does
      over the tokens that carry a URL. */
  predicate AgreesOnUrls(cfg: Config, srcset: string, tokens: seq<string>)
  {
    ApplyAll(cfg, srcset, Candidates(tokens, true)) == ApplyAll(cfg, srcset, Candidates(DropUrlless(tokens), false)) &&
    AnyRewrites(Candidates(tokens, true)) == AnyRewrites(Candidates(DropUrlless(tokens), false))
  }

  /** The corrected loop does exactly what the loop as written does on the
      tokens that carry a URL: url-less tokens neither rewrite the srcset nor
      set `$found_webp`. */
  lemma {:induction false} CorrectedIgnoresUrlless(cfg: Config, srcset: string, tokens: seq<string>)
    ensures AgreesOnUrls(cfg, srcset, tokens)
    decreases |tokens|
  {
    if tokens != [] {
      CorrectedIgnoresUrlless(cfg, srcset, tokens[..|tokens| - 1]);
      if TokenUrl(tokens[|tokens| - 1]) != "" {
        UrlTokenAgrees(cfg, srcset, tokens);
      } else {
        UrllessTokenAgrees(cfg, srcset, tokens);
      }
    }
  }

  lemma UrlTokenAgrees(cfg: Config, srcset: string, tokens: seq<string>)
    requires tokens != [] && TokenUrl(tokens[|tokens| - 1]) != ""
    requires AgreesOnUrls(cfg, srcset, tokens[..|tokens| - 1])
    ensures AgreesOnUrls(cfg, srcset, tokens)
  {
    var init := tokens[..|tokens| - 1];
    LastTokenCandidates(tokens);
    AppendCongruence(cfg, srcset, Candidates(init, true), Candidates(DropUrlless(init), false),
                     Classify(tokens[|tokens| - 1], true));
  }

  lemma UrllessTokenAgrees(cfg: Config, srcset: string, tokens: seq<string>)
    requires tokens != [] && TokenUrl(tokens[|tokens| - 1]) == ""
    requires AgreesOnUrls(cfg, srcset, tokens[..|tokens| - 1])
    ensures AgreesOnUrls(cfg, srcset, tokens)
  {
    var init := tokens[..|tokens| - 1];
    LastTokenCandidates(tokens);
    AppendInert(cfg, srcset, Candidates(init, true), Classify(tokens[|tokens| - 1], true));
  }

  /** The candidates of both loops after one more token. */
  lemma LastTokenCandidates(tokens: seq<string>)
    requires tokens != []
    ensures var init := tokens[..|tokens| - 1];
            var t := tokens[|tokens| - 1];
            Candidates(tokens, true) == Candidates(init, true) + [Classify(t, true)] &&
            (TokenUrl(t) != "" ==>
               Candidates(DropUrlless(tokens), false) == Candidates(DropUrlless(init), false) + [Classify(t, true)]) &&
            (TokenUrl(t) == "" ==> DropUrlless(tokens) == DropUrlless(init) && !Classify(t, true).rewrites)
  {
    var init := tokens[..|tokens| - 1];
    var t := tokens[|tokens| - 1];
    assert tokens == init + [t];
    CandidatesAppend(init, t, true);
    if TokenUrl(t) != "" {
      assert DropUrlless(tokens) == DropUrlless(init) + [t];
      CandidatesAppend(DropUrlless(init), t, false);
    } else {
      assert DropUrlless(init) + [] == DropUrlless(init);
    }
  }

  /** On a srcset whose tokens all carry a URL, the correction changes
      nothing. */
  lemma CorrectedAgrees(cfg: Config, srcset: string)
    requires forall i :: 0 <= i < |Split(srcset, ' ')| ==> TokenUrl(Split(srcset, ' ')[i]) != ""
    ensures SrcsetReplaceCorrected(cfg, srcset) == SrcsetReplaceWith(cfg, srcset, false)
  {
    var tokens := Split(srcset, ' ');
    assert Candidates(tokens, true) == Candidates(tokens, false);
  }

  /** The corrected rewrite keeps the trailing space: `a.jpg ` becomes
      `a.jpg.webp `. */
  lemma TrailingSpaceCorrected(cfg: Config, u: string)
    requires !cfg.parsingExactdn
    requires u != [] && ' ' !in u && '?' !in u && u[|u| - 1] != ','
    requires !IsDescriptor(u) && ValidateImageTag(u)
    ensures SrcsetReplaceCorrected(cfg, u + " ") == WebpSrcset(u + ".webp ")
  {
    TrailingSpaceCandidates(u, true);
    FirstTokenStep(cfg, u, true);
    UrllessTokenRewrites("");
    ApplyAppend(cfg, u + " ", [Classify(u, true)], Classify("", true));
    assert [Classify(u, true)] + [Classify("", true)] == [Classify(u, true), Classify("", true)];
  }
}
