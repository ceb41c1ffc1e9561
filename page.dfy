/** `filter_page_output`, the output-buffer callback of `EWWWIO_Lazy_Load`:
    the requests and pages it leaves alone, and the pass over the img
    elements of the page that swaps each eligible element for a lazy-loading
    one followed by a `<noscript>` copy of the original. */
module LazyLoadPage {
  import opened PhpStrings
  import opened Markup
  import opened WebpUrls

  /** The request state the callback consults: `is_admin()`,
      `$_SERVER['REQUEST_URI']`, three `$_GET` parameters and
      `$_POST['action']` (absent when not sent). */
  datatype Request = Request(
    isAdmin: bool,
    uri: string,
    getCornerstone: Option<string>,
    getEtFb: Option<string>,
    getTatsu: Option<string>,
    postAction: Option<string>)

  /** One img element found by the page parser: the element and the URL it
      reported for it (`$images[0][$i]` and `$images['img_url'][$i]`). */
  datatype FoundImage = FoundImage(tag: Tag, url: string)

  /** The values the callback obtains from filters: whether low-quality
      placeholders are wanted (`ewww_image_optimizer_use_lqip`) and how many
      images sit above the fold (`ewww_image_optimizer_lazy_fold`). */
  datatype Filters = Filters(useLqip: bool, aboveTheFold: int)

  /** The pages returned untouched: an empty buffer, an admin page, a
      Cornerstone, Divi (`et_fb`) or Tatsu editor request, a Tatsu concepts
      POST, an XML document, or an AMP page (where `amp-boilerplate` must not
      sit at offset 0, because `strpos` is used as a condition). */
  predicate SkipPage(req: Request, buffer: string)
  {
    !Truthy(buffer) || req.isAdmin ||
    TruthyValue(req.getCornerstone) || Contains(req.uri, "cornerstone-endpoint") ||
    TruthyValue(req.getEtFb) ||
    TruthyValue(req.getTatsu) ||
    (TruthyValue(req.postAction) && req.postAction.value == "tatsu_get_concepts") ||
    Contains(buffer, "<?xml") ||
    StrposTruthy(buffer, "amp-boilerplate")
  }

  /** The low-quality placeholder applies when the filter asks for it, ExactDN
      is parsed, and the image URL holds the ExactDN domain past offset 0. */
  predicate LqipApplies(cfg: Config, useLqip: bool, file: string)
  {
    useLqip && cfg.parsingExactdn && StrposTruthy(file, cfg.exactdnDomain)
  }

  /** The placeholder put in place of the image: the `placeholder_src`
      field (by default the 1x1 GIF), or the image URL with a `lazy=1` query
      argument when the low-quality placeholder applies. */
  function Placeholder(cfg: Config, useLqip: bool, file: string): (ph: string)
    ensures !LqipApplies(cfg, useLqip, file) ==> ph == cfg.placeholderSrc
    ensures LqipApplies(cfg, useLqip, file) ==>
              |ph| > |file| && ph[..|file|] == file && Contains(ph, "lazy=1")
  {
    if LqipApplies(cfg, useLqip, file) then
      var ph := AddQueryArg("lazy", "1", file);
      assert "lazy" + "=" + "1" == "lazy=1";
      ph
    else cfg.placeholderSrc
  }

  /** The placeholder goes into `srcset` (and `src` is dropped) exactly when
      it carries the GIF signature `64,R0lGOD` past offset 0. */
  predicate PlaceholderInSrcset(ph: string)
  {
    StrposTruthy(ph, "64,R0lGOD")
  }

  /** The attributes the rewrite may change. */
  const LAZY_NAMES: set<string> := {"data-src", "srcset", "src", "data-srcset", "class"}

  /** The lazy-loading form of an img element: `data-src` holds the image
      URL; with a truthy srcset the placeholder replaces `srcset` (and `src`
      is removed) or `src` (and `srcset` is removed), and `data-srcset`
      keeps the srcset; without one the placeholder replaces `src`; and
      ` lazyload` is appended to the class. No other attribute changes. */
  function LazyTag(cfg: Config, useLqip: bool, tag: Tag, file: string): (r: Tag)
    ensures GetAttribute(r, "data-src") == Some(file)
    ensures GetAttribute(r, "class") == Some(GetAttributeOrEmpty(tag, "class") + " lazyload")
    ensures var srcset := GetAttribute(tag, "srcset");
            var ph := Placeholder(cfg, useLqip, file);
            (TruthyValue(srcset) && PlaceholderInSrcset(ph) ==>
               GetAttribute(r, "srcset") == Some(ph) && GetAttribute(r, "src") == None) &&
            (TruthyValue(srcset) && !PlaceholderInSrcset(ph) ==>
               GetAttribute(r, "src") == Some(ph) && GetAttribute(r, "srcset") == None) &&
            (TruthyValue(srcset) ==> GetAttribute(r, "data-srcset") == srcset) &&
            (!TruthyValue(srcset) ==>
               GetAttribute(r, "src") == Some(ph) && GetAttribute(r, "srcset") == srcset &&
               GetAttribute(r, "data-srcset") == GetAttribute(tag, "data-srcset"))
    ensures forall n :: n !in LAZY_NAMES ==> GetAttribute(r, n) == GetAttribute(tag, n)
    ensures r.name == tag.name && r.selfClosing == tag.selfClosing
  {
    var image := SetAttribute(tag, "data-src", file, true);
    var image := PlacePlaceholder(image, Placeholder(cfg, useLqip, file));
    SetAttribute(image, "class", GetAttributeOrEmpty(image, "class") + " lazyload", true)
  }

  /** The placeholder step of the rewrite: with a truthy srcset the
      placeholder replaces `srcset` (dropping `src`) or `src` (dropping
      `srcset`) and `data-srcset` keeps the srcset; without one it replaces
      `src`. */
  function PlacePlaceholder(image: Tag, ph: string): (r: Tag)
    ensures var srcset := GetAttribute(image, "srcset");
            (TruthyValue(srcset) && PlaceholderInSrcset(ph) ==>
               GetAttribute(r, "srcset") == Some(ph) && GetAttribute(r, "src") == None) &&
            (TruthyValue(srcset) && !PlaceholderInSrcset(ph) ==>
               GetAttribute(r, "src") == Some(ph) && GetAttribute(r, "srcset") == None) &&
            (TruthyValue(srcset) ==> GetAttribute(r, "data-srcset") == srcset) &&
            (!TruthyValue(srcset) ==>
               GetAttribute(r, "src") == Some(ph) && GetAttribute(r, "srcset") == srcset &&
               GetAttribute(r, "data-srcset") == GetAttribute(image, "data-srcset"))
    ensures forall n :: n != "src" && n != "srcset" && n != "data-srcset" ==> GetAttribute(r, n) == GetAttribute(image, n)
    ensures r.name == image.name && r.selfClosing == image.selfClosing
  {
    var srcset := GetAttribute(image, "srcset");
    if TruthyValue(srcset) then SwapSrcset(image, ph) else SetAttribute(image, "src", ph, true)
  }

  /** The srcset branch of the placeholder step. */
  function SwapSrcset(image: Tag, ph: string): (r: Tag)
    requires TruthyValue(GetAttribute(image, "srcset"))
    ensures PlaceholderInSrcset(ph) ==>
              GetAttribute(r, "srcset") == Some(ph) && GetAttribute(r, "src") == None
    ensures !PlaceholderInSrcset(ph) ==>
              GetAttribute(r, "src") == Some(ph) && GetAttribute(r, "srcset") == None
    ensures GetAttribute(r, "data-srcset") == GetAttribute(image, "srcset")
    ensures forall n :: n != "src" && n != "srcset" && n != "data-srcset" ==> GetAttribute(r, n) == GetAttribute(image, n)
    ensures r.name == image.name && r.selfClosing == image.selfClosing
  {
    var srcset := GetAttribute(image, "srcset");
    var i1 := if PlaceholderInSrcset(ph)
              then RemoveAttribute(SetAttribute(image, "srcset", ph, true), "src")
              else RemoveAttribute(SetAttribute(image, "src", ph, true), "srcset");
    SetAttribute(i1, "data-srcset", srcset.value, true)
  }

  /** The fallback appended after the rewritten element. */
  function NoscriptFallback(orig: Tag): (text: string)
    ensures text == "<noscript>" + Render(orig) + "</noscript>"
  {
    "<noscript>" + Render(orig) + "</noscript>"
  }

  /** The text an eligible element is replaced by. */
  function Replacement(cfg: Config, useLqip: bool, img: FoundImage): string
  {
    Render(LazyTag(cfg, useLqip, img.tag, img.url)) + NoscriptFallback(img.tag)
  }

  /** What the loop body makes of one found element: the text it searches
      for, the text that replaces it, and whether it passes
      `validate_image_tag`. */
  datatype Edit = Edit(search: string, replacement: string, eligible: bool)

  function EditOf(cfg: Config, useLqip: bool, img: FoundImage): Edit
  {
    Edit(Render(img.tag), Replacement(cfg, useLqip, img), ValidateImageTag(Render(img.tag)))
  }

  /** `f` applied to each element of `s`, in order. */
  function MapSeq<A, B>(f: A -> B, s: seq<A>): (r: seq<B>)
    ensures |r| == |s|
    ensures forall i :: 0 <= i < |s| ==> r[i] == f(s[i])
  {
    seq(|s|, i requires 0 <= i < |s| => f(s[i]))
  }

  lemma MapSuffix<A, B>(f: A -> B, s: seq<A>, m: nat)
    requires m <= |s|
    ensures MapSeq(f, s)[m..] == MapSeq(f, s[m..])
  {
    var a := MapSeq(f, s)[m..];
    var b := MapSeq(f, s[m..]);
    forall i | 0 <= i < |a|
      ensures a[i] == b[i]
    {
      assert s[m..][i] == s[m + i];
    }
  }

  function Classifier(cfg: Config, useLqip: bool): FoundImage -> Edit
  {
    img => EditOf(cfg, useLqip, img)
  }

  /** The found elements, classified in order. */
  function Edits(cfg: Config, useLqip: bool, images: seq<FoundImage>): seq<Edit>
  {
    MapSeq(Classifier(cfg, useLqip), images)
  }

  /** One pass of the loop body past the fold: an eligible element has every
      occurrence of its text in the page replaced; an ineligible one leaves
      the page as it is. */
  function ApplyEdit(buffer: string, e: Edit): string
  {
    if e.eligible then StrReplace(buffer, e.search, e.replacement) else buffer
  }

  /** The page after the loop: the `k`-th element (counting from 1) is
      passed over while `k <= fold`, and every later one is applied to the
      page as the earlier ones left it. */
  function ApplyEdits(buffer: string, es: seq<Edit>, fold: int): string
    decreases |es|
  {
    if es == [] then buffer
    else
      var n := |es|;
      var prev := ApplyEdits(buffer, es[..n - 1], fold);
      if n <= fold then prev else ApplyEdit(prev, es[n - 1])
  }

  /** The page after the loop over the found elements. */
  function ProcessImages(cfg: Config, f: Filters, buffer: string, images: seq<FoundImage>): string
  {
    ApplyEdits(buffer, Edits(cfg, f.useLqip, images), f.aboveTheFold)
  }

  /** `filter_page_output`: a skipped page is returned as it came; otherwise
      the images the parser found are visited in order, counting them, and
      each one past the fold that passes `validate_image_tag` is rewritten
      in the buffer. */
  method FilterPageOutput(cfg: Config, req: Request, f: Filters, buffer: string, images: seq<FoundImage>)
    returns (out: string)
    ensures SkipPage(req, buffer) ==> out == buffer
    ensures !SkipPage(req, buffer) ==> out == ProcessImages(cfg, f, buffer, images)
  {
    if !Truthy(buffer) || req.isAdmin {
      return buffer;
    }
    if TruthyValue(req.getCornerstone) || Contains(req.uri, "cornerstone-endpoint") {
      return buffer;
    }
    if TruthyValue(req.getEtFb) {
      return buffer;
    }
    if TruthyValue(req.getTatsu) {
      return buffer;
    }
    if TruthyValue(req.postAction) && req.postAction.value == "tatsu_get_concepts" {
      return buffer;
    }
    if Contains(buffer, "<?xml") {
      return buffer;
    }
    if StrposTruthy(buffer, "amp-boilerplate") {
      return buffer;
    }
    out := buffer;
    ghost var es := Edits(cfg, f.useLqip, images);
    var processed := 0;
    var i := 0;
    while i < |images|
      invariant 0 <= i <= |images|
      invariant processed == i
      invariant out == ApplyEdits(buffer, es[..i], f.aboveTheFold)
    {
      EditsPrefix(buffer, es, f.aboveTheFold, i);
      processed := processed + 1;
      if processed <= f.aboveTheFold {
        i := i + 1;
        continue;
      }
      var image := images[i].tag;
      var file := images[i].url;
      if ValidateImageTag(Render(image)) {
        var origImg := image;
        var noscript := "<noscript>" + Render(origImg) + "</noscript>";
        image := SetAttribute(image, "data-src", file, true);
        var srcset := GetAttribute(image, "srcset");
        var placeholderSrc := cfg.placeholderSrc;
        if f.useLqip && cfg.parsingExactdn && StrposTruthy(file, cfg.exactdnDomain) {
          placeholderSrc := AddQueryArg("lazy", "1", file);
        }
        if TruthyValue(srcset) {
          if StrposTruthy(placeholderSrc, "64,R0lGOD") {
            image := SetAttribute(image, "srcset", placeholderSrc, true);
            image := RemoveAttribute(image, "src");
          } else {
            image := SetAttribute(image, "src", placeholderSrc, true);
            image := RemoveAttribute(image, "srcset");
          }
          image := SetAttribute(image, "data-srcset", srcset.value, true);
        } else {
          image := SetAttribute(image, "src", placeholderSrc, true);
        }
        image := SetAttribute(image, "class", GetAttributeOrEmpty(image, "class") + " lazyload", true);
        assert image == LazyTag(cfg, f.useLqip, origImg, file);
        out := StrReplace(out, Render(origImg), Render(image) + noscript);
      }
      i := i + 1;
    }
    assert es[..|images|] == es;
  }

  /** The loop's step from `i` to `i + 1` elements. */
  lemma EditsPrefix(buffer: string, es: seq<Edit>, fold: int, i: nat)
    requires i < |es|
    ensures ApplyEdits(buffer, es[..i + 1], fold) ==
            if i + 1 <= fold then ApplyEdits(buffer, es[..i], fold) else ApplyEdit(ApplyEdits(buffer, es[..i], fold), es[i])
  {
    assert es[..i + 1][..i] == es[..i];
  }

  /** Where the two signatures sit in the default placeholder. */
  lemma PlaceholderSignatures()
    ensures PLACEHOLDER_SRC[19..28] == "64,R0lGOD"
    ensures PLACEHOLDER_SRC[15..28] == "base64,R0lGOD"
  {
    var a := "data:image/gif;base";
    var b := "64,R0lGOD";
    var c := "lhAQABAAAAACH5BAEKAAEALAAAAAABAAEAAAICTAEAOw==";
    assert PLACEHOLDER_SRC == a + b + c;
    assert (a + b + c)[19..28] == b;
    assert a[15..] == "base";
    assert (a + b + c)[15..28] == a[15..] + b;
  }

  /** The default GIF placeholder carries its signature past offset 0, so
      with it a srcset-bearing element gets the placeholder in `srcset`. */
  lemma GifPlaceholderInSrcset()
    ensures PlaceholderInSrcset(PLACEHOLDER_SRC)
  {
    var s := PLACEHOLDER_SRC;
    PlaceholderSignatures();
    assert OccursAt(s, "64,R0lGOD", 19);
    NotAtStart(s, "64,R0lGOD");
    StrposTruthyIff(s, "64,R0lGOD");
  }

  /** An element carrying the default placeholder in some attribute is not
      eligible for the rewrite. */
  lemma PlaceholderCarrierNotEligible(t: Tag, name: string)
    requires GetAttribute(t, name) == Some(PLACEHOLDER_SRC)
    ensures !ValidateImageTag(Render(t))
  {
    ValueInRender(t, name);
    var k: nat :| OccursAt(Render(t), PLACEHOLDER_SRC, k);
    GifSignatureInside(Render(t), k);
    NotAtStart(Render(t), "base64,R0lGOD");
    PlaceholderRejected(Render(t), k + 15);
  }

  /** An element rewritten with the default GIF placeholder is no longer
      eligible: the placeholder it now carries makes `validate_image_tag`
      reject it, so a second pass over the page would leave it alone. */
  lemma LazyTagNotEligible(cfg: Config, useLqip: bool, tag: Tag, file: string)
    requires cfg.placeholderSrc == PLACEHOLDER_SRC
    requires !LqipApplies(cfg, useLqip, file)
    ensures !ValidateImageTag(Render(LazyTag(cfg, useLqip, tag, file)))
  {
    var r := LazyTag(cfg, useLqip, tag, file);
    if GetAttribute(r, "srcset") == Some(PLACEHOLDER_SRC) {
      PlaceholderCarrierNotEligible(r, "srcset");
    } else {
      assert GetAttribute(r, "src") == Some(PLACEHOLDER_SRC);
      PlaceholderCarrierNotEligible(r, "src");
    }
  }

  /** A defined, falsy EWWW_IMAGE_OPTIMIZER_USE_LQIP constant makes every
      element get the `placeholder_src` field as its placeholder. */
  lemma LqipConstantOff(cfg: Config, useLqip: bool, file: string)
    ensures Placeholder(cfg, MaybeLqip(useLqip, true, false), file) == cfg.placeholderSrc
  {
  }

  /** With the constructor's configuration and LQIP switched off by the
      constant, an element once rewritten is no longer eligible. */
  lemma ConfiguredLazyTagNotEligible(exactdnActive: bool, domain: string, useLqip: bool, tag: Tag, file: string)
    ensures !ValidateImageTag(Render(LazyTag(Configure(exactdnActive, domain), MaybeLqip(useLqip, true, false), tag, file)))
  {
    LazyTagNotEligible(Configure(exactdnActive, domain), MaybeLqip(useLqip, true, false), tag, file);
  }

  /** Without the ExactDN integration, whatever the LQIP filter says, an
      element once rewritten is no longer eligible. */
  lemma NoExactdnLazyTagNotEligible(domain: string, useLqip: bool, tag: Tag, file: string)
    ensures !ValidateImageTag(Render(LazyTag(Configure(false, domain), useLqip, tag, file)))
  {
    LazyTagNotEligible(Configure(false, domain), useLqip, tag, file);
  }

  /** Wherever the default placeholder occurs, the GIF signature occurs 15
      characters further on. */
  lemma GifSignatureInside(s: string, k: nat)
    requires OccursAt(s, PLACEHOLDER_SRC, k)
    ensures OccursAt(s, "base64,R0lGOD", k + 15)
  {
    PlaceholderSignatures();
    assert s[k + 15..k + 28] == s[k..k + |PLACEHOLDER_SRC|][15..28];
  }

  /** A page that does not contain the element's text is left as it is. */
  lemma ImageAbsentUnchanged(cfg: Config, useLqip: bool, buffer: string, img: FoundImage)
    requires !Contains(buffer, Render(img.tag))
    ensures ApplyEdit(buffer, EditOf(cfg, useLqip, img)) == buffer
  {
    var e := EditOf(cfg, useLqip, img);
    if e.eligible {
      StrReplaceAbsent(buffer, e.search, e.replacement);
    }
  }

  /** Classifying one more element is one more pass of the loop. */
  lemma ApplyEditsAppend(buffer: string, es: seq<Edit>, e: Edit, fold: int)
    ensures ApplyEdits(buffer, es + [e], fold) ==
            if |es| + 1 <= fold then ApplyEdits(buffer, es, fold) else ApplyEdit(ApplyEdits(buffer, es, fold), e)
  {
    assert (es + [e])[..|es|] == es;
  }

  /** The fold position within `n` elements: how many of them are passed over. */
  function FoldIndex(fold: int, n: nat): (m: nat)
    ensures m <= n
    ensures fold <= 0 ==> m == 0
    ensures 0 <= fold <= n ==> m == fold
    ensures fold >= n ==> m == n
  {
    if fold < 0 then 0 else if fold > n then n else fold
  }

  /** The elements up to the fold never influence the page: the loop does
      exactly what it would do on the elements after the fold with no fold. */
  lemma {:induction false} FoldSkipped(buffer: string, es: seq<Edit>, fold: int)
    ensures ApplyEdits(buffer, es, fold) == ApplyEdits(buffer, es[FoldIndex(fold, |es|)..], 0)
    decreases |es|
  {
    if es != [] {
      var n := |es|;
      var init := es[..n - 1];
      FoldSkipped(buffer, init, fold);
      assert es == init + [es[n - 1]];
      ApplyEditsAppend(buffer, init, es[n - 1], fold);
      if n <= fold {
        assert es[n..] == [] && init[n - 1..] == [];
      } else {
        var m := FoldIndex(fold, n);
        assert FoldIndex(fold, n - 1) == m;
        assert es[m..] == init[m..] + [es[n - 1]];
        ApplyEditsAppend(buffer, init[m..], es[n - 1], 0);
      }
    }
  }

  /** The images up to the fold never influence the page: the loop does
      exactly what it would do on the images after the fold with no fold. */
  lemma AboveTheFoldSkipped(cfg: Config, f: Filters, buffer: string, images: seq<FoundImage>)
    ensures ProcessImages(cfg, f, buffer, images) ==
            ProcessImages(cfg, f.(aboveTheFold := 0), buffer, images[FoldIndex(f.aboveTheFold, |images|)..])
  {
    var m := FoldIndex(f.aboveTheFold, |images|);
    FoldSkipped(buffer, Edits(cfg, f.useLqip, images), f.aboveTheFold);
    EditsSuffix(cfg, f.useLqip, images, m);
  }

  /** Classifying a suffix of the elements gives the suffix of the
      classification. */
  lemma EditsSuffix(cfg: Config, useLqip: bool, images: seq<FoundImage>, m: nat)
    requires m <= |images|
    ensures Edits(cfg, useLqip, images)[m..] == Edits(cfg, useLqip, images[m..])
  {
    MapSuffix(Classifier(cfg, useLqip), images, m);
  }

  /** With no more images than the fold, the page is returned unchanged. */
  lemma AboveTheFoldUntouched(cfg: Config, f: Filters, buffer: string, images: seq<FoundImage>)
    requires |images| <= f.aboveTheFold
    ensures ProcessImages(cfg, f, buffer, images) == buffer
  {
    FoldSkipped(buffer, Edits(cfg, f.useLqip, images), f.aboveTheFold);
    assert Edits(cfg, f.useLqip, images)[|images|..] == [];
  }

  /** Replacing `x` in `x + x` replaces both copies. */
  lemma BothCopiesReplaced(x: string, rep: string)
    requires x != []
    ensures StrReplace(x + x, x, rep) == rep + rep
  {
    assert OccursAt(x + x, x, 0);
    StrReplaceAtStart(x + x, x, rep);
    assert (x + x)[|x|..] == x;
    StrReplaceWhole(x, rep);
  }

  /** The fallback holds the original element's text. */
  lemma FallbackHoldsOriginal(cfg: Config, useLqip: bool, img: FoundImage)
    ensures exists k: nat :: OccursAt(Replacement(cfg, useLqip, img), Render(img.tag), k)
    ensures |Replacement(cfg, useLqip, img)| > |Render(img.tag)|
  {
    var k := FallbackContains(Render(LazyTag(cfg, useLqip, img.tag, img.url)), img.tag);
    assert OccursAt(Replacement(cfg, useLqip, img), Render(img.tag), k);
  }

  /** Any text followed by the fallback of `orig` holds the text of `orig`. */
  lemma FallbackContains(l: string, orig: Tag) returns (k: nat)
    ensures OccursAt(l + NoscriptFallback(orig), Render(orig), k)
    ensures |l + NoscriptFallback(orig)| > |Render(orig)|
  {
    var x := Render(orig);
    assert l + NoscriptFallback(orig) == (l + "<noscript>") + x + "</noscript>";
    assert OccursAt(x, x, 0);
    OccursInContext(x, x, 0, l + "<noscript>", "</noscript>");
    k := |l + "<noscript>"|;
  }

  /** The same element found twice is classified the same way twice. */
  lemma EditsTwice(cfg: Config, useLqip: bool, img: FoundImage)
    ensures Edits(cfg, useLqip, [img]) == [EditOf(cfg, useLqip, img)]
    ensures Edits(cfg, useLqip, [img, img]) == [EditOf(cfg, useLqip, img), EditOf(cfg, useLqip, img)]
  {
  }

  /** Visiting an eligible element past the fold applies its rewrite to the
      page as the earlier elements left it. */
  lemma SecondVisit(cfg: Config, f: Filters, buffer: string, img: FoundImage)
    requires f.aboveTheFold <= 1 && ValidateImageTag(Render(img.tag))
    ensures ProcessImages(cfg, f, buffer, [img, img]) ==
            StrReplace(ProcessImages(cfg, f, buffer, [img]), Render(img.tag), Replacement(cfg, f.useLqip, img))
  {
    var e := EditOf(cfg, f.useLqip, img);
    EditsTwice(cfg, f.useLqip, img);
    ApplyEditsAppend(buffer, [e], e, f.aboveTheFold);
    assert [e] + [e] == [e, e];
  }

  /** The first of two identical elements past the fold rewrites both copies
      at once, as intended. */
  lemma DuplicateFirstPass(cfg: Config, f: Filters, img: FoundImage)
    requires f.aboveTheFold <= 0 && ValidateImageTag(Render(img.tag))
    ensures ProcessImages(cfg, f, Render(img.tag) + Render(img.tag), [img]) ==
            Replacement(cfg, f.useLqip, img) + Replacement(cfg, f.useLqip, img)
  {
    var e := EditOf(cfg, f.useLqip, img);
    var x := Render(img.tag);
    EditsTwice(cfg, f.useLqip, img);
    ApplyEditsAppend(x + x, [], e, f.aboveTheFold);
    assert [] + [e] == [e];
    BothCopiesReplaced(x, e.replacement);
  }

  /** As written, a page holding the same eligible element twice is
      corrupted: the second visit finds the original text again inside the
      first visit's `<noscript>` fallbacks and rewrites those too, so the page
      comes out longer than the intended two lazy elements with their
      fallbacks. */
  lemma DuplicateTagNested(cfg: Config, f: Filters, img: FoundImage)
    requires f.aboveTheFold <= 0 && ValidateImageTag(Render(img.tag))
    ensures var rep := Replacement(cfg, f.useLqip, img);
            |ProcessImages(cfg, f, Render(img.tag) + Render(img.tag), [img, img])| > |rep + rep|
  {
    var x := Render(img.tag);
    var rep := Replacement(cfg, f.useLqip, img);
    DuplicateFirstPass(cfg, f, img);
    SecondVisit(cfg, f, x + x, img);
    FallbackHoldsOriginal(cfg, f.useLqip, img);
    ReplacingInsideGrows(x, rep);
  }

  /** The fold does not protect the page text of an image above it: with
      fold 1 and the same eligible element found twice, the first visit is
      passed over, but the second visit's `str_replace` rewrites the copy
      above the fold as well. */
  lemma AboveTheFoldCopyRewritten(cfg: Config, f: Filters, img: FoundImage)
    requires f.aboveTheFold == 1 && ValidateImageTag(Render(img.tag))
    ensures ProcessImages(cfg, f, Render(img.tag) + Render(img.tag), [img, img]) ==
            Replacement(cfg, f.useLqip, img) + Replacement(cfg, f.useLqip, img)
  {
    var x := Render(img.tag);
    var e := EditOf(cfg, f.useLqip, img);
    EditsTwice(cfg, f.useLqip, img);
    ApplyEditsAppend(x + x, [], e, f.aboveTheFold);
    assert [] + [e] == [e];
    ApplyEditsAppend(x + x, [e], e, f.aboveTheFold);
    assert [e] + [e] == [e, e];
    BothCopiesReplaced(x, e.replacement);
  }

  /** Replacing `x` by a longer `rep` that itself contains `x` lengthens
      `rep + rep`. */
  lemma ReplacingInsideGrows(x: string, rep: string)
    requires x != [] && |rep| > |x| && exists k: nat :: OccursAt(rep, x, k)
    ensures |StrReplace(rep + rep, x, rep)| > |rep + rep|
  {
    var k: nat :| OccursAt(rep, x, k);
    OccursInContext(rep, x, k, "", rep);
    assert "" + rep + rep == rep + rep;
    StrReplaceLength(rep + rep, x, rep);
  }

  /** An element with text `search` was visited past the fold among `es`. */
  predicate SeenAfterFold(es: seq<Edit>, search: string, fold: int)
  {
    exists j :: 0 <= j < |es| && j + 1 > fold && es[j].search == search
  }

  /** The loop as evidently intended: an element whose text equals that of
      one already visited past the fold is passed over, because `str_replace`
      has already rewritten every copy of that text. */
  function ApplyEditsCorrected(buffer: string, es: seq<Edit>, fold: int): string
    decreases |es|
  {
    if es == [] then buffer
    else
      var n := |es|;
      var prev := ApplyEditsCorrected(buffer, es[..n - 1], fold);
      if n <= fold || SeenAfterFold(es[..n - 1], es[n - 1].search, fold) then prev
      else ApplyEdit(prev, es[n - 1])
  }

  function ProcessImagesCorrected(cfg: Config, f: Filters, buffer: string, images: seq<FoundImage>): string
  {
    ApplyEditsCorrected(buffer, Edits(cfg, f.useLqip, images), f.aboveTheFold)
  }

  /** The corrected loop turns a page holding the same eligible element
      twice into the two lazy elements, each followed by its fallback. */
  lemma DuplicateTagCorrected(cfg: Config, f: Filters, img: FoundImage)
    requires f.aboveTheFold <= 0 && ValidateImageTag(Render(img.tag))
    ensures ProcessImagesCorrected(cfg, f, Render(img.tag) + Render(img.tag), [img, img]) ==
            Replacement(cfg, f.useLqip, img) + Replacement(cfg, f.useLqip, img)
  {
    var x := Render(img.tag);
    var e := EditOf(cfg, f.useLqip, img);
    EditsTwice(cfg, f.useLqip, img);
    DuplicateFirstPass(cfg, f, img);
    CorrectedRepeat(x + x, e, f.aboveTheFold);
  }

  /** Past the fold, the corrected loop passes over the repeat of an
      element. */
  lemma CorrectedRepeat(buffer: string, e: Edit, fold: int)
    requires fold <= 0
    ensures ApplyEditsCorrected(buffer, [e, e], fold) == ApplyEdits(buffer, [e], fold)
  {
    assert [e, e][..1] == [e];
    assert SeenAfterFold([e], e.search, fold) by {
      assert [e][0].search == e.search;
    }
    CorrectedAgreesWithoutRepeats(buffer, [e], fold);
  }

  /** When no two elements have the same text, the correction changes
      nothing. */
  lemma {:induction false} CorrectedAgreesWithoutRepeats(buffer: string, es: seq<Edit>, fold: int)
    requires forall i, j :: 0 <= i < j < |es| ==> es[i].search != es[j].search
    ensures ApplyEditsCorrected(buffer, es, fold) == ApplyEdits(buffer, es, fold)
    decreases |es|
  {
    if es != [] {
      var n := |es|;
      CorrectedAgreesWithoutRepeats(buffer, es[..n - 1], fold);
      assert !SeenAfterFold(es[..n - 1], es[n - 1].search, fold);
    }
  }

  /** On a page whose found elements have pairwise different text, the
      correction changes nothing. */
  lemma CorrectedAgreesOnDistinct(cfg: Config, f: Filters, buffer: string, images: seq<FoundImage>)
    requires forall i, j :: 0 <= i < j < |images| ==> Render(images[i].tag) != Render(images[j].tag)
    ensures ProcessImagesCorrected(cfg, f, buffer, images) == ProcessImages(cfg, f, buffer, images)
  {
    CorrectedAgreesWithoutRepeats(buffer, Edits(cfg, f.useLqip, images), f.aboveTheFold);
  }
}
