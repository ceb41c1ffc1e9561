# EWWWIO_Lazy_Load, modelled in Dafny

This project models the page rewriter of EWWW Image Optimizer's lazy-load
component, the class `EWWWIO_Lazy_Load`. The class works as an output-buffer
callback. `filter_page_output` takes the finished HTML page. It returns the
page untouched for admin pages, page-builder editor requests, XML documents
and AMP pages. Otherwise it walks the img elements of the page. It counts
them and passes over the first `ewww_image_optimizer_lazy_fold` of them.
Every later element that `validate_image_tag` accepts is replaced in the
buffer by a lazy-loading element followed by a `<noscript>` copy of the
original. In the lazy-loading element, `data-src` holds the image URL, a
placeholder sits in `src` or `srcset`, `data-srcset` keeps the srcset, and
the class gets ` lazyload`.

The model also covers the helpers that rewrite URLs to their WebP
derivatives:
- `generate_url`;
- `srcset_replace`;
- the attribute copiers `attr_copy`, `jetpack_replace` and `woocommerce_replace`;
- the `maybe_lqip` filter;
- the constructor's ExactDN set-up.

Modules:
- `PhpStrings` (`php_strings.dfy`): the PHP string primitives the class relies on. `strpos` (first offset, with offset 0 falsy when used as a condition), `empty`, `str_replace` (every non-overlapping occurrence, left to right), `explode` and `rtrim`.
- `Markup` (`markup.dfy`): an element as a name, an attribute list and a self-closing flag, with its text. Also the inherited `get_attribute`, `set_attribute` and `remove_attribute` as functions on elements.
- `WebpUrls` (`webp_urls.dfy`): the configuration fields, `validate_image_tag`, `generate_url` and `maybe_lqip`.
- `Srcset` (`srcset.dfy`): `srcset_replace`, with its loop as a method proved against a fold over classified tokens.
- `NoscriptCopy` (`noscript.dfy`): `attr_copy` (its loop as a method), `jetpack_replace` and `woocommerce_replace`.
- `LazyLoadPage` (`page.dfy`): the skip checks and the main img loop of `filter_page_output`. The loop is a method proved against a fold over classified elements.

PHP passes strings by value. So `set_attribute( $image, … )`, which updates its argument in place, is modelled as a function from the old element to the new one. The loops that thread such values become methods whose local variables are reassigned.

## Model

| member | source | states |
|---|---|---|
| WebpUrls.ValidateImageTag | classes/class-ewwwio-lazy-load.php:494-506 | `validate_image_tag`; characterised by `ValidateImageTagIff`, `ValidateElementIff`, `ShortTextValid` and `PlaceholderRejected` |
| WebpUrls.GenerateUrl | classes/class-ewwwio-lazy-load.php:516-524 | `generate_url`; characterised by `GenerateUrlExactdn`, `GenerateUrlNoQuery` and `GenerateUrlWithQuery` |
| Srcset.SrcsetReplaceWith | classes/class-ewwwio-lazy-load.php:152-180 | `srcset_replace` as a function; `SrcsetReplace` is proved equal to it, and `MultiTokenResult`, `SingleTokenResult`, `FoundIff` and `DescriptorsIgnored` characterise it |
| Srcset.ApplyAll | classes/class-ewwwio-lazy-load.php:157-170 | the fold of the loop's replacements; `ApplyPrefix`, `NothingRewrittenUnchanged` and `DescriptorsIgnored` characterise it |
| Srcset.SrcsetReplaceCorrected | classes/class-ewwwio-lazy-load.php:152-180 | the corrected `srcset_replace`, which passes over url-less tokens; `CorrectedIgnoresUrlless`, `CorrectedAgrees` and `TrailingSpaceCorrected` characterise it |
| LazyLoadPage.SkipPage | classes/class-ewwwio-lazy-load.php:259-283 | the pages returned untouched; `FilterPageOutput` returns the buffer exactly under it |
| LazyLoadPage.ApplyEdits | classes/class-ewwwio-lazy-load.php:288-325 | the fold of the loop's rewrites with the fold counter; `EditsPrefix`, `ApplyEditsAppend` and `FoldSkipped` characterise it |
| LazyLoadPage.ProcessImages | classes/class-ewwwio-lazy-load.php:288-325 | the loop over the found elements; `FilterPageOutput` is proved equal to it, and `AboveTheFoldSkipped`, `AboveTheFoldUntouched`, `SecondVisit` and `DuplicateTagNested` characterise it |
| LazyLoadPage.ProcessImagesCorrected | classes/class-ewwwio-lazy-load.php:290-323 | the corrected loop, which passes over a repeat of an element already visited past the fold; `DuplicateTagCorrected` and `CorrectedAgreesOnDistinct` characterise it |
| LazyLoadPage.AboveTheFoldCopyRewritten | classes/class-ewwwio-lazy-load.php:285-323 | with fold 1 and the same eligible element twice, the copy above the fold is rewritten too: the page becomes two replacements |
| LazyLoadPage.LqipConstantOff | classes/class-ewwwio-lazy-load.php:305 | with the LQIP constant defined and false, every element gets the `placeholder_src` field |
| LazyLoadPage.ConfiguredLazyTagNotEligible | classes/class-ewwwio-lazy-load.php:297-322 | with the constructor's configuration and the LQIP constant defined and false, a rewritten element is no longer eligible |
| LazyLoadPage.NoExactdnLazyTagNotEligible | classes/class-ewwwio-lazy-load.php:297-322 | without the ExactDN integration, a rewritten element is no longer eligible, whatever the LQIP filter says |
| NoscriptCopy.CopyTwoWithWebp | classes/class-ewwwio-lazy-load.php:228-248 | two blocks in a row on different names each do their work, and nothing else changes |
| Markup.GetAttribute | classes/class-ewwwio-lazy-load.php:191 | `get_attribute`: the first value under the name; `Lookup` states that it is present exactly when some attribute has the name |
| PhpStrings.Strpos | classes/class-ewwwio-lazy-load.php:495 | `strpos`; `StrposSpec` states that it returns the first offset or nothing |
| PhpStrings.StrReplace | classes/class-ewwwio-lazy-load.php:323 | `str_replace`; characterised by `StrReplaceAtFirst`, `StrReplaceAbsent` and `StrReplaceLength` |
| PhpStrings.Split | classes/class-ewwwio-lazy-load.php:153 | `explode`: at least one piece, and more than one exactly when the delimiter occurs; `SplitJoin` joins the pieces back into the text |
| WebpUrls.Configure | classes/class-ewwwio-lazy-load.php:46-52 | ExactDN URLs are parsed exactly when the integration is active and its domain is truthy; the domain is recorded only when active; the placeholder is the default GIF |
| WebpUrls.AnyPlaceholderIff | classes/class-ewwwio-lazy-load.php:495 | the chain of `strpos` tests holds exactly when some fragment's first occurrence is past offset 0 |
| WebpUrls.ValidateImageTagIff | classes/class-ewwwio-lazy-load.php:494-505 | a text is rejected exactly when one of the five placeholder fragments occurs in it past offset 0 and not at offset 0; the ExactDN test after `return true` plays no part |
| WebpUrls.ShortTextValid | classes/class-ewwwio-lazy-load.php:494-500 | a text shorter than every fragment is always accepted |
| WebpUrls.ValidateElementIff | classes/class-ewwwio-lazy-load.php:494-500 | for element text, which opens with `<`, rejection is exactly containing a fragment |
| WebpUrls.PlaceholderRejected | classes/class-ewwwio-lazy-load.php:495-497 | a text carrying the base64 GIF signature past offset 0 is rejected |
| WebpUrls.AddQueryArg | classes/class-ewwwio-lazy-load.php:518 | the URL is kept as a prefix and `key=value` is added |
| WebpUrls.GenerateUrlExactdn | classes/class-ewwwio-lazy-load.php:517-518 | an ExactDN URL (offset 0 counts) gets a `webp=1` query argument |
| WebpUrls.GenerateUrlNoQuery | classes/class-ewwwio-lazy-load.php:520-521 | a URL without `?` becomes the URL plus `.webp` |
| WebpUrls.GenerateUrlWithQuery | classes/class-ewwwio-lazy-load.php:520-521 | `.webp` goes before the first `?`; the first query segment is kept only when truthy and not `is-pending-load=1`; anything after a second `?` is dropped |
| WebpUrls.MaybeLqip | classes/class-ewwwio-lazy-load.php:532-537 | the result is false when the constant is defined and falsy, and the filtered value otherwise |
| Srcset.SrcsetReplace | classes/class-ewwwio-lazy-load.php:152-180 | the loop computes the fold of per-token replacements over the srcset, `false` when no token triggered, and the single-URL branch |
| Srcset.AnyRewritesIff | classes/class-ewwwio-lazy-load.php:157-170 | `$found_webp` is set exactly when some token triggers a replacement |
| Srcset.FoundIff | classes/class-ewwwio-lazy-load.php:157-170 | the same, stated over the tokens of the srcset |
| Srcset.NothingRewrittenUnchanged | classes/class-ewwwio-lazy-load.php:157-170 | when no token triggers, the loop leaves the srcset unchanged |
| Srcset.ApplyPrefix | classes/class-ewwwio-lazy-load.php:157-170 | one more loop pass applies one more token's replacement to the srcset as the earlier passes left it |
| Srcset.DescriptorsIgnored | classes/class-ewwwio-lazy-load.php:158-160 | descriptor tokens (`2x`, `300w`) never influence the srcset or the found flag |
| Srcset.DropDescriptors | classes/class-ewwwio-lazy-load.php:158-160 | the remaining tokens contain no descriptor |
| Srcset.TrailingKept | classes/class-ewwwio-lazy-load.php:161-165 | the separator written back is the token's trailing comma, or a space; the URL is the token with its trailing commas trimmed |
| Srcset.MultiTokenResult | classes/class-ewwwio-lazy-load.php:153-180 | a srcset with a space yields false exactly when no token triggers, and otherwise the srcset after every replacement |
| Srcset.SingleTokenResult | classes/class-ewwwio-lazy-load.php:173-179 | a srcset without a space yields the WebP URL when eligible and false otherwise |
| Srcset.UrllessTokenRewrites | classes/class-ewwwio-lazy-load.php:161-170 | an empty token or a lone comma passes `validate_image_tag` and triggers a replacement |
| Srcset.UrllessTokenRewritesEverySeparator | classes/class-ewwwio-lazy-load.php:168 | such a token replaces every separator `s` with `.webp` + `s` |
| Srcset.TrailingSpaceCorruptsSrcset | classes/class-ewwwio-lazy-load.php:153-177 | as written, `u + " "` becomes `u + ".webp.webp "` |
| Srcset.TrailingSpaceExample | classes/class-ewwwio-lazy-load.php:153-177 | the concrete case: `a.jpg ` becomes `a.jpg.webp.webp ` |
| Srcset.CorrectedIgnoresUrlless | classes/class-ewwwio-lazy-load.php:157-170 | with url-less tokens passed over, the loop does what the loop as written does on the tokens carrying a URL |
| Srcset.CorrectedAgrees | classes/class-ewwwio-lazy-load.php:152-180 | on a srcset whose tokens all carry a URL, the correction changes nothing |
| Srcset.TrailingSpaceCorrected | classes/class-ewwwio-lazy-load.php:152-180 | the corrected rewrite turns `u + " "` into `u + ".webp "` |
| NoscriptCopy.AttrCopy | classes/class-ewwwio-lazy-load.php:85-144 | with two string arguments, every allow-listed attribute with a truthy value is written under its prefixed name; otherwise the noscript argument is returned as it came |
| NoscriptCopy.CopyAttributes | classes/class-ewwwio-lazy-load.php:137-142 | after the loop, each prefixed allow-listed name holds the value `set_attribute` leaves, and every other attribute is unchanged |
| NoscriptCopy.CopyStep | classes/class-ewwwio-lazy-load.php:137-142 | one loop pass extends the copied prefix of the allow-list by one attribute |
| NoscriptCopy.PrefixedNames | classes/class-ewwwio-lazy-load.php:138-140 | distinct allow-listed names have distinct prefixed names |
| NoscriptCopy.CopyWithWebp | classes/class-ewwwio-lazy-load.php:191-198 | one block: a truthy value gets its WebP sibling when eligible and is copied; other attributes are unchanged |
| NoscriptCopy.WebpCopiedKept | classes/class-ewwwio-lazy-load.php:190-219 | a block's effect survives later blocks writing other names |
| NoscriptCopy.WebpCopiedFrom | classes/class-ewwwio-lazy-load.php:190-219 | a later block's effect is measured from the original noscript when earlier blocks did not touch its names |
| NoscriptCopy.JetpackReplace | classes/class-ewwwio-lazy-load.php:190-219 | the three Jetpack gallery attributes are copied (overwriting) with their WebP siblings; nothing else changes |
| NoscriptCopy.WoocommerceReplace | classes/class-ewwwio-lazy-load.php:228-248 | the WooCommerce zoom image and `data-src` are copied (without overwriting) with their WebP siblings; nothing else changes |
| LazyLoadPage.FilterPageOutput | classes/class-ewwwio-lazy-load.php:256-325 | a skipped page comes back as it was; otherwise the result is the fold over the found elements that passes over the first `fold` and rewrites each later eligible one |
| LazyLoadPage.EditsPrefix | classes/class-ewwwio-lazy-load.php:290-295 | one more loop pass counts one more element and, past the fold, applies its rewrite to the page as the earlier passes left it |
| LazyLoadPage.Placeholder | classes/class-ewwwio-lazy-load.php:303-307 | the placeholder is the `placeholder_src` field, or the image URL with `lazy=1` when LQIP applies |
| LazyLoadPage.LazyTag | classes/class-ewwwio-lazy-load.php:301-322 | `data-src` holds the URL; the placeholder goes to `srcset` or `src` by the GIF signature; `data-srcset` keeps a truthy srcset; the class gets ` lazyload`; nothing else changes |
| LazyLoadPage.PlacePlaceholder | classes/class-ewwwio-lazy-load.php:310-320 | the placeholder step on its own, with the frame of the attributes it leaves alone |
| LazyLoadPage.SwapSrcset | classes/class-ewwwio-lazy-load.php:310-318 | the srcset branch: the placeholder in `srcset` and no `src`, or in `src` and no `srcset`, with `data-srcset` holding the old srcset |
| LazyLoadPage.PlaceholderSignatures | classes/class-ewwwio-lazy-load.php:24 | where the two GIF signatures sit in the default placeholder |
| LazyLoadPage.GifPlaceholderInSrcset | classes/class-ewwwio-lazy-load.php:311 | with the default placeholder, a srcset-bearing element gets the placeholder in `srcset` |
| LazyLoadPage.PlaceholderCarrierNotEligible | classes/class-ewwwio-lazy-load.php:495 | an element carrying the default placeholder in any attribute is rejected by `validate_image_tag` |
| LazyLoadPage.LazyTagNotEligible | classes/class-ewwwio-lazy-load.php:297-322 | an element rewritten with the default placeholder is no longer eligible |
| LazyLoadPage.ImageAbsentUnchanged | classes/class-ewwwio-lazy-load.php:323 | a page without the element's text is left as it is |
| LazyLoadPage.FoldSkipped | classes/class-ewwwio-lazy-load.php:285-295 | the first `fold` elements never influence the page: the loop does what a loop without a fold does on the later elements |
| LazyLoadPage.AboveTheFoldSkipped | classes/class-ewwwio-lazy-load.php:285-295 | the same, stated over the found images |
| LazyLoadPage.AboveTheFoldUntouched | classes/class-ewwwio-lazy-load.php:285-295 | with no more images than the fold, the page is unchanged |
| LazyLoadPage.FallbackHoldsOriginal | classes/class-ewwwio-lazy-load.php:300-323 | the replacement text is longer than the original element and contains it |
| LazyLoadPage.BothCopiesReplaced | classes/class-ewwwio-lazy-load.php:323 | replacing `x` in `x + x` replaces both copies |
| LazyLoadPage.SecondVisit | classes/class-ewwwio-lazy-load.php:290-323 | visiting the same eligible element again applies its rewrite to the page as the first visit left it |
| LazyLoadPage.DuplicateFirstPass | classes/class-ewwwio-lazy-load.php:323 | the first of two identical elements rewrites both copies |
| LazyLoadPage.DuplicateTagNested | classes/class-ewwwio-lazy-load.php:290-323 | as written, a page holding the same eligible element twice comes out longer than the two intended replacements |
| LazyLoadPage.ReplacingInsideGrows | classes/class-ewwwio-lazy-load.php:323 | replacing `x` by a longer text that contains `x` lengthens the text |
| LazyLoadPage.DuplicateTagCorrected | classes/class-ewwwio-lazy-load.php:290-323 | the corrected loop turns the duplicated element into exactly the two replacements |
| LazyLoadPage.CorrectedAgreesWithoutRepeats | classes/class-ewwwio-lazy-load.php:290-323 | with pairwise different element texts, the corrected loop does what the loop as written does |
| LazyLoadPage.CorrectedAgreesOnDistinct | classes/class-ewwwio-lazy-load.php:290-323 | the same, stated over the found images |
| Markup.SetAttribute | classes/class-ewwwio-lazy-load.php:302-321 | with `overwrite` an existing value is replaced and otherwise kept, a missing attribute is added, other attributes are unchanged |
| Markup.RemoveAttribute | classes/class-ewwwio-lazy-load.php:313-316 | the attribute is absent afterwards; other attributes are unchanged |
| Markup.ValueInRender | classes/class-ewwwio-lazy-load.php:191 | a value `get_attribute` reads is part of the element's text |
| PhpStrings.StrposSpec | classes/class-ewwwio-lazy-load.php:495 | `strpos` returns the first offset of the needle, or nothing |
| PhpStrings.StrposTruthyIff | classes/class-ewwwio-lazy-load.php:495 | `if ( strpos(…) )` holds exactly when the needle occurs past offset 0 and not at offset 0 |
| PhpStrings.StrReplaceAbsent | classes/class-ewwwio-lazy-load.php:323 | `str_replace` leaves a text without the search string unchanged |
| PhpStrings.StrReplaceAtFirst | classes/class-ewwwio-lazy-load.php:323 | `str_replace` rewrites the first occurrence and continues after it |
| PhpStrings.StrReplaceLength | classes/class-ewwwio-lazy-load.php:323 | replacing an occurring search string by a longer one lengthens the text |
| PhpStrings.SplitJoin | classes/class-ewwwio-lazy-load.php:520 | `explode` has an inverse: joining the pieces with the delimiter gives back the text |
| PhpStrings.SplitAtFirst | classes/class-ewwwio-lazy-load.php:520 | the first piece of `explode` is the text before the first delimiter |
| PhpStrings.TrimTrailing | classes/class-ewwwio-lazy-load.php:164 | `rtrim` leaves a prefix of the text that does not end with the trimmed character |

## Left out

- The page parser `get_images_from_html` belongs to the parent class and is not part of this model. The elements it finds, with their URLs, are a parameter of `FilterPageOutput`. Their text is the model's rendering of an element.
- The inherited `get_attribute`, `set_attribute` and `remove_attribute` work on element text by regular expression. The model works on a structured element instead, with case-sensitive names and one fixed quoting. `set_attribute` without overwrite appends the attribute, and `get_attribute` reads the first one with that name.
- `add_query_arg` is reduced to appending `key=value` after `?` or `&`. WordPress's handling of existing keys, fragments and encoding is not modelled.
- The later branches of `filter_page_output` (lines 327-480) never run and are left out. The Rev Slider block (line 327) and the WP Retina 2x block (line 341) are guarded by `if ( false && … )`. The picture, link, list, div and video blocks (lines 366, 391, 415, 448 and 465) are guarded by `ewww_image_optimizer_iterable()` of a variable whose assignment is commented out (lines 365, 390, 414, 447 and 464), so it is never set.
- The constructor's hooks, `buffer_start`, the singleton guard, the script registration, `debug_script`, `min_script` and every debug message are left out. They are WordPress wiring and logging.
- Request globals (`is_admin()`, `$_SERVER`, `$_GET`, `$_POST`) and the filter values (`ewww_image_optimizer_use_lqip`, `ewww_image_optimizer_lazy_fold`) are parameters. PHP's loose typing of the fold value is reduced to an integer.
- The `<?xml` test (`preg_match`) is modelled as containment of that text.
- `is_numeric( substr( $t, 0, 1 ) )` is modelled as "the token opens with an ASCII digit".
- `FilterPageOutput`: `ewww_image_optimizer_iterable( $images[0] )` is taken to hold for the list of found images. An empty list walks no loop either way.
- The fold protects loop passes, not page text. The loop passes over the first `fold` elements, but each later visit rewrites every copy of its element's text with `str_replace` (line 323), including copies that belong to elements above the fold. With fold 1 and the same eligible element twice on the page, the first copy is passed over and the second visit rewrites both (`AboveTheFoldCopyRewritten`). The model computes exactly this. A corrected form would need the element's position in the page, which the parser's result does not carry here, so no corrected member is given. `FoldSkipped` is a statement about the loop passes and holds as written.

## Findings

| source | as written | input that shows it | evidently intended | confidence | as-written member | corrected member |
|---|---|---|---|---|---|---|
| classes/class-ewwwio-lazy-load.php:153-170 | a srcset ending in a space `explode`s to a last, empty token. That token passes `validate_image_tag`, so `str_replace( ' ', '.webp ', … )` appends `.webp` at every space | srcset `a.jpg ` becomes `a.jpg.webp.webp ` | tokens without a URL are passed over, giving `a.jpg.webp ` | not executed | Srcset.TrailingSpaceCorruptsSrcset, Srcset.TrailingSpaceExample | Srcset.SrcsetReplaceCorrected, Srcset.TrailingSpaceCorrected |
| classes/class-ewwwio-lazy-load.php:290-323 | the first of two identical eligible img elements rewrites both copies. The second visit then finds the original text again inside the `<noscript>` fallbacks and rewrites those too | a page consisting of the same eligible img element twice, with fold 0 | each copy is replaced once, giving the two lazy elements each followed by its fallback | not executed | LazyLoadPage.DuplicateTagNested | LazyLoadPage.ProcessImagesCorrected, LazyLoadPage.DuplicateTagCorrected |
