/** Copying attributes of an img element onto the noscript fallback that
    replaces it: the allow-listed attributes under a prefix (`attr_copy`), and
    the Jetpack and WooCommerce gallery attributes together with their WebP
    siblings (`jetpack_replace`, `woocommerce_replace`). Each builds the
    noscript element by successive `set_attribute` calls on it. */
module NoscriptCopy {
  import opened PhpStrings
  import opened Markup
  import opened WebpUrls

  /** A PHP argument that may or may not be a string (`is_string`). */
  datatype Arg = Text(tag: Tag) | NotString

  /** The attributes `attr_copy` copies, in the order it visits them. */
  const LAZY_ATTRIBUTES: seq<string> := [
    "align",
    "alt",
    "border",
    "crossorigin",
    "height",
    "hspace",
    "ismap",
    "longdesc",
    "usemap",
    "vspace",
    "width",
    "accesskey",
    "class",
    "contenteditable",
    "contextmenu",
    "dir",
    "draggable",
    "dropzone",
    "hidden",
    "id",
    "lang",
    "spellcheck",
    "style",
    "tabindex",
    "title",
    "translate",
    "sizes",
    "data-caption",
    "data-lazy-type",
    "data-attachment-id",
    "data-permalink",
    "data-orig-size",
    "data-comments-opened",
    "data-image-meta",
    "data-image-title",
    "data-image-description",
    "data-event-trigger",
    "data-highlight-color",
    "data-highlight-opacity",
    "data-highlight-border-color",
    "data-highlight-border-width",
    "data-highlight-border-opacity",
    "data-no-lazy",
    "data-lazy",
    "data-large_image_width",
    "data-large_image_height"
  ]

  /** What `set_attribute($t, $name, $v, $overwrite)` leaves as the value of
      `name`, given the value it had before. */
  function Written(before: Option<string>, v: string, overwrite: bool): (r: Option<string>)
    ensures r.Some?
    ensures r != before ==> r == Some(v)
  {
    if overwrite || before.None? then Some(v) else before
  }

  /** The value `attr_copy` leaves under `name` for the allow-listed
      attribute `source`: a value already on the noscript element wins;
      otherwise a truthy value on the image is copied; otherwise absent. */
  function CopiedValue(image: Tag, nscript: Tag, name: string, source: string): Option<string>
  {
    var v := GetAttribute(image, source);
    if TruthyValue(v) then Written(GetAttribute(nscript, name), v.value, false)
    else GetAttribute(nscript, name)
  }

  /** `name` is the prefixed form of one of the first `i` allow-listed
      attributes. */
  predicate CopiedName(names: seq<string>, i: nat, prefix: string, n: string)
    requires i <= |names|
  {
    exists j :: 0 <= j < i && n == prefix + names[j]
  }

  /** The prefix `attr_copy` uses when its caller gives none. */
  const DEFAULT_PREFIX: string := "data-"

  /** `attr_copy`: with two strings, every allow-listed attribute with a
      truthy value on the image is set on the noscript element under
      `prefix + name` (without overwriting); nothing else is touched.
      Anything that is not a string leaves the noscript argument as given.
      A call without a prefix passes `DEFAULT_PREFIX`. */
  method AttrCopy(image: Arg, nscript: Arg, prefix: string) returns (r: Arg)
    ensures !(image.Text? && nscript.Text?) ==> r == nscript
    ensures image.Text? && nscript.Text? ==>
              r.Text? && CopiedAll(image.tag, nscript.tag, r.tag, prefix, LAZY_ATTRIBUTES)
  {
    if !image.Text? || !nscript.Text? {
      return nscript;
    }
    var t := CopyAttributes(image.tag, nscript.tag, prefix, LAZY_ATTRIBUTES);
    r := Text(t);
  }

  /** `after` is `before` with the attributes `names` copied from `image`
      under `prefix`. */
  ghost predicate CopiedAll(image: Tag, before: Tag, after: Tag, prefix: string, names: seq<string>)
  {
    CopiedUpTo(image, before, after, prefix, names, |names|)
  }

  /** `after` is `before` with the first `i` attributes of `names` copied. */
  ghost predicate CopiedUpTo(image: Tag, before: Tag, after: Tag, prefix: string, names: seq<string>, i: nat)
    requires i <= |names|
  {
    after.name == before.name && after.selfClosing == before.selfClosing &&
    (forall j :: 0 <= j < i ==>
       GetAttribute(after, prefix + names[j]) == CopiedValue(image, before, prefix + names[j], names[j])) &&
    (forall n :: !CopiedName(names, i, prefix, n) ==> GetAttribute(after, n) == GetAttribute(before, n))
  }

  /** The `foreach` loop of `attr_copy` over an allow-list. */
  method CopyAttributes(image: Tag, nscript: Tag, prefix: string, attributes: seq<string>) returns (t: Tag)
    ensures CopiedAll(image, nscript, t, prefix, attributes)
  {
    t := nscript;
    var i := 0;
    while i < |attributes|
      invariant 0 <= i <= |attributes|
      invariant CopiedUpTo(image, nscript, t, prefix, attributes, i)
    {
      ghost var before := t;
      var attribute := attributes[i];
      var value := GetAttribute(image, attribute);
      if TruthyValue(value) {
        t := SetAttribute(t, prefix + attribute, value.value, false);
      }
      CopyStep(image, nscript, before, t, prefix, attributes, i);
      i := i + 1;
    }
  }

  /** One pass of the loop extends the copied prefix of the allow-list by
      one attribute. */
  lemma CopyStep(image: Tag, nscript: Tag, t: Tag, t': Tag, prefix: string, names: seq<string>, i: nat)
    requires i < |names|
    requires CopiedUpTo(image, nscript, t, prefix, names, i)
    requires var v := GetAttribute(image, names[i]);
             t' == if TruthyValue(v) then SetAttribute(t, prefix + names[i], v.value, false) else t
    ensures CopiedUpTo(image, nscript, t', prefix, names, i + 1)
  {
    PrefixedNames(names, i, prefix);
    var name := prefix + names[i];
    if !CopiedName(names, i, prefix, name) {
      assert GetAttribute(t, name) == GetAttribute(nscript, name);
    } else {
      var j :| 0 <= j < i && name == prefix + names[j];
      assert names[j] == names[i];
    }
  }

  /** Distinct attributes have distinct prefixed names, and the names
      covered after one more step are those before plus the new one. */
  lemma PrefixedNames(names: seq<string>, i: nat, prefix: string)
    requires i < |names|
    ensures forall n :: CopiedName(names, i + 1, prefix, n) <==>
                          CopiedName(names, i, prefix, n) || n == prefix + names[i]
    ensures forall j :: 0 <= j < |names| && prefix + names[j] == prefix + names[i] ==> names[j] == names[i]
  {
    forall n ensures CopiedName(names, i + 1, prefix, n) <==> CopiedName(names, i, prefix, n) || n == prefix + names[i] {
      if CopiedName(names, i + 1, prefix, n) {
        var j :| 0 <= j < i + 1 && n == prefix + names[j];
        if j < i { assert CopiedName(names, i, prefix, n); }
      }
      if n == prefix + names[i] { assert CopiedName(names, i + 1, prefix, n); }
    }
    forall j | 0 <= j < |names| && prefix + names[j] == prefix + names[i]
      ensures names[j] == names[i]
    {
      assert names[j] == (prefix + names[j])[|prefix|..];
      assert names[i] == (prefix + names[i])[|prefix|..];
    }
  }

  /** One block of `jetpack_replace` or `woocommerce_replace` has done its
      work on `name`: when the image carries a truthy value, a valid one
      gives `webpName` its WebP URL (without overwriting) and the value
      itself is written under `name` (overwriting only when asked); with no
      truthy value neither is touched. */
  ghost predicate WebpCopied(cfg: Config, image: Tag, before: Tag, after: Tag,
                             name: string, webpName: string, overwrite: bool)
  {
    var v := GetAttribute(image, name);
    GetAttribute(after, name) ==
      (if TruthyValue(v) then Written(GetAttribute(before, name), v.value, overwrite)
       else GetAttribute(before, name)) &&
    GetAttribute(after, webpName) ==
      (if TruthyValue(v) && ValidateImageTag(v.value)
       then Written(GetAttribute(before, webpName), GenerateUrl(cfg, v.value), false)
       else GetAttribute(before, webpName))
  }

  /** A block's effect survives later writes to other names. */
  lemma WebpCopiedKept(cfg: Config, image: Tag, before: Tag, mid: Tag, after: Tag,
                       name: string, webpName: string, overwrite: bool)
    requires WebpCopied(cfg, image, before, mid, name, webpName, overwrite)
    requires GetAttribute(after, name) == GetAttribute(mid, name)
    requires GetAttribute(after, webpName) == GetAttribute(mid, webpName)
    ensures WebpCopied(cfg, image, before, after, name, webpName, overwrite)
  {
  }

  /** A later block starts from a state in which its names are as at the
      start. */
  lemma WebpCopiedFrom(cfg: Config, image: Tag, before: Tag, mid: Tag, after: Tag,
                       name: string, webpName: string, overwrite: bool)
    requires WebpCopied(cfg, image, mid, after, name, webpName, overwrite)
    requires GetAttribute(mid, name) == GetAttribute(before, name)
    requires GetAttribute(mid, webpName) == GetAttribute(before, webpName)
    ensures WebpCopied(cfg, image, before, after, name, webpName, overwrite)
  {
  }

  /** One block: read `name` from the image, add the WebP sibling when the
      value is valid, then write the value itself onto the noscript element. */
  method CopyWithWebp(cfg: Config, image: Tag, nscript: Tag, name: string, webpName: string, overwrite: bool)
    returns (r: Tag)
    requires name != webpName
    ensures WebpCopied(cfg, image, nscript, r, name, webpName, overwrite)
    ensures forall n :: n != name && n != webpName ==> GetAttribute(r, n) == GetAttribute(nscript, n)
    ensures r.name == nscript.name && r.selfClosing == nscript.selfClosing
  {
    r := nscript;
    var value := GetAttribute(image, name);
    if TruthyValue(value) {
      if ValidateImageTag(value.value) {
        r := SetAttribute(r, webpName, GenerateUrl(cfg, value.value), false);
      }
      r := SetAttribute(r, name, value.value, overwrite);
    }
  }

  /** The attribute names `jetpack_replace` may write. */
  const JETPACK_NAMES: set<string> := {
    "data-orig-file", "data-webp-orig-file",
    "data-medium-file", "data-webp-medium-file",
    "data-large-file", "data-webp-large-file"
  }

  /** Two blocks in a row, on pairwise different names. */
  method CopyTwoWithWebp(cfg: Config, image: Tag, nscript: Tag,
                         n1: string, w1: string, n2: string, w2: string, overwrite: bool)
    returns (r: Tag)
    requires n1 != w1 && n2 != w2
    requires n1 != n2 && n1 != w2 && w1 != n2 && w1 != w2
    ensures WebpCopied(cfg, image, nscript, r, n1, w1, overwrite)
    ensures WebpCopied(cfg, image, nscript, r, n2, w2, overwrite)
    ensures forall n :: n !in {n1, w1, n2, w2} ==> GetAttribute(r, n) == GetAttribute(nscript, n)
    ensures r.name == nscript.name && r.selfClosing == nscript.selfClosing
  {
    var a := CopyWithWebp(cfg, image, nscript, n1, w1, overwrite);
    r := CopyWithWebp(cfg, image, a, n2, w2, overwrite);
    WebpCopiedKept(cfg, image, nscript, a, r, n1, w1, overwrite);
    WebpCopiedFrom(cfg, image, nscript, a, r, n2, w2, overwrite);
  }

  /** `jetpack_replace`: the three Jetpack gallery attributes, each written
      back with overwrite and given a `data-webp-` sibling when valid. */
  method JetpackReplace(cfg: Config, image: Tag, nscript: Tag) returns (r: Tag)
    ensures WebpCopied(cfg, image, nscript, r, "data-orig-file", "data-webp-orig-file", true)
    ensures WebpCopied(cfg, image, nscript, r, "data-medium-file", "data-webp-medium-file", true)
    ensures WebpCopied(cfg, image, nscript, r, "data-large-file", "data-webp-large-file", true)
    ensures forall n :: n !in JETPACK_NAMES ==> GetAttribute(r, n) == GetAttribute(nscript, n)
    ensures r.name == nscript.name && r.selfClosing == nscript.selfClosing
  {
    var a := CopyTwoWithWebp(cfg, image, nscript, "data-orig-file", "data-webp-orig-file",
                             "data-medium-file", "data-webp-medium-file", true);
    r := CopyWithWebp(cfg, image, a, "data-large-file", "data-webp-large-file", true);
    WebpCopiedKept(cfg, image, nscript, a, r, "data-orig-file", "data-webp-orig-file", true);
    WebpCopiedKept(cfg, image, nscript, a, r, "data-medium-file", "data-webp-medium-file", true);
    WebpCopiedFrom(cfg, image, nscript, a, r, "data-large-file", "data-webp-large-file", true);
  }

  /** The attribute names `woocommerce_replace` may write. */
  const WOOCOMMERCE_NAMES: set<string> := {
    "data-large_image", "data-webp-large_image", "data-src", "data-webp-src"
  }

  /** `woocommerce_replace`: the WooCommerce zoom image and `data-src`, each
      written back without overwriting and given a `data-webp-` sibling when
      valid. */
  method WoocommerceReplace(cfg: Config, image: Tag, nscript: Tag) returns (r: Tag)
    ensures WebpCopied(cfg, image, nscript, r, "data-large_image", "data-webp-large_image", false)
    ensures WebpCopied(cfg, image, nscript, r, "data-src", "data-webp-src", false)
    ensures forall n :: n !in WOOCOMMERCE_NAMES ==> GetAttribute(r, n) == GetAttribute(nscript, n)
    ensures r.name == nscript.name && r.selfClosing == nscript.selfClosing
  {
    r := CopyTwoWithWebp(cfg, image, nscript, "data-large_image", "data-webp-large_image",
                         "data-src", "data-webp-src", false);
  }
}
