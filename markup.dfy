/** Element spans and the attribute accessor the lazy-load rewriter inherits
    from its page parser. An element is kept as its tag name, its attributes
    in document order and whether it is self-closing; `Render` gives the
    markup text it stands for, which is what the rewriter searches, tests and
    substitutes back into the page. */
module Markup {
  import opened PhpStrings

  datatype Attr = Attr(name: string, value: string)

  datatype Tag = Tag(name: string, attrs: seq<Attr>, selfClosing: bool)

  function RenderAttrs(attrs: seq<Attr>): string
    decreases |attrs|
  {
    if attrs == [] then ""
    else " " + attrs[0].name + "=\"" + attrs[0].value + "\"" + RenderAttrs(attrs[1..])
  }

  /** The markup text of an element: it always opens with `<`. */
  function Render(t: Tag): (text: string)
    ensures |text| > 0 && text[0] == '<'
  {
    "<" + t.name + RenderAttrs(t.attrs) + (if t.selfClosing then " />" else ">")
  }

  /** The value of the first attribute called `name`, if there is one. */
  function Lookup(attrs: seq<Attr>, name: string): (r: Option<string>)
    decreases |attrs|
    ensures r.Some? <==> exists i :: 0 <= i < |attrs| && attrs[i].name == name
  {
    if attrs == [] then None
    else if attrs[0].name == name then Some(attrs[0].value)
    else Lookup(attrs[1..], name)
  }

  /** `get_attribute`: the attribute's value, or absent. */
  function GetAttribute(t: Tag, name: string): Option<string>
  {
    Lookup(t.attrs, name)
  }

  /** `get_attribute` as a string, "" when absent (as in `class . ' lazyload'`). */
  function GetAttributeOrEmpty(t: Tag, name: string): string
  {
    match GetAttribute(t, name)
    case Some(v) => v
    case None => ""
  }

  function ReplaceFirst(attrs: seq<Attr>, name: string, value: string): (r: seq<Attr>)
    decreases |attrs|
    ensures Lookup(attrs, name).Some? ==> Lookup(r, name) == Some(value)
    ensures forall n :: n != name ==> Lookup(r, n) == Lookup(attrs, n)
  {
    if attrs == [] then []
    else if attrs[0].name == name then [Attr(name, value)] + attrs[1..]
    else [attrs[0]] + ReplaceFirst(attrs[1..], name, value)
  }

  function RemoveAll(attrs: seq<Attr>, name: string): (r: seq<Attr>)
    decreases |attrs|
    ensures Lookup(r, name) == None
    ensures forall n :: n != name ==> Lookup(r, n) == Lookup(attrs, n)
  {
    if attrs == [] then []
    else if attrs[0].name == name then RemoveAll(attrs[1..], name)
    else [attrs[0]] + RemoveAll(attrs[1..], name)
  }

  lemma {:induction false} LookupAppend(attrs: seq<Attr>, a: Attr, n: string)
    ensures Lookup(attrs + [a], n) ==
            (if Lookup(attrs, n).Some? then Lookup(attrs, n)
             else if a.name == n then Some(a.value) else None)
    decreases |attrs|
  {
    if attrs != [] {
      assert (attrs + [a])[1..] == attrs[1..] + [a];
      LookupAppend(attrs[1..], a, n);
    }
  }

  /** `set_attribute($element, $name, $value, $overwrite)`. With `overwrite`
      a present attribute gets the new value in place; otherwise, and when the
      attribute is absent, `name="value"` is added after the existing
      attributes, so a present value is kept ahead of the new one. */
  function SetAttribute(t: Tag, name: string, value: string, overwrite: bool): (r: Tag)
    ensures GetAttribute(r, name) ==
            (if overwrite || GetAttribute(t, name).None? then Some(value) else GetAttribute(t, name))
    ensures forall n :: n != name ==> GetAttribute(r, n) == GetAttribute(t, n)
    ensures r.name == t.name && r.selfClosing == t.selfClosing
  {
    var r := if overwrite && Lookup(t.attrs, name).Some? then t.(attrs := ReplaceFirst(t.attrs, name, value))
             else t.(attrs := t.attrs + [Attr(name, value)]);
    forall n ensures Lookup(t.attrs + [Attr(name, value)], n) ==
                     (if Lookup(t.attrs, n).Some? then Lookup(t.attrs, n)
                      else if name == n then Some(value) else None) {
      LookupAppend(t.attrs, Attr(name, value), n);
    }
    r
  }

  /** `remove_attribute`: afterwards the attribute is absent; nothing else changes. */
  function RemoveAttribute(t: Tag, name: string): (r: Tag)
    ensures GetAttribute(r, name) == None
    ensures forall n :: n != name ==> GetAttribute(r, n) == GetAttribute(t, n)
    ensures r.name == t.name && r.selfClosing == t.selfClosing
  {
    t.(attrs := RemoveAll(t.attrs, name))
  }

  /** Every attribute value appears verbatim in the element's text. */
  lemma {:induction false} ValueInRenderAttrs(attrs: seq<Attr>, i: nat)
    requires i < |attrs|
    ensures exists k :: OccursAt(RenderAttrs(attrs), attrs[i].value, k)
    decreases |attrs|
  {
    var a := attrs[0];
    var head := " " + a.name + "=\"";
    var tail := "\"" + RenderAttrs(attrs[1..]);
    assert RenderAttrs(attrs) == head + a.value + tail;
    if i == 0 {
      assert OccursAt(a.value, a.value, 0);
      OccursInContext(a.value, a.value, 0, head, tail);
    } else {
      ValueInRenderAttrs(attrs[1..], i - 1);
      var k :| OccursAt(RenderAttrs(attrs[1..]), attrs[i].value, k);
      OccursInContext(RenderAttrs(attrs[1..]), attrs[i].value, k, head + a.value + "\"", "");
      assert head + a.value + "\"" + RenderAttrs(attrs[1..]) + "" == RenderAttrs(attrs);
    }
  }

  /** A value `get_attribute` can read is part of the element's text. */
  lemma ValueInRender(t: Tag, name: string)
    requires GetAttribute(t, name).Some?
    ensures exists k :: OccursAt(Render(t), GetAttribute(t, name).value, k)
  {
    FirstWithName(t.attrs, name);
    var i :| 0 <= i < |t.attrs| && t.attrs[i].name == name && t.attrs[i].value == GetAttribute(t, name).value;
    ValueInRenderAttrs(t.attrs, i);
    var k :| OccursAt(RenderAttrs(t.attrs), t.attrs[i].value, k);
    var close := if t.selfClosing then " />" else ">";
    OccursInContext(RenderAttrs(t.attrs), t.attrs[i].value, k, "<" + t.name, close);
    assert Render(t) == "<" + t.name + RenderAttrs(t.attrs) + close;
  }

  lemma {:induction false} FirstWithName(attrs: seq<Attr>, name: string)
    requires Lookup(attrs, name).Some?
    ensures exists i :: 0 <= i < |attrs| && attrs[i].name == name && attrs[i].value == Lookup(attrs, name).value
    decreases |attrs|
  {
    if attrs[0].name != name {
      FirstWithName(attrs[1..], name);
      var i :| 0 <= i < |attrs[1..]| && attrs[1..][i].name == name && attrs[1..][i].value == Lookup(attrs[1..], name).value;
      assert attrs[i + 1] == attrs[1..][i];
    }
  }
}
