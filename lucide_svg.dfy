/** `createSVG` of the Lucide icon build: an icon's `[tag, attributes]`
    elements serialised into one `<svg>` string with fixed default
    attributes. Attribute values are the strings JavaScript's template
    literals make of them, inserted without escaping. */
module LucideSvg {

  /** The attributes of an element: an object (its entries in order),
      omitted (`undefined`, defaulting to `{}`), or some other value such as
      `null` or a number. */
  datatype AttrArg = AttrObject(entries: seq<(string, string)>) | AttrOmitted | AttrNonObject

  datatype Element = Element(tag: string, attrs: AttrArg)

  /** `defaultAttributes`, in declaration order, `2` already as "2". */
  const DefaultAttributes: seq<(string, string)> := [
    ("xmlns", "http://www.w3.org/2000/svg"),
    ("viewBox", "0 0 24 24"),
    ("fill", "none"),
    ("stroke", "currentColor"),
    ("stroke-width", "2"),
    ("stroke-linecap", "round"),
    ("stroke-linejoin", "round")
  ]

  /** `key="value"`. */
  function Attr(entry: (string, string)): string {
    entry.0 + "=\"" + entry.1 + "\""
  }

  /** `.map(([k, v]) => \`${k}="${v}"\`).join(' ')`. */
  function RenderAttrs(entries: seq<(string, string)>): string {
    if entries == [] then ""
    else if |entries| == 1 then Attr(entries[0])
    else RenderAttrs(entries[..|entries| - 1]) + " " + Attr(entries[|entries| - 1])
  }

  /** The fragment one element adds to the body. */
  function Fragment(e: Element): string {
    match e.attrs
    case AttrObject(entries) => "<" + e.tag + " " + RenderAttrs(entries) + "/>\n  "
    case AttrOmitted => "<" + e.tag + " " + RenderAttrs([]) + "/>\n  "
    case AttrNonObject => "<" + e.tag + "/>\n  "
  }

  /** The fragments of all elements, in order. */
  function Body(icon: seq<Element>): string {
    Concat(icon, Fragment)
  }

  /** The strings `render` makes of `xs`, concatenated in order. */
  function Concat<T>(xs: seq<T>, render: T -> string): string {
    if xs == [] then "" else Concat(xs[..|xs| - 1], render) + render(xs[|xs| - 1])
  }

  const SvgOpen: string := "<svg "
  const SvgClose: string := "</svg>"

  /** The whole output for an icon. */
  function Svg(icon: seq<Element>): string {
    SvgOpen + RenderAttrs(DefaultAttributes) + ">\n  " + Body(icon) + SvgClose
  }

  /** `createSVG(iconData)`: one fragment appended per element. */
  method CreateSvg(icon: seq<Element>) returns (svg: string)
    ensures svg == Svg(icon)
  {
    var content := "";
    var attrs := RenderAttrs(DefaultAttributes);
    for i := 0 to |icon|
      invariant content == Body(icon[..i])
    {
      assert icon[..i + 1][..i] == icon[..i];
      var e := icon[i];
      var fragment;
      match e.attrs {
        case AttrObject(entries) =>
          fragment := "<" + e.tag + " " + RenderAttrs(entries) + "/>\n  ";
        case AttrOmitted =>
          fragment := "<" + e.tag + " " + RenderAttrs([]) + "/>\n  ";
        case AttrNonObject =>
          fragment := "<" + e.tag + "/>\n  ";
      }
      assert fragment == Fragment(e);
      content := content + fragment;
    }
    assert icon[..|icon|] == icon;
    svg := "<svg " + attrs + ">\n  " + content + "</svg>";
  }

  /** The default attributes render to exactly this string. */
  lemma DefaultAttributeString()
    ensures var d := DefaultAttributes;
      RenderAttrs(d) == Attr(d[0]) + " " + Attr(d[1]) + " " + Attr(d[2]) + " " + Attr(d[3]) + " "
                        + Attr(d[4]) + " " + Attr(d[5]) + " " + Attr(d[6])
  {
    var d := DefaultAttributes;
    assert RenderAttrs(d[..1]) == Attr(d[0]);
    assert RenderAttrs(d[..2]) == RenderAttrs(d[..1]) + " " + Attr(d[1]) by { assert d[..2][..1] == d[..1]; }
    assert RenderAttrs(d[..3]) == RenderAttrs(d[..2]) + " " + Attr(d[2]) by { assert d[..3][..2] == d[..2]; }
    assert RenderAttrs(d[..4]) == RenderAttrs(d[..3]) + " " + Attr(d[3]) by { assert d[..4][..3] == d[..3]; }
    assert RenderAttrs(d[..5]) == RenderAttrs(d[..4]) + " " + Attr(d[4]) by { assert d[..5][..4] == d[..4]; }
    assert RenderAttrs(d[..6]) == RenderAttrs(d[..5]) + " " + Attr(d[5]) by { assert d[..6][..5] == d[..5]; }
    assert RenderAttrs(d[..7]) == RenderAttrs(d[..6]) + " " + Attr(d[6]) by { assert d[..7][..6] == d[..6]; }
    assert d[..7] == d;
  }

  /** An icon with no elements is an empty `<svg>`. */
  lemma EmptyIcon()
    ensures Svg([]) == "<svg " + RenderAttrs(DefaultAttributes) + ">\n  </svg>"
  {
  }

  /** Serialising two icons one after the other is serialising their
      concatenation: elements are rendered independently and in order. */
  lemma BodyAppend(a: seq<Element>, b: seq<Element>)
    ensures Body(a + b) == Body(a) + Body(b)
  {
    ConcatAppend(a, b, Fragment);
  }

  /** `Concat` distributes over concatenation of its input. */
  lemma {:induction false} ConcatAppend<T>(a: seq<T>, b: seq<T>, render: T -> string)
    ensures Concat(a + b, render) == Concat(a, render) + Concat(b, render)
  {
    if b == [] {
      assert a + b == a;
    } else {
      var init, last := b[..|b| - 1], b[|b| - 1];
      var ab := a + b;
      assert ab[..|ab| - 1] == a + init;
      ConcatAppend(a, init, render);
    }
  }

  /** An element whose attributes were omitted renders as `<tag />`, with a
      space; a non-object attribute value renders as `<tag/>`. */
  lemma EmptyAttributeForms(tag: string)
    ensures Fragment(Element(tag, AttrOmitted)) == "<" + tag + " />\n  "
    ensures Fragment(Element(tag, AttrNonObject)) == "<" + tag + "/>\n  "
    ensures Fragment(Element(tag, AttrObject([]))) == Fragment(Element(tag, AttrOmitted))
  {
  }

  /** The body can be read back from the output: it sits between the
      opening tag with the defaults and the closing tag. */
  lemma BodyRecoverable(icon: seq<Element>)
    ensures var prefix := SvgOpen + RenderAttrs(DefaultAttributes) + ">\n  ";
      var out := Svg(icon);
      && |out| == |prefix| + |Body(icon)| + |SvgClose|
      && out[..|prefix|] == prefix
      && out[|prefix|..|out| - |SvgClose|] == Body(icon)
      && out[|out| - |SvgClose|..] == SvgClose
  {
    var prefix := SvgOpen + RenderAttrs(DefaultAttributes) + ">\n  ";
    assert Svg(icon) == prefix + Body(icon) + SvgClose;
  }

  /** Every element contributes one fragment that opens with its tag and
      closes the element. */
  lemma FragmentShape(e: Element)
    ensures var f := Fragment(e);
      && |f| >= |e.tag| + 5
      && f[..1 + |e.tag|] == "<" + e.tag
      && f[|f| - 5..] == "/>\n  "
  {
  }
}
