/**
 * The cleaning that hknet.py applies to an article's content container:
 * image attributes rewritten, script/style/iframe/noscript elements
 * removed, paragraphs without visible text removed. The parsed document is
 * a tree of elements (tag, attributes in order, children) and text nodes.
 */
module Markup {
  import opened Text

  datatype Attr = Attr(name: string, value: string)

  datatype Node =
    | TextNode(text: string)
    | Element(tag: string, attrs: seq<Attr>, children: seq<Node>)

  // ---------------------------------------------------------------------
  // Attributes, as an insertion-ordered dictionary

  /** `tag.get(name)`. */
  function Get(attrs: seq<Attr>, name: string): (r: Option<string>)
    ensures r.Some? <==> exists i :: 0 <= i < |attrs| && attrs[i].name == name
  {
    if attrs == [] then None
    else if attrs[0].name == name then Some(attrs[0].value)
    else Get(attrs[1..], name)
  }

  /** `tag[name] = value`: an existing attribute keeps its place, a new one goes last. */
  function Set(attrs: seq<Attr>, name: string, value: string): (r: seq<Attr>)
    ensures Get(r, name) == Some(value)
    ensures forall other :: other != name ==> Get(r, other) == Get(attrs, other)
  {
    if attrs == [] then [Attr(name, value)]
    else if attrs[0].name == name then [Attr(name, value)] + attrs[1..]
    else [attrs[0]] + Set(attrs[1..], name, value)
  }

  // ---------------------------------------------------------------------
  // Step 1: images

  const ImageStyle: string := "max-width:100%; height:auto;"

  /** `img.get('data-src') or img.get('src')`. */
  function ImageSource(attrs: seq<Attr>): Option<string>
  {
    if Truthy(Get(attrs, "data-src")) then Get(attrs, "data-src") else Get(attrs, "src")
  }

  function RewriteImage(attrs: seq<Attr>): seq<Attr>
  {
    var src := ImageSource(attrs);
    if Truthy(src) then
      var withStyle := Set(Set(attrs, "src", src.value), "style", ImageStyle);
      Set(withStyle, "alt", if Get(withStyle, "alt").Some? then Get(withStyle, "alt").value else "")
    else attrs
  }

  /**
   * An image whose `data-src` is non-empty takes it as `src`; otherwise it
   * keeps its own `src`. When that value is non-empty, `style` is set and
   * `alt` kept or set to "", and no other attribute changes; an image with
   * neither value is left as it was.
   */
  lemma RewriteImageAttributes(attrs: seq<Attr>)
    ensures var r := RewriteImage(attrs);
      var d := Get(attrs, "data-src");
      var s := Get(attrs, "src");
      if Truthy(d) || Truthy(s) then
        && Get(r, "src") == (if Truthy(d) then d else s)
        && Get(r, "style") == Some(ImageStyle)
        && Get(r, "alt") == (if Get(attrs, "alt").Some? then Get(attrs, "alt") else Some(""))
        && (forall other :: other != "src" && other != "style" && other != "alt" ==> Get(r, other) == Get(attrs, other))
      else r == attrs
  {
    var src := ImageSource(attrs);
    if Truthy(src) {
      RewriteStyledImage(attrs, src.value);
    }
  }

  /** The three assignments of an image with a non-empty source. */
  lemma RewriteStyledImage(attrs: seq<Attr>, src: string)
    requires ImageSource(attrs) == Some(src) && src != ""
    ensures var r := RewriteImage(attrs);
      && Get(r, "src") == Some(src)
      && Get(r, "style") == Some(ImageStyle)
      && Get(r, "alt") == (if Get(attrs, "alt").Some? then Get(attrs, "alt") else Some(""))
      && (forall other :: other != "src" && other != "style" && other != "alt" ==> Get(r, other) == Get(attrs, other))
  {
    assert "alt"[0] != "src"[0] && |"alt"| != |"style"| && |"src"| != |"style"|;
    var a2 := Set(Set(attrs, "src", src), "style", ImageStyle);
    SetPair(attrs, "src", src, "style", ImageStyle, "alt");
    var alt := if Get(a2, "alt").Some? then Get(a2, "alt").value else "";
    SetThree(attrs, "src", src, "style", ImageStyle, "alt", alt);
  }

  /** Two assignments leave a third name alone. */
  lemma SetPair(attrs: seq<Attr>, n1: string, v1: string, n2: string, v2: string, n3: string)
    requires n1 != n3 && n2 != n3
    ensures Get(Set(Set(attrs, n1, v1), n2, v2), n3) == Get(attrs, n3)
  {
  }

  /** Three assignments to distinct names. */
  lemma SetThree(attrs: seq<Attr>, n1: string, v1: string, n2: string, v2: string, n3: string, v3: string)
    requires n1 != n2 && n1 != n3 && n2 != n3
    ensures var r := Set(Set(Set(attrs, n1, v1), n2, v2), n3, v3);
      && Get(r, n1) == Some(v1) && Get(r, n2) == Some(v2) && Get(r, n3) == Some(v3)
      && forall other :: other != n1 && other != n2 && other != n3 ==> Get(r, other) == Get(attrs, other)
  {
  }

  function RewriteImages(n: Node): Node
  {
    match n
    case TextNode(_) => n
    case Element(tag, attrs, cs) =>
      Element(tag, if tag == "img" then RewriteImage(attrs) else attrs,
              seq(|cs|, i requires 0 <= i < |cs| => RewriteImages(cs[i])))
  }

  /** Every image that ends with a non-empty `src` carries the style and an `alt`. */
  predicate ImagesStyled(n: Node)
  {
    match n
    case TextNode(_) => true
    case Element(tag, attrs, cs) =>
      && (tag == "img" && Truthy(Get(attrs, "src")) ==> Get(attrs, "style") == Some(ImageStyle) && Get(attrs, "alt").Some?)
      && forall c :: c in cs ==> ImagesStyled(c)
  }

  lemma {:induction false} RewriteImagesStyles(n: Node)
    ensures ImagesStyled(RewriteImages(n))
  {
    match n
    case TextNode(_) =>
    case Element(tag, attrs, cs) =>
      var cs' := RewriteImages(n).children;
      forall c | c in cs'
        ensures ImagesStyled(c)
      {
        var i :| 0 <= i < |cs'| && cs'[i] == c;
        RewriteImagesStyles(cs[i]);
      }
  }

  // ---------------------------------------------------------------------
  // Step 2: script, style, iframe and noscript

  predicate IsNoise(n: Node)
  {
    n.Element? && (n.tag == "script" || n.tag == "style" || n.tag == "iframe" || n.tag == "noscript")
  }

  /** No descendant is a noise element. */
  predicate NoNoise(n: Node)
  {
    n.TextNode? || forall c :: c in n.children ==> !IsNoise(c) && NoNoise(c)
  }

  function RemoveNoise(n: Node): Node
    decreases n
  {
    match n
    case TextNode(_) => n
    case Element(tag, attrs, cs) => Element(tag, attrs, RemoveNoiseAll(cs))
  }

  /** The children that are not noise, each cleaned in turn. */
  function RemoveNoiseAll(cs: seq<Node>): (r: seq<Node>)
    decreases cs
    ensures |r| <= |cs|
  {
    if cs == [] then []
    else (if IsNoise(cs[0]) then [] else [RemoveNoise(cs[0])]) + RemoveNoiseAll(cs[1..])
  }

  lemma {:induction false} RemoveNoiseClears(n: Node)
    ensures NoNoise(RemoveNoise(n))
    ensures n.Element? ==> RemoveNoise(n).Element? && RemoveNoise(n).tag == n.tag && RemoveNoise(n).attrs == n.attrs
    decreases n
  {
    if n.Element? {
      RemoveNoiseAllClears(n.children);
    }
  }

  lemma {:induction false} RemoveNoiseAllClears(cs: seq<Node>)
    ensures forall c :: c in RemoveNoiseAll(cs) ==> !IsNoise(c) && NoNoise(c)
    decreases cs
  {
    if cs != [] {
      RemoveNoiseAllClears(cs[1..]);
      RemoveNoiseClears(cs[0]);
    }
  }

  /** A tree without noise elements is left as it was. */
  lemma {:induction false} RemoveNoiseKeepsClean(n: Node)
    requires NoNoise(n)
    ensures RemoveNoise(n) == n
    decreases n
  {
    if n.Element? {
      RemoveNoiseAllKeepsClean(n.children);
    }
  }

  lemma {:induction false} RemoveNoiseAllKeepsClean(cs: seq<Node>)
    requires forall c :: c in cs ==> !IsNoise(c) && NoNoise(c)
    ensures RemoveNoiseAll(cs) == cs
    decreases cs
  {
    if cs != [] {
      assert cs[0] in cs;
      RemoveNoiseKeepsClean(cs[0]);
      RemoveNoiseAllKeepsClean(cs[1..]);
      assert [cs[0]] + cs[1..] == cs;
    }
  }

  lemma {:induction false} RemoveNoiseKeepsStyled(n: Node)
    requires ImagesStyled(n)
    ensures ImagesStyled(RemoveNoise(n))
    decreases n
  {
    if n.Element? {
      RemoveNoiseAllKeepsStyled(n.children);
    }
  }

  lemma {:induction false} RemoveNoiseAllKeepsStyled(cs: seq<Node>)
    requires forall c :: c in cs ==> ImagesStyled(c)
    ensures forall c :: c in RemoveNoiseAll(cs) ==> ImagesStyled(c)
    decreases cs
  {
    if cs != [] {
      assert cs[0] in cs;
      RemoveNoiseKeepsStyled(cs[0]);
      RemoveNoiseAllKeepsStyled(cs[1..]);
    }
  }

  // ---------------------------------------------------------------------
  // Step 3: paragraphs whose `get_text(strip=True)` is empty

  /** `get_text(strip=True)`: every text node stripped, concatenated. */
  function StrippedText(n: Node): string
    decreases n
  {
    match n
    case TextNode(s) => Strip(s)
    case Element(_, _, cs) => StrippedTextAll(cs)
  }

  function StrippedTextAll(cs: seq<Node>): string
    decreases cs
  {
    if cs == [] then "" else StrippedText(cs[0]) + StrippedTextAll(cs[1..])
  }

  predicate IsEmptyParagraph(n: Node)
  {
    n.Element? && n.tag == "p" && StrippedText(n) == ""
  }

  /** No descendant is a paragraph without visible text. */
  predicate NoEmptyParagraph(n: Node)
  {
    n.TextNode? || forall c :: c in n.children ==> !IsEmptyParagraph(c) && NoEmptyParagraph(c)
  }

  function Prune(n: Node): Node
    decreases n
  {
    match n
    case TextNode(_) => n
    case Element(tag, attrs, cs) => Element(tag, attrs, PruneAll(cs))
  }

  function PruneAll(cs: seq<Node>): (r: seq<Node>)
    decreases cs
    ensures |r| <= |cs|
  {
    if cs == [] then []
    else (if IsEmptyParagraph(cs[0]) then [] else [Prune(cs[0])]) + PruneAll(cs[1..])
  }

  /** Pruning keeps the visible text, so no element with text is lost. */
  lemma {:induction false} PruneKeepsText(n: Node)
    ensures StrippedText(Prune(n)) == StrippedText(n)
    decreases n
  {
    if n.Element? {
      PruneAllKeepsText(n.children);
    }
  }

  lemma {:induction false} PruneAllKeepsText(cs: seq<Node>)
    ensures StrippedTextAll(PruneAll(cs)) == StrippedTextAll(cs)
    decreases cs
  {
    if cs != [] {
      PruneAllKeepsText(cs[1..]);
      if IsEmptyParagraph(cs[0]) {
        assert PruneAll(cs) == PruneAll(cs[1..]);
      } else {
        PruneKeepsText(cs[0]);
        var rest := PruneAll(cs[1..]);
        assert PruneAll(cs) == [Prune(cs[0])] + rest;
        assert ([Prune(cs[0])] + rest)[1..] == rest;
      }
    }
  }

  lemma {:induction false} PruneClears(n: Node)
    ensures NoEmptyParagraph(Prune(n))
    decreases n
  {
    if n.Element? {
      PruneAllClears(n.children);
    }
  }

  lemma {:induction false} PruneAllClears(cs: seq<Node>)
    ensures forall c :: c in PruneAll(cs) ==> !IsEmptyParagraph(c) && NoEmptyParagraph(c)
    decreases cs
  {
    if cs != [] {
      PruneAllClears(cs[1..]);
      if !IsEmptyParagraph(cs[0]) {
        PruneClears(cs[0]);
        PruneKeepsText(cs[0]);
      }
    }
  }

  /** A tree without an empty paragraph is left as it is: pruning removes nothing else. */
  lemma {:induction false} PruneKeepsClean(n: Node)
    requires NoEmptyParagraph(n)
    ensures Prune(n) == n
    decreases n
  {
    if n.Element? {
      PruneAllKeepsClean(n.children);
    }
  }

  lemma {:induction false} PruneAllKeepsClean(cs: seq<Node>)
    requires forall c :: c in cs ==> !IsEmptyParagraph(c) && NoEmptyParagraph(c)
    ensures PruneAll(cs) == cs
    decreases cs
  {
    if cs != [] {
      assert cs[0] in cs;
      PruneAllKeepsClean(cs[1..]);
      PruneKeepsClean(cs[0]);
      assert cs == [cs[0]] + cs[1..];
    }
  }

  /** Pruning only removes: it brings back no noise and unstyles no image. */
  lemma {:induction false} PruneKeeps(n: Node)
    requires NoNoise(n) && ImagesStyled(n)
    ensures NoNoise(Prune(n)) && ImagesStyled(Prune(n))
    ensures n.Element? ==> Prune(n).Element? && Prune(n).tag == n.tag && Prune(n).attrs == n.attrs
    decreases n
  {
    if n.Element? {
      PruneAllKeeps(n.children);
    }
  }

  lemma {:induction false} PruneAllKeeps(cs: seq<Node>)
    requires forall c :: c in cs ==> !IsNoise(c) && NoNoise(c) && ImagesStyled(c)
    ensures forall c :: c in PruneAll(cs) ==> !IsNoise(c) && NoNoise(c) && ImagesStyled(c)
    decreases cs
  {
    if cs != [] {
      assert cs[0] in cs;
      PruneAllKeeps(cs[1..]);
      if !IsEmptyParagraph(cs[0]) {
        PruneKeeps(cs[0]);
      }
    }
  }

  // ---------------------------------------------------------------------
  // The three steps in order

  /** The container after the three loops; the container itself is not matched. */
  function Clean(container: Node): Node
  {
    match container
    case TextNode(_) => container
    case Element(tag, attrs, cs) =>
      var images := seq(|cs|, i requires 0 <= i < |cs| => RewriteImages(cs[i]));
      Element(tag, attrs, PruneAll(RemoveNoiseAll(images)))
  }

  /**
   * After cleaning, the container keeps its own tag and attributes, holds
   * no script/style/iframe/noscript descendant and no paragraph without
   * visible text, and every image with a source is styled.
   */
  lemma CleanGuarantees(container: Node)
    ensures var r := Clean(container);
      && NoNoise(r) && NoEmptyParagraph(r)
      && (container.Element? ==> r.Element? && r.tag == container.tag && r.attrs == container.attrs)
      && (r.Element? ==> forall c :: c in r.children ==> ImagesStyled(c))
  {
    if container.Element? {
      var cs := container.children;
      var images := seq(|cs|, i requires 0 <= i < |cs| => RewriteImages(cs[i]));
      forall c | c in images
        ensures ImagesStyled(c)
      {
        var i :| 0 <= i < |images| && images[i] == c;
        RewriteImagesStyles(cs[i]);
      }
      RemoveNoiseAllClears(images);
      RemoveNoiseAllKeepsStyled(images);
      PruneAllKeeps(RemoveNoiseAll(images));
      PruneAllClears(RemoveNoiseAll(images));
    }
  }

  /** A container without noise elements keeps its visible text through the cleaning. */
  lemma CleanKeepsText(container: Node)
    requires NoNoise(container)
    ensures StrippedText(Clean(container)) == StrippedText(RewriteImages(container))
    ensures StrippedText(Clean(container)) == StrippedText(container)
  {
    RewriteImagesKeepsShape(container);
    if container.Element? {
      var cs := container.children;
      var images := seq(|cs|, i requires 0 <= i < |cs| => RewriteImages(cs[i]));
      assert RewriteImages(container).children == images;
      forall c | c in images
        ensures !IsNoise(c) && NoNoise(c)
      {
        var i :| 0 <= i < |images| && images[i] == c;
        assert cs[i] in cs;
        RewriteImagesKeepsShape(cs[i]);
      }
      RemoveNoiseAllKeepsClean(images);
      PruneAllKeepsText(images);
    }
  }

  /**
   * `b` is `a` with at most the attributes of its images changed: the same
   * text nodes, and elements with the same tag, the same attributes unless
   * they are an image, and pairwise the same children.
   */
  predicate SameShape(a: Node, b: Node)
    decreases a
  {
    match a
    case TextNode(_) => b == a
    case Element(tag, attrs, cs) =>
      && b.Element? && b.tag == tag && (tag != "img" ==> b.attrs == attrs)
      && |b.children| == |cs|
      && forall i :: 0 <= i < |cs| ==> SameShape(cs[i], b.children[i])
  }

  /** Image rewriting changes image attributes only, so the visible text and the absence of noise survive it. */
  lemma {:induction false} RewriteImagesKeepsShape(n: Node)
    ensures SameShape(n, RewriteImages(n))
    ensures StrippedText(RewriteImages(n)) == StrippedText(n)
    ensures NoNoise(n) ==> NoNoise(RewriteImages(n))
  {
    RewriteImagesSameShape(n);
    SameShapeText(n, RewriteImages(n));
    SameShapeClean(n, RewriteImages(n));
  }

  lemma {:induction false} RewriteImagesSameShape(n: Node)
    ensures SameShape(n, RewriteImages(n))
  {
    match n
    case TextNode(_) =>
    case Element(tag, attrs, cs) =>
      var cs' := RewriteImages(n).children;
      forall i | 0 <= i < |cs|
        ensures SameShape(cs[i], cs'[i])
      {
        RewriteImagesSameShape(cs[i]);
      }
  }

  /** Trees of the same shape show the same text. */
  lemma {:induction false} SameShapeText(a: Node, b: Node)
    requires SameShape(a, b)
    ensures StrippedText(b) == StrippedText(a)
    decreases a
  {
    if a.Element? {
      SameShapeTextAll(a.children, b.children);
    }
  }

  lemma {:induction false} SameShapeTextAll(cs: seq<Node>, ds: seq<Node>)
    requires |cs| == |ds| && forall i :: 0 <= i < |cs| ==> SameShape(cs[i], ds[i])
    ensures StrippedTextAll(ds) == StrippedTextAll(cs)
    decreases cs
  {
    if cs != [] {
      SameShapeText(cs[0], ds[0]);
      assert forall i :: 0 <= i < |cs[1..]| ==> cs[1..][i] == cs[i + 1] && ds[1..][i] == ds[i + 1];
      SameShapeTextAll(cs[1..], ds[1..]);
    }
  }

  /** A tree of the same shape as one without noise has none either. */
  lemma {:induction false} SameShapeClean(a: Node, b: Node)
    requires SameShape(a, b)
    ensures NoNoise(a) ==> NoNoise(b)
    decreases a
  {
    if a.Element? && NoNoise(a) {
      forall c | c in b.children
        ensures !IsNoise(c) && NoNoise(c)
      {
        var i :| 0 <= i < |b.children| && b.children[i] == c;
        assert a.children[i] in a.children;
        SameShapeClean(a.children[i], c);
      }
    }
  }

  /**
   * As written, a paragraph that holds only an image has no visible text
   * and is removed together with the image the first loop just rewrote.
   */
  lemma ImageOnlyParagraphRemoved(src: string)
    ensures var img := Element("img", [Attr("src", src)], []);
      Clean(Element("div", [], [Element("p", [], [img])])) == Element("div", [], [])
  {
    var img := Element("img", [Attr("src", src)], []);
    var img' := RewriteImages(img);
    var p' := Element("p", [], [img']);
    assert RewriteImages(Element("p", [], [img])) == p';
    assert StrippedText(img') == "";
    assert StrippedTextAll([img']) == "" + StrippedTextAll([]);
    assert IsEmptyParagraph(p');
    assert RemoveNoiseAll([p']) == [RemoveNoise(p')] + RemoveNoiseAll([]);
    assert RemoveNoiseAll([img']) == [RemoveNoise(img')] + RemoveNoiseAll([]);
    assert RemoveNoise(img') == img';
    assert RemoveNoise(p') == p';
  }
}
