/**
 * One result card (components/LogoCard.tsx): the download file name, the guards
 * of the two download actions, and what the card shows. Creating, clicking and
 * removing the link element, and the Blob and object URL, are browser I/O and
 * are not modelled; a download is modelled as the link it would click.
 */
module LogoCard {
  import opened Wrappers
  import opened Types
  import opened Text

  datatype Format = Png | Svg

  /** Where the download link points. */
  datatype Href =
    | DataUrl(url: string)        // an inline `data:` URL
    | SvgBlobUrl(svgCode: string) // an object URL for a Blob holding this SVG text

  /** The link `handleDownload` clicks: its target and its `download` file name. */
  datatype Link = Link(href: Href, download: string)

  /** What the image area of the card shows. */
  datatype CardImage = Img(src: string, alt: string) | NotAvailable

  const PngDataPrefix := "data:image/png;base64,"

  /** The characters a reader sees in a name: neither whitespace nor `_`. */
  function Visible(s: string): (v: string)
    ensures |v| <= |s|
  {
    if s == [] then []
    else if IsSpace(s[0]) || s[0] == '_' then Visible(s[1..])
    else [s[0]] + Visible(s[1..])
  }

  lemma {:induction false} VisibleConcat(a: string, b: string)
    ensures Visible(a + b) == Visible(a) + Visible(b)
  {
    if a == [] {
      assert a + b == b;
    } else {
      assert (a + b)[0] == a[0];
      assert (a + b)[1..] == a[1..] + b;
      VisibleConcat(a[1..], b);
    }
  }

  /** Dropping leading whitespace drops nothing visible. */
  lemma {:induction false} VisibleTrimStart(s: string)
    ensures Visible(TrimStart(s)) == Visible(s)
  {
    if s != [] && IsSpace(s[0]) {
      VisibleTrimStart(s[1..]);
      TrimStartSkip(s);
    } else {
      assert LeadingSpaces(s) == 0;
    }
  }

  /**
   * `name.replace(/\s+/g, '_')`: every maximal run of whitespace becomes a
   * single `_`. No whitespace is left, and apart from the underscores the
   * characters are the name's own, in their order.
   */
  function DownloadStem(name: string): (r: string)
    ensures NoSpace(r)
    ensures Visible(r) == Visible(name)
    ensures |r| <= |name|
    decreases |name|
  {
    if name == [] then []
    else if IsSpace(name[0]) then
      var rest := TrimStart(name);
      VisibleTrimStart(name);
      assert (['_'] + DownloadStem(rest))[1..] == DownloadStem(rest);
      ['_'] + DownloadStem(rest)
    else
      assert ([name[0]] + DownloadStem(name[1..]))[1..] == DownloadStem(name[1..]);
      [name[0]] + DownloadStem(name[1..])
  }

  /**
   * The same replacement read one character at a time: a whitespace character
   * becomes `_` unless the character before it was whitespace too, in which case
   * it is dropped.
   */
  function Collapse(s: string, afterSpace: bool): string {
    if s == [] then []
    else if IsSpace(s[0]) then (if afterSpace then [] else ['_']) + Collapse(s[1..], true)
    else [s[0]] + Collapse(s[1..], false)
  }

  lemma {:induction false} CollapseSkipsRun(s: string)
    ensures Collapse(s, true) == Collapse(TrimStart(s), false)
  {
    if s != [] && IsSpace(s[0]) {
      CollapseSkipsRun(s[1..]);
      TrimStartSkip(s);
    } else {
      assert LeadingSpaces(s) == 0;
    }
  }

  /** Replacing whole runs and collapsing character by character agree on every name. */
  lemma {:induction false} StemIsCollapse(name: string)
    ensures DownloadStem(name) == Collapse(name, false)
    decreases |name|
  {
    if name != [] {
      if IsSpace(name[0]) {
        CollapseSkipsRun(name[1..]);
        TrimStartSkip(name);
        StemIsCollapse(TrimStart(name));
      } else {
        StemIsCollapse(name[1..]);
      }
    }
  }

  function Suffix(format: Format): string {
    match format
    case Png => "_logo.png"
    case Svg => "_logo.svg"
  }

  /** The `download` attribute: the stem followed by `_logo.png` or `_logo.svg`. */
  function FileName(name: string, format: Format): (f: string)
    ensures NoSpace(f)
    ensures Visible(f) == Visible(name) + Visible(Suffix(format))
  {
    var stem, suffix := DownloadStem(name), Suffix(format);
    assert NoSpace(suffix);
    NoSpaceConcat(stem, suffix);
    VisibleConcat(stem, suffix);
    stem + suffix
  }

  /** The PNG and SVG file names share their stem and differ only in the extension. */
  lemma SameStem(name: string)
    ensures var p, s := FileName(name, Png), FileName(name, Svg);
      && |p| == |s|
      && p[..|p| - 3] == s[..|s| - 3]
      && p[|p| - 3..] == "png" && s[|s| - 3..] == "svg"
  {
    var stem := DownloadStem(name);
    var p, s := stem + Suffix(Png), stem + Suffix(Svg);
    assert FileName(name, Png) == p && FileName(name, Svg) == s;
    assert p[..|p| - 3] == stem + "_logo." == s[..|s| - 3];
    assert p[|p| - 3..] == "png" && s[|s| - 3..] == "svg";
  }

  /** The payload a format downloads. */
  function Payload(result: GeneratedResult, format: Format): string {
    match format
    case Png => result.pngBase64
    case Svg => result.svgCode
  }

  /** `disabled={!pngBase64}` and `disabled={!svgCode}`. */
  predicate DownloadDisabled(result: GeneratedResult, format: Format) {
    match format
    case Png => result.pngBase64 == ""
    case Svg => result.svgCode == ""
  }

  /**
   * `handleDownload(format)`: returns early, clicking nothing, when the payload
   * is empty; otherwise clicks a link to the payload named after the business.
   */
  function HandleDownload(result: GeneratedResult, format: Format): (link: Option<Link>)
    ensures link.None? <==> Payload(result, format) == ""
    ensures link.Some? ==> link.value.download == FileName(result.name, format)
    ensures link.Some? && format == Png ==> link.value.href == DataUrl(PngDataPrefix + result.pngBase64)
    ensures link.Some? && format == Svg ==> link.value.href == SvgBlobUrl(result.svgCode)
  {
    match format
    case Png =>
      if result.pngBase64 == "" then None
      else Some(Link(DataUrl(PngDataPrefix + result.pngBase64), FileName(result.name, Png)))
    case Svg =>
      if result.svgCode == "" then None
      else Some(Link(SvgBlobUrl(result.svgCode), FileName(result.name, Svg)))
  }

  /**
   * A button is disabled exactly when clicking it would do nothing, and each
   * button depends on its own payload only.
   */
  lemma DisabledIffNoDownload(result: GeneratedResult, format: Format, other: string)
    ensures DownloadDisabled(result, format) <==> HandleDownload(result, format).None?
    ensures DownloadDisabled(result.(svgCode := other), Png) == DownloadDisabled(result, Png)
    ensures DownloadDisabled(result.(pngBase64 := other), Svg) == DownloadDisabled(result, Svg)
  {
  }

  /** The image area: the PNG when there is one, otherwise "Logo not available". */
  function Image(result: GeneratedResult): (img: CardImage)
    ensures img.Img? <==> result.pngBase64 != ""
    ensures img.Img? ==> img.src == PngDataPrefix + result.pngBase64 && img.alt == result.name + " Logo"
  {
    if result.pngBase64 != "" then Img(PngDataPrefix + result.pngBase64, result.name + " Logo")
    else NotAvailable
  }

  /** The image is shown exactly when the PNG download is enabled, and both point at the same data. */
  lemma ImageShownIffPngDownload(result: GeneratedResult)
    ensures Image(result).Img? <==> !DownloadDisabled(result, Png)
    ensures Image(result).Img? ==> HandleDownload(result, Png).value.href == DataUrl(Image(result).src)
  {
  }

  /** A word (a non-empty run without whitespace) is copied as it is. */
  lemma {:induction false} CollapseWord(w: string, rest: string, afterSpace: bool)
    requires w != [] && NoSpace(w)
    ensures Collapse(w + rest, afterSpace) == w + Collapse(rest, false)
    decreases |w|
  {
    assert (w + rest)[0] == w[0];
    assert (w + rest)[1..] == w[1..] + rest;
    if |w| > 1 {
      CollapseWord(w[1..], rest, false);
    } else {
      assert w[1..] + rest == rest;
    }
    assert w == [w[0]] + w[1..];
  }

  /** A whitespace run turns into a single `_`, or into nothing right after whitespace. */
  lemma {:induction false} CollapseRun(sp: string, rest: string, afterSpace: bool)
    requires AllSpace(sp)
    ensures Collapse(sp + rest, afterSpace) ==
      (if afterSpace || sp == [] then [] else ['_']) + Collapse(rest, afterSpace || sp != [])
    decreases |sp|
  {
    if sp == [] {
      assert sp + rest == rest;
    } else {
      assert (sp + rest)[0] == sp[0];
      assert (sp + rest)[1..] == sp[1..] + rest;
      CollapseRun(sp[1..], rest, true);
    }
  }

  /** Three words separated by whitespace runs of any length are joined by single underscores. */
  lemma {:induction false} ThreeWords(w1: string, sp1: string, w2: string, sp2: string, w3: string)
    requires w1 != [] && w2 != [] && w3 != [] && NoSpace(w1) && NoSpace(w2) && NoSpace(w3)
    requires sp1 != [] && sp2 != [] && AllSpace(sp1) && AllSpace(sp2)
    ensures DownloadStem(w1 + sp1 + w2 + sp2 + w3) == w1 + "_" + w2 + "_" + w3
  {
    var t3 := sp2 + w3;
    var t2 := w2 + t3;
    var t1 := sp1 + t2;
    var name := w1 + t1;
    assert w1 + sp1 + w2 + sp2 + w3 == name;
    CollapseWord(w3, [], true);
    assert w3 + [] == w3;
    assert Collapse(w3, true) == w3;
    CollapseRun(sp2, w3, false);
    assert Collapse(t3, false) == ['_'] + w3;
    CollapseWord(w2, t3, false);
    assert Collapse(t2, false) == w2 + (['_'] + w3);
    CollapseRun(sp1, t2, false);
    assert Collapse(t1, false) == ['_'] + (w2 + (['_'] + w3));
    CollapseWord(w1, t1, false);
    assert Collapse(name, false) == w1 + (['_'] + (w2 + (['_'] + w3)));
    assert w1 + (['_'] + (w2 + (['_'] + w3))) == w1 + "_" + w2 + "_" + w3;
    StemIsCollapse(name);
  }

}
