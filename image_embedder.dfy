/**
 * The image embedder tool: it turns an image file into an `<img>` tag with
 * a base64 data URI and one of six CSS sizing styles. Modelled here are the
 * style table with its fallback, the tag template, the extension to MIME
 * type lookup and the default alt text; the dialog, the clipboard and the
 * encoding itself are inputs.
 */
module ImageEmbedder {
  import opened Wrappers
  import opened Text

  // ---------------------------------------------------------------------
  // Sizing styles

  // Written in short pieces so that the verifier can see the characters of the text.
  const BaseStyles := "max-width: 100%; height: auto;" + " display: block; margin: 1rem auto;"

  const MobileFirstExtra := " width: 90vw; max-width: 600px;"
  const DesktopFirstExtra := " width: 80%; max-width: 800px;"
  // Written in short pieces so that the verifier can see the characters of the text.
  const ScreenshotExtra := " width: 95%; max-width: 1000px;" + " border: 1px solid #ddd;"
    + " border-radius: 4px;" + " box-shadow: 0 2px 8px rgba(0,0,0,0.1);"
  const SmallDiagramExtra := " width: 60%; max-width: 500px;"
  const FullWidthExtra := " width: 100%;"

  /** The `style` of each entry of `size_options`. */
  const SizeStyles: map<string, string> := map[
    "responsive" := BaseStyles,
    "mobile-first" := BaseStyles + MobileFirstExtra,
    "desktop-first" := BaseStyles + DesktopFirstExtra,
    "screenshot" := BaseStyles + ScreenshotExtra,
    "small-diagram" := BaseStyles + SmallDiagramExtra,
    "full-width" := BaseStyles + FullWidthExtra
  ]

  const DefaultSizeOption := "responsive"
  const DefaultAltText := "Blog image"

  /**
   * `size_options.get(size_option, size_options["responsive"])["style"]`:
   * a known option's style, and the plain responsive style for any other.
   */
  function StyleFor(sizeOption: string): (style: string)
    ensures StartsWith(style, BaseStyles)
    ensures sizeOption !in SizeStyles ==> style == BaseStyles
    ensures sizeOption in SizeStyles ==> style == SizeStyles[sizeOption]
  {
    if sizeOption in SizeStyles then SizeStyles[sizeOption] else SizeStyles[DefaultSizeOption]
  }

  /** Every option extends the base styles; the responsive one is exactly the base. */
  lemma StylesExtendBase()
    ensures SizeStyles.Keys == {"responsive", "mobile-first", "desktop-first", "screenshot", "small-diagram", "full-width"}
    ensures forall k :: k in SizeStyles ==> StartsWith(SizeStyles[k], BaseStyles)
    ensures SizeStyles["responsive"] == BaseStyles
  {
    forall k | k in SizeStyles ensures StartsWith(SizeStyles[k], BaseStyles) {
      assert k == "responsive" || SizeStyles[k] == BaseStyles + SizeStyles[k][|BaseStyles|..];
    }
  }

  // ---------------------------------------------------------------------
  // The image tag

  const TagOpen := "<img src=\"data:image/"
  const Base64Marker := ";base64,"

  /** The f-string of the tag: a data URI image with its alt text and inline style. */
  function ImgTag(mime: string, encoded: string, altText: string, style: string): string {
    TagOpen + mime + Base64Marker + encoded + "\" alt=\"" + altText + "\" style=\"" + style + "\">"
  }

  /** `create_responsive_img_tag(encoded_string, mime_type, size_option, alt_text)`. */
  function CreateResponsiveImgTag(
    encoded: string, mime: string, sizeOption: string := DefaultSizeOption, altText: string := DefaultAltText)
    : string
  {
    ImgTag(mime, encoded, altText, StyleFor(sizeOption))
  }

  /** The fields an image tag carries. */
  datatype ImgFields = ImgFields(mime: string, encoded: string, alt: string, style: string)

  /** Reads the fields back out of a tag of the generated form; the style is the rest up to the closing `">`. */
  function ParseImgTag(tag: string): Option<ImgFields> {
    if |tag| < |TagOpen| + 2 || !StartsWith(tag, TagOpen) || !EndsWith(tag, "\">") then None
    else ParseAttributes(tag[|TagOpen|..|tag| - 2])
  }

  /** The fields from the text between `<img src="data:image/` and the closing `">`. */
  function ParseAttributes(body: string): Option<ImgFields> {
    var quoted := Split(body, '"');
    if |quoted| < 5 || quoted[1] != " alt=" || quoted[3] != " style=" then None
    else
      var source := Split(quoted[0], ';');
      if |source| != 2 || !StartsWith(source[1], "base64,") then None
      else Some(ImgFields(source[0], source[1][|"base64,"|..], quoted[2], Join(quoted[4..], "\"")))
  }

  /**
   * The tag holds the MIME type, the data, the alt text and the chosen
   * style, each recoverable as long as the MIME type, the data and the alt
   * text hold no quote (and the first two no semicolon): the alt text is
   * inserted as it is, not escaped.
   */
  lemma TagRoundTrip(encoded: string, mime: string, sizeOption: string, altText: string)
    requires '"' !in mime && '"' !in encoded && '"' !in altText
    requires ';' !in mime && ';' !in encoded
    ensures ParseImgTag(CreateResponsiveImgTag(encoded, mime, sizeOption, altText))
         == Some(ImgFields(mime, encoded, altText, StyleFor(sizeOption)))
  {
    ImgTagRoundTrip(mime, encoded, altText, StyleFor(sizeOption));
  }

  lemma ImgTagRoundTrip(mime: string, encoded: string, altText: string, style: string)
    requires '"' !in mime && '"' !in encoded && '"' !in altText
    requires ';' !in mime && ';' !in encoded
    ensures ParseImgTag(ImgTag(mime, encoded, altText, style)) == Some(ImgFields(mime, encoded, altText, style))
  {
    var body := mime + Base64Marker + encoded + "\" alt=\"" + altText + "\" style=\"" + style;
    var tag := ImgTag(mime, encoded, altText, style);
    assert tag == TagOpen + body + "\">";
    assert tag[|TagOpen|..|tag| - 2] == body;
    AttributesRoundTrip(mime, encoded, altText, style);
  }

  lemma AttributesRoundTrip(mime: string, encoded: string, altText: string, style: string)
    requires '"' !in mime && '"' !in encoded && '"' !in altText
    requires ';' !in mime && ';' !in encoded
    ensures ParseAttributes(mime + Base64Marker + encoded + "\" alt=\"" + altText + "\" style=\"" + style)
         == Some(ImgFields(mime, encoded, altText, style))
  {
    var first := mime + Base64Marker + encoded;
    assert '"' !in Base64Marker;
    QuotedPieces(first, altText, style);
    var quoted := Split(first + "\" alt=\"" + altText + "\" style=\"" + style, '"');
    assert quoted[4..] == Split(style, '"');
    JoinSplit(style, '"');
    SourcePieces(mime, encoded);
    assert ("base64," + encoded)[|"base64,"|..] == encoded;
  }

  /** Splitting the attribute part of a tag at its quotes. */
  lemma QuotedPieces(first: string, alt: string, style: string)
    requires '"' !in first && '"' !in alt
    ensures Split(first + "\" alt=\"" + alt + "\" style=\"" + style, '"')
         == [first, " alt=", alt, " style="] + Split(style, '"')
  {
    var q := '"';
    var t3 := " style=" + [q] + style;
    var t2 := alt + [q] + t3;
    var t1 := " alt=" + [q] + t2;
    QuotedText(first, alt, style);
    assert q !in " alt=" && q !in " style=";
    SplitAtSeparator(" style=", style, q);
    SplitAtSeparator(alt, t3, q);
    SplitAtSeparator(" alt=", t2, q);
    SplitAtSeparator(first, t1, q);
    assert [first] + ([" alt="] + ([alt] + ([" style="] + Split(style, q))))
        == [first, " alt=", alt, " style="] + Split(style, q);
  }

  /** The attribute part of a tag with each quote written out as a separator. */
  lemma QuotedText(first: string, alt: string, style: string)
    ensures first + "\" alt=\"" + alt + "\" style=\"" + style
         == first + ['"'] + (" alt=" + ['"'] + (alt + ['"'] + (" style=" + ['"'] + style)))
  {
    var q := '"';
    assert "\" alt=\"" == [q] + " alt=" + [q];
    assert "\" style=\"" == [q] + " style=" + [q];
  }

  /** Splitting the data URI part of a tag at its semicolon. */
  lemma SourcePieces(mime: string, encoded: string)
    requires ';' !in mime && ';' !in encoded
    ensures Split(mime + ";base64," + encoded, ';') == [mime, "base64," + encoded]
  {
    var halves := [mime, "base64," + encoded];
    assert halves[1..] == ["base64," + encoded];
    assert ";base64," == ";" + "base64,";
    calc {
      mime + ";base64," + encoded;
      mime + (";" + "base64,") + encoded;
      mime + ";" + ("base64," + encoded);
      Join(halves, ";");
    }
    assert ';' !in "base64,";
    SplitJoin(halves, ';');
  }

  // ---------------------------------------------------------------------
  // File type

  /** The index of the last occurrence of `c` in `s`, or -1. */
  function LastIndexOf(s: string, c: char): (k: int)
    ensures -1 <= k < |s|
    ensures k >= 0 ==> s[k] == c
    ensures forall j :: k < j < |s| ==> s[j] != c
  {
    if s == [] then -1
    else if s[|s| - 1] == c then |s| - 1
    else LastIndexOf(s[..|s| - 1], c)
  }

  /**
   * `os.path.splitext(path)[1]` for POSIX paths: from the last dot of the
   * last path component, unless everything before that dot in the component
   * is dots (as in `.hidden`); otherwise empty.
   */
  function Extension(path: string): (ext: string)
    ensures ext == [] || (ext[0] == '.' && EndsWith(path, ext) && '.' !in ext[1..] && '/' !in ext)
  {
    var dot := LastIndexOf(path, '.');
    var sep := LastIndexOf(path, '/');
    if dot > sep && exists k :: sep + 1 <= k < dot && path[k] != '.' then
      var ext := path[dot..];
      assert path[|path| - |ext|..] == ext;
      assert forall j :: 0 <= j < |ext| ==> ext[j] == path[dot + j];
      ext
    else ""
  }

  /** A name ending in a non-dot character followed by a dotted suffix has that suffix as its extension. */
  lemma ExtensionOfSuffix(stem: string, name: string)
    requires stem != [] && stem[|stem| - 1] != '.' && stem[|stem| - 1] != '/'
    requires '.' !in name && '/' !in name
    ensures Extension(stem + "." + name) == "." + name
  {
    var path := stem + "." + name;
    assert forall j :: |stem| < j < |path| ==> path[j] == name[j - |stem| - 1];
    assert LastIndexOf(path, '.') == |stem| by {
      LastIndexAt(path, '.', |stem|);
    }
    assert LastIndexOf(path, '/') < |stem| - 1;
    assert path[|stem| - 1] != '.';
    assert path[|stem|..] == "." + name;
  }

  lemma {:induction false} LastIndexAt(s: string, c: char, k: int)
    requires 0 <= k < |s| && s[k] == c
    requires forall j :: k < j < |s| ==> s[j] != c
    ensures LastIndexOf(s, c) == k
    decreases |s|
  {
    if k < |s| - 1 {
      LastIndexAt(s[..|s| - 1], c, k);
    }
  }

  /** `extension_map`. */
  const ExtensionMap: map<string, string> := map[
    ".jpg" := "jpeg",
    ".jpeg" := "jpeg",
    ".png" := "png",
    ".gif" := "gif",
    ".webp" := "webp"
  ]

  datatype EmbedError = NoFileSelected | UnsupportedType(ext: string) | Cancelled

  /** The message shown for an error. */
  function ErrorMessage(e: EmbedError): string {
    match e
    case NoFileSelected => "No file selected, exiting."
    case UnsupportedType(ext) => "Unsupported image type: " + ext
    case Cancelled => "Cancelled by user."
  }

  /** The MIME subtype for a path, by its lower-cased extension, or the rejection of the path. */
  function MimeForPath(path: string): (r: Result<string, EmbedError>)
    ensures r.Ok? <==> Extension(LowerAscii(path)) in {".jpg", ".jpeg", ".png", ".gif", ".webp"}
    ensures r.Ok? ==> r.value in {"jpeg", "png", "gif", "webp"}
    ensures r.Err? ==> r.error == UnsupportedType(Extension(LowerAscii(path)))
  {
    var ext := Extension(LowerAscii(path));
    if ext in ExtensionMap then Ok(ExtensionMap[ext]) else Err(UnsupportedType(ext))
  }

  /** The extension of a lower-cased name ending in a dotted suffix is that suffix, lower-cased. */
  lemma LowerExtension(stem: string, name: string)
    requires stem != [] && stem[|stem| - 1] != '.' && stem[|stem| - 1] != '/'
    requires '.' !in name && '/' !in name
    ensures Extension(LowerAscii(stem + "." + name)) == "." + LowerAscii(name)
  {
    LowerAsciiAppend(stem + ".", name);
    LowerAsciiAppend(stem, ".");
    assert LowerAscii(".") == ".";
    var ls, ln := LowerAscii(stem), LowerAscii(name);
    assert ls[|ls| - 1] == ToLower(stem[|stem| - 1]);
    assert forall i :: 0 <= i < |ln| ==> ln[i] == ToLower(name[i]);
    assert '.' !in ln && '/' !in ln;
    ExtensionOfSuffix(ls, ln);
  }

  lemma LowerAsciiAppend(a: string, b: string)
    ensures LowerAscii(a + b) == LowerAscii(a) + LowerAscii(b)
  {
  }

  /** The keys of the extension table are the five names behind a dot. */
  lemma ExtensionLookup(name: string)
    ensures "." + name in ExtensionMap <==> name in {"jpg", "jpeg", "png", "gif", "webp"}
    ensures "." + name in ExtensionMap ==>
      ExtensionMap["." + name] == if name in {"jpg", "jpeg"} then "jpeg" else name
  {
    var key := "." + name;
    assert key[1..] == name;
    if name == "jpg" {
      assert key == ".jpg";
    } else if name == "jpeg" {
      assert key == ".jpeg";
    } else if name == "png" {
      assert key == ".png";
    } else if name == "gif" {
      assert key == ".gif";
    } else if name == "webp" {
      assert key == ".webp";
    } else {
      assert ".jpg"[1..] == "jpg" && ".jpeg"[1..] == "jpeg" && ".png"[1..] == "png";
      assert ".gif"[1..] == "gif" && ".webp"[1..] == "webp";
      assert key !in ExtensionMap.Keys;
    }
  }

  /**
   * Both JPEG spellings give `jpeg` and the other three their own name,
   * whatever the case of the extension in the path; any other extension is
   * rejected, with the extension in the message.
   */
  lemma MimeForNamedPath(stem: string, name: string)
    requires stem != [] && stem[|stem| - 1] != '.' && stem[|stem| - 1] != '/'
    requires '.' !in name && '/' !in name
    ensures var ln := LowerAscii(name);
      MimeForPath(stem + "." + name)
      == if ln in {"jpg", "jpeg", "png", "gif", "webp"} then Ok(if ln in {"jpg", "jpeg"} then "jpeg" else ln)
         else Err(UnsupportedType("." + ln))
  {
    LowerExtension(stem, name);
    ExtensionLookup(LowerAscii(name));
  }

  /** The message for a rejected path names its extension. */
  lemma UnsupportedMessage(stem: string, name: string)
    requires stem != [] && stem[|stem| - 1] != '.' && stem[|stem| - 1] != '/'
    requires '.' !in name && '/' !in name
    requires LowerAscii(name) !in {"jpg", "jpeg", "png", "gif", "webp"}
    ensures MimeForPath(stem + "." + name).Err?
    ensures ErrorMessage(MimeForPath(stem + "." + name).error) == "Unsupported image type: ." + LowerAscii(name)
  {
    MimeForNamedPath(stem, name);
  }

  /** A name without any dot has no extension and is rejected. */
  lemma NoExtensionRejected(path: string)
    requires '.' !in path
    ensures MimeForPath(path) == Err(UnsupportedType(""))
  {
    assert '.' !in LowerAscii(path);
  }

  /** The MIME subtypes hold neither a quote nor a semicolon. */
  lemma MimeNamesPlain(mime: string)
    requires mime in {"jpeg", "png", "gif", "webp"}
    ensures '"' !in mime && ';' !in mime
  {
  }

  /** `alt_entry.get() or "Blog image"`. */
  function AltTextOrDefault(entry: string): (alt: string)
    ensures alt != []
    ensures entry != [] ==> alt == entry
  {
    if entry == [] then DefaultAltText else entry
  }

  /**
   * The path of `main` from the chosen file to the tag: an empty choice of
   * file ends it, then the type is checked, then the dialog's choice is
   * used, and only a supported file with a chosen option yields a tag.
   */
  function EmbedImage(path: string, encoded: string, chosenOption: Option<string>, altEntry: string)
    : (r: Result<string, EmbedError>)
    ensures r.Ok? <==> path != "" && MimeForPath(path).Ok? && chosenOption.Some? && chosenOption.value != ""
    ensures path == "" ==> r == Err(NoFileSelected)
    ensures path != "" && MimeForPath(path).Err? ==> r == Err(MimeForPath(path).error)
    ensures path != "" && MimeForPath(path).Ok? && (chosenOption.None? || chosenOption.value == "")
      ==> r == Err(Cancelled)
    ensures r.Ok? ==> r.value == CreateResponsiveImgTag(encoded, MimeForPath(path).value,
      chosenOption.value, AltTextOrDefault(altEntry))
  {
    if path == "" then Err(NoFileSelected)
    else
      match MimeForPath(path)
      case Err(e) => Err(e)
      case Ok(mime) =>
        if chosenOption.None? || chosenOption.value == "" then Err(Cancelled)
        else Ok(CreateResponsiveImgTag(encoded, mime, chosenOption.value, AltTextOrDefault(altEntry)))
  }

  /** A tag produced with an empty alt entry carries the default alt text. */
  lemma EmptyAltGetsDefault(path: string, encoded: string, option: string)
    requires MimeForPath(path).Ok? && option != ""
    requires '"' !in encoded && ';' !in encoded
    ensures EmbedImage(path, encoded, Some(option), "").Ok?
    ensures ParseImgTag(EmbedImage(path, encoded, Some(option), "").value).Some?
    ensures ParseImgTag(EmbedImage(path, encoded, Some(option), "").value).value.alt == "Blog image"
  {
    assert '"' !in DefaultAltText;
    if path == "" {
      NoExtensionRejected(path);
    }
    MimeNamesPlain(MimeForPath(path).value);
    TagRoundTrip(encoded, MimeForPath(path).value, option, DefaultAltText);
  }
}
