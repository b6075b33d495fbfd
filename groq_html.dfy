/**
 * `validate_html_structure` and `clean_html_response` in
 * backend/services/groq_service.py: the structure check the Groq pipeline
 * applies to every cleaned response, and the cleaning itself.
 */
module GroqHtml {
  import opened Wrappers
  import opened Text
  import opened HtmlPatterns

  const EmptyMessage: string := "Empty HTML code"
  const TooShortMessage: string := "Generated HTML is too short (possible truncation)"
  const PlaceholderMessage: string := "Generated code contains placeholder comments"

  /** Shorter responses are taken to be truncated. */
  const MinLength: nat := 300

  /** The required elements, in the order they are checked, with the message for each. */
  const Markers: seq<string> := ["<!doctype html", "<html", "<head", "<body", "</html>"]
  const MissingMessages: seq<string> := [
    "Missing DOCTYPE declaration",
    "Missing <html> tag",
    "Missing <head> tag",
    "Missing <body> tag",
    "Missing closing </html> tag"
  ]

  /** The placeholder-comment patterns, each searched for ignoring case. */
  const Placeholders: seq<seq<Piece>> := [
    [Lit("//"), Spaces, Lit("add"), Line, Lit("code")],
    [Lit("//"), Spaces, Lit("todo")],
    [Lit("//"), Spaces, Lit("implement")],
    [Lit("/*"), Spaces, Lit("add"), Line, Lit("*/")],
    [Lit("//"), Spaces, Lit("your"), Line, Lit("code"), Line, Lit("here")],
    [Lit("//"), Spaces, Lit("placeholder")]
  ]

  predicate Blank(s: string) {
    Strip(s) == []
  }

  predicate HasMarker(s: string, k: nat)
    requires k < |Markers|
  {
    ContainsLower(s, Markers[k])
  }

  predicate AllMarkers(s: string) {
    forall k | 0 <= k < |Markers| :: HasMarker(s, k)
  }

  predicate HasPlaceholder(s: string) {
    exists k | 0 <= k < |Placeholders| :: Search(s, Placeholders[k])
  }

  /** The first required element, from number `k` on, that `s` lacks. */
  function FirstMissing(s: string, k: nat): (r: Option<nat>)
    requires k <= |Markers|
    ensures r.Some? ==> k <= r.value < |Markers| && !HasMarker(s, r.value)
    ensures r.Some? ==> forall j | k <= j < r.value :: HasMarker(s, j)
    ensures r.None? ==> forall j | k <= j < |Markers| :: HasMarker(s, j)
    decreases |Markers| - k
  {
    if k == |Markers| then None
    else if !HasMarker(s, k) then Some(k)
    else FirstMissing(s, k + 1)
  }

  /**
   * `validate_html_structure`: blank input first, then the required elements in
   * order, then the length, then placeholder comments.
   */
  function ValidateHtmlStructure(s: string): (r: (bool, string))
    ensures r.0 <==> r.1 == ""
    ensures r == (true, "") <==> !Blank(s) && AllMarkers(s) && |s| >= MinLength && !HasPlaceholder(s)
  {
    if Blank(s) then (false, EmptyMessage)
    else match FirstMissing(s, 0)
      case Some(k) => (false, MissingMessages[k])
      case None =>
        if |s| < MinLength then (false, TooShortMessage)
        else if HasPlaceholder(s) then (false, PlaceholderMessage)
        else (true, "")
  }

  /** Empty or whitespace-only input is reported as such, before anything else. */
  lemma ValidateBlank(s: string)
    requires Blank(s)
    ensures ValidateHtmlStructure(s) == (false, EmptyMessage)
  {
  }

  /** The first required element missing decides the message, whatever else is wrong. */
  lemma {:induction false} ValidateFirstMissing(s: string, k: nat)
    requires !Blank(s) && k < |Markers| && !HasMarker(s, k)
    requires forall j | 0 <= j < k :: HasMarker(s, j)
    ensures ValidateHtmlStructure(s) == (false, MissingMessages[k])
  {
    assert FirstMissing(s, 0).Some?;
  }

  /** The length is only looked at once all required elements are present. */
  lemma ValidateTooShort(s: string)
    requires !Blank(s) && AllMarkers(s) && |s| < MinLength
    ensures ValidateHtmlStructure(s) == (false, TooShortMessage)
  {
    assert FirstMissing(s, 0).None?;
  }

  /** Placeholder comments are looked for last. */
  lemma ValidatePlaceholder(s: string)
    requires !Blank(s) && AllMarkers(s) && |s| >= MinLength && HasPlaceholder(s)
    ensures ValidateHtmlStructure(s) == (false, PlaceholderMessage)
  {
    assert FirstMissing(s, 0).None?;
  }

  /** Stripping and both MULTILINE fence substitutions, the first steps of the cleaning. */
  function StripFences(raw: string): string {
    DropCloseFenceLines(DropOpenFenceLines(Strip(raw), 0), 0)
  }

  /**
   * The text from the first `<!DOCTYPE\s+html` on, or else from the first
   * `<html(?:\s|>)` on, or else the whole text.
   */
  function CutBeforeDocument(s: string): (r: string)
    ensures FirstFrom(s, DoctypeAt, 0).Some? ==> r == s[FirstFrom(s, DoctypeAt, 0).value..]
    ensures FirstFrom(s, DoctypeAt, 0).None? && FirstFrom(s, HtmlOpenAt, 0).Some? ==>
              r == s[FirstFrom(s, HtmlOpenAt, 0).value..]
    ensures FirstFrom(s, DoctypeAt, 0).None? && FirstFrom(s, HtmlOpenAt, 0).None? ==> r == s
  {
    match FirstFrom(s, DoctypeAt, 0)
    case Some(p) => s[p..]
    case None =>
      match FirstFrom(s, HtmlOpenAt, 0)
      case Some(p) => s[p..]
      case None => s
  }

  const DoctypeLine: string := "<!DOCTYPE html>\n"
  const HtmlLine: string := "<html lang=\"en\">\n"
  const HeadLine: string := "<head>\n"
  const MetaLines: string :=
    "    <meta charset=\"UTF-8\">\n"
    + "    <meta name=\"viewport\" content=\"width=device-width, initial-scale=1.0\">\n"
    + "    <title>Animation</title>\n"
  const StyleLines: string :=
    "    <style>\n"
    + "        body { margin: 0; padding: 0; overflow: hidden; }\n"
    + "    </style>\n"
  const HeadEnd: string := "</head>\n"
  const HeadContent: string := MetaLines + StyleLines + HeadEnd
  const BodyLine: string := "<body>\n"
  const WrapTail: string := "\n</body>\n</html>"

  /** Everything the fallback page puts before the wrapped text. */
  function WrapHead(): (h: string)
    ensures |h| == 269
  {
    DoctypeLine + HtmlLine + HeadLine + HeadContent + BodyLine
  }

  /** The fallback page the text is put into when it has no `<html` and no `<body`. */
  function Wrap(body: string): (r: string)
    ensures |r| == |WrapHead()| + |body| + |WrapTail|
    ensures r[..15] == "<!DOCTYPE html>" && r[|r| - 7..] == "</html>"
    ensures r[..|WrapHead()|] == WrapHead() && r[|WrapHead()|..|WrapHead()| + |body|] == body
  {
    WrapHead() + body + WrapTail
  }

  /** Wrapping only what has neither `<html` nor `<body`, after everything else. */
  function WrapIfBare(c: string): (r: string)
    requires Unpadded(c)
    ensures |r| > 0 && !IsSpace(r[0]) && !IsSpace(r[|r| - 1])
  {
    if !ContainsLower(c, "<html") && !ContainsLower(c, "<body") then Wrap(c) else c
  }

  /** The text `clean_html_response` has before it decides whether to wrap. */
  function Extract(raw: string): (c: string)
    ensures Unpadded(c)
  {
    Strip(CutAfterHtmlClose(CutBeforeDocument(StripFences(raw))))
  }

  /** `clean_html_response`. */
  function CleanHtmlResponse(raw: string): (r: string)
    ensures |r| > 0 && !IsSpace(r[0]) && !IsSpace(r[|r| - 1])
  {
    WrapIfBare(Extract(raw))
  }

  /** Each required element sits in one line of the fallback page. */
  lemma WrapLinesHaveMarkers()
    ensures ContainsLower(DoctypeLine, Markers[0]) && ContainsLower(HtmlLine, Markers[1])
    ensures ContainsLower(HeadLine, Markers[2]) && ContainsLower(BodyLine, Markers[3])
    ensures ContainsLower(WrapTail, Markers[4])
  {
    assert OccursAt(Lower(DoctypeLine), 0, Markers[0]);
    assert OccursAt(Lower(HtmlLine), 0, Markers[1]);
    assert OccursAt(Lower(HeadLine), 0, Markers[2]);
    assert OccursAt(Lower(BodyLine), 0, Markers[3]);
    assert OccursAt(Lower(WrapTail), 9, Markers[4]);
  }

  /** The fallback page carries every required element. */
  lemma WrapHasMarkers(body: string)
    ensures AllMarkers(Wrap(body))
  {
    forall k | 0 <= k < |Markers|
      ensures HasMarker(Wrap(body), k)
    {
      WrapHasMarker(body, k);
    }
  }

  lemma WrapHasMarker(body: string, k: nat)
    requires k < |Markers|
    ensures HasMarker(Wrap(body), k)
  {
    WrapLinesHaveMarkers();
    PageHasMarker(DoctypeLine, HtmlLine, HeadLine, HeadContent, BodyLine, body, WrapTail, k);
  }

  lemma PageHasMarker(a: string, b: string, c: string, d: string, e: string, body: string, t: string, k: nat)
    requires k < |Markers|
    requires ContainsLower(a, Markers[0]) && ContainsLower(b, Markers[1])
    requires ContainsLower(c, Markers[2]) && ContainsLower(e, Markers[3])
    requires ContainsLower(t, Markers[4])
    ensures HasMarker(a + b + c + d + e + body + t, k)
  {
    var w := a + b + c + d + e + body + t;
    var n := |a| + |b| + |c| + |d| + |e| + |body|;
    if k == 0 {
      ContainsLowerAt(w, 0, a, Markers[0]);
    } else if k == 1 {
      ContainsLowerAt(w, |a|, b, Markers[1]);
    } else if k == 2 {
      ContainsLowerAt(w, |a| + |b|, c, Markers[2]);
    } else if k == 3 {
      ContainsLowerAt(w, |a| + |b| + |c| + |d|, e, Markers[3]);
    } else {
      ContainsLowerAt(w, n, t, Markers[4]);
    }
  }

  /**
   * What the validator makes of the fallback page: every structural check
   * passes, the page is too short exactly when the wrapped text has fewer than
   * 15 characters, and otherwise only placeholder comments can fail it.
   */
  lemma ValidateWrap(body: string)
    ensures ValidateHtmlStructure(Wrap(body)).1 in {"", TooShortMessage, PlaceholderMessage}
    ensures ValidateHtmlStructure(Wrap(body)).1 == TooShortMessage <==> |body| < 15
  {
    var w := Wrap(body);
    WrapHasMarkers(body);
    assert !Blank(w) by {
      assert w[0] == '<';
    }
    assert FirstMissing(w, 0).None?;
  }

  /** Whatever the response, the cleaned text names an `<html` or a `<body` element. */
  lemma CleanNamesDocument(raw: string)
    ensures ContainsLower(CleanHtmlResponse(raw), "<html") || ContainsLower(CleanHtmlResponse(raw), "<body")
  {
    WrapIfBareNamesDocument(Extract(raw));
  }

  lemma WrapIfBareNamesDocument(c: string)
    requires Unpadded(c)
    ensures ContainsLower(WrapIfBare(c), "<html") || ContainsLower(WrapIfBare(c), "<body")
  {
    if !ContainsLower(c, "<html") && !ContainsLower(c, "<body") {
      WrapHasMarker(c, 1);
    }
  }

  /** The cleaned text is never reported as empty by the validator. */
  lemma CleanIsNeverBlank(raw: string)
    ensures ValidateHtmlStructure(CleanHtmlResponse(raw)).1 != EmptyMessage
  {
    UnpaddedIsNeverBlank(CleanHtmlResponse(raw));
  }

  lemma UnpaddedIsNeverBlank(r: string)
    requires |r| > 0 && !IsSpace(r[0]) && !IsSpace(r[|r| - 1])
    ensures ValidateHtmlStructure(r).1 != EmptyMessage
  {
    TrimWithUnpadded(r, IsSpace);
  }

  /**
   * A response whose extracted text names neither element becomes the
   * fallback page around that text: it starts with the DOCTYPE, ends with
   * `</html>`, passes every structural check, and is too short exactly when
   * the text has fewer than 15 characters.
   */
  lemma CleanWrapsBareText(raw: string)
    requires !ContainsLower(Extract(raw), "<html") && !ContainsLower(Extract(raw), "<body")
    ensures var r, c := CleanHtmlResponse(raw), Extract(raw);
            && r[..15] == "<!DOCTYPE html>" && r[|r| - 7..] == "</html>"
            && r[|WrapHead()|..|WrapHead()| + |c|] == c
            && AllMarkers(r)
            && ValidateHtmlStructure(r).1 in {"", TooShortMessage, PlaceholderMessage}
            && (ValidateHtmlStructure(r).1 == TooShortMessage <==> |c| < 15)
  {
    WrapHasMarkers(Extract(raw));
    ValidateWrap(Extract(raw));
  }

  /**
   * A response with a document start (a DOCTYPE, or an `<html` tag followed
   * by whitespace or '>') and a `</html\s*>` after it is cut down to exactly
   * the text from that start to the end of the first closing tag, provided that
   * text names an `<html` or `<body` element.
   */
  lemma CleanKeepsDocument(raw: string)
    requires FirstFrom(StripFences(raw), DoctypeAt, 0).Some? || FirstFrom(StripFences(raw), HtmlOpenAt, 0).Some?
    requires FirstFrom(CutBeforeDocument(StripFences(raw)), HtmlCloseAt, 0).Some?
    ensures var d := CutBeforeDocument(StripFences(raw));
            var e := HtmlCloseEnd(d, FirstFrom(d, HtmlCloseAt, 0).value);
            ContainsLower(d[..e], "<html") || ContainsLower(d[..e], "<body") ==>
            CleanHtmlResponse(raw) == d[..e]
  {
    ExtractKeepsDocument(raw);
  }

  /** The extraction step alone: from the document start to the end of the first closing tag. */
  lemma ExtractKeepsDocument(raw: string)
    requires FirstFrom(StripFences(raw), DoctypeAt, 0).Some? || FirstFrom(StripFences(raw), HtmlOpenAt, 0).Some?
    requires FirstFrom(CutBeforeDocument(StripFences(raw)), HtmlCloseAt, 0).Some?
    ensures var d := CutBeforeDocument(StripFences(raw));
            Extract(raw) == d[..HtmlCloseEnd(d, FirstFrom(d, HtmlCloseAt, 0).value)]
  {
    DocumentStartsWithAngle(StripFences(raw));
    CutDocumentIsUnpadded(CutBeforeDocument(StripFences(raw)));
  }

  /** Once a document start is found, the text is cut to begin with its '<'. */
  lemma DocumentStartsWithAngle(s: string)
    requires FirstFrom(s, DoctypeAt, 0).Some? || FirstFrom(s, HtmlOpenAt, 0).Some?
    ensures |CutBeforeDocument(s)| > 0 && CutBeforeDocument(s)[0] == '<'
  {
    if FirstFrom(s, DoctypeAt, 0).Some? {
      CiAtAngle(s, FirstFrom(s, DoctypeAt, 0).value, "<!doctype");
    } else {
      CiAtAngle(s, FirstFrom(s, HtmlOpenAt, 0).value, "<html");
    }
  }

  lemma CutAtCloseIsUnpadded(d: string, p: nat)
    requires |d| > 0 && d[0] == '<' && HtmlCloseAt(d, p)
    ensures Strip(d[..HtmlCloseEnd(d, p)]) == d[..HtmlCloseEnd(d, p)]
  {
    var c := d[..HtmlCloseEnd(d, p)];
    assert c[0] == '<' && c[|c| - 1] == '>';
    TrimWithUnpadded(c, IsSpace);
  }

  /** A text from '<' to the end of its first closing tag has nothing to strip. */
  lemma CutDocumentIsUnpadded(d: string)
    requires |d| > 0 && d[0] == '<' && FirstFrom(d, HtmlCloseAt, 0).Some?
    ensures Strip(CutAfterHtmlClose(d)) == d[..HtmlCloseEnd(d, FirstFrom(d, HtmlCloseAt, 0).value)]
  {
    CutAtCloseIsUnpadded(d, FirstFrom(d, HtmlCloseAt, 0).value);
  }
}
