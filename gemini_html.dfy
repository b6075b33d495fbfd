/**
 * The cleaning inside `generate_animation` in backend/services/gemini_service.py
 * and the way its failures surface. The steps are those of the Groq pipeline
 * in another order and with other patterns: the document start is any
 * `<html`, the closing tag is cut before fences are removed, and the fences
 * are only removed at the very start and the very end of the whole text.
 */
module GeminiHtml {
  import opened Wrappers
  import opened Text
  import opened HtmlPatterns
  import opened GroqHtml

  const ErrorPrefix: string := "Gemini API error: "
  const EmptyResponseMessage: string := "Empty response from Gemini"

  /**
   * The text from the first `<!DOCTYPE\s+html` on, or else from the first
   * `<html` on (nothing required after it), or else the whole text.
   */
  function GeminiStart(s: string): (r: string)
    ensures FirstFrom(s, DoctypeAt, 0).Some? ==> r == s[FirstFrom(s, DoctypeAt, 0).value..]
    ensures FirstFrom(s, DoctypeAt, 0).None? && FirstFrom(s, HtmlTagAt, 0).Some? ==>
              r == s[FirstFrom(s, HtmlTagAt, 0).value..]
    ensures FirstFrom(s, DoctypeAt, 0).None? && FirstFrom(s, HtmlTagAt, 0).None? ==> r == s
  {
    match FirstFrom(s, DoctypeAt, 0)
    case Some(p) => s[p..]
    case None =>
      match FirstFrom(s, HtmlTagAt, 0)
      case Some(p) => s[p..]
      case None => s
  }

  /** Everything the Gemini fallback page puts before the wrapped text: no style block. */
  function GeminiWrapHead(): (h: string)
    ensures |h| == 186
  {
    DoctypeLine + HtmlLine + HeadLine + (MetaLines + HeadEnd) + BodyLine
  }

  /** The Gemini fallback page around `body`. */
  function GeminiWrap(body: string): (r: string)
    ensures |r| == |GeminiWrapHead()| + |body| + |WrapTail|
    ensures r[..15] == "<!DOCTYPE html>" && r[|r| - 7..] == "</html>"
    ensures r[..|GeminiWrapHead()|] == GeminiWrapHead()
    ensures r[|GeminiWrapHead()|..|GeminiWrapHead()| + |body|] == body
  {
    GeminiWrapHead() + body + WrapTail
  }

  /** Wrapping only what has neither `<html` nor `<body`. */
  function GeminiWrapIfBare(c: string): (r: string)
    requires Unpadded(c)
    ensures |r| > 0 && !IsSpace(r[0]) && !IsSpace(r[|r| - 1])
  {
    if !ContainsLower(c, "<html") && !ContainsLower(c, "<body") then GeminiWrap(c) else c
  }

  /** The text the Gemini pipeline has before it decides whether to wrap. */
  function GeminiExtract(text: string): (c: string)
    ensures Unpadded(c)
  {
    Strip(DropCloseFence(DropOpenFence(CutAfterHtmlClose(GeminiStart(Strip(text))))))
  }

  /** The cleaning of a non-empty reply. */
  function GeminiClean(text: string): (r: string)
    ensures |r| > 0 && !IsSpace(r[0]) && !IsSpace(r[|r| - 1])
  {
    GeminiWrapIfBare(GeminiExtract(text))
  }

  /** What the client hands back: the reply's text, or the message of the exception it raised. */
  datatype ApiReply = Reply(text: string) | Failure(message: string)

  /**
   * `generate_animation` once the model has answered: an empty text raises
   * "Empty response from Gemini", and every exception is re-raised with the
   * prefix "Gemini API error: ".
   */
  function GenerateAnimation(reply: ApiReply): (r: Result<string, string>)
    ensures r.Ok? <==> reply.Reply? && reply.text != []
    ensures r.Ok? ==> r.value == GeminiClean(reply.text)
    ensures r.Err? ==> |ErrorPrefix| <= |r.error| && r.error[..|ErrorPrefix|] == ErrorPrefix
    ensures reply.Failure? ==> r.Err? && r.error[|ErrorPrefix|..] == reply.message
    ensures reply == Reply([]) ==> r.Err? && r.error[|ErrorPrefix|..] == EmptyResponseMessage
  {
    match reply
    case Failure(m) => Err(ErrorPrefix + m)
    case Reply(t) =>
      if t == [] then Err(ErrorPrefix + EmptyResponseMessage)
      else Ok(GeminiClean(t))
  }

  /** The Gemini fallback page carries every element the structure check requires. */
  lemma GeminiWrapHasMarkers(body: string)
    ensures AllMarkers(GeminiWrap(body))
  {
    WrapLinesHaveMarkers();
    forall k | 0 <= k < |Markers|
      ensures HasMarker(GeminiWrap(body), k)
    {
      PageHasMarker(DoctypeLine, HtmlLine, HeadLine, MetaLines + HeadEnd, BodyLine, body, WrapTail, k);
    }
  }

  lemma GeminiWrapIfBareNamesDocument(c: string)
    requires Unpadded(c)
    ensures ContainsLower(GeminiWrapIfBare(c), "<html") || ContainsLower(GeminiWrapIfBare(c), "<body")
  {
    if !ContainsLower(c, "<html") && !ContainsLower(c, "<body") {
      GeminiWrapHasMarkers(c);
      assert HasMarker(GeminiWrap(c), 1);
    }
  }

  /** Whatever the reply, a successful result names an `<html` or a `<body` element. */
  lemma GeminiNamesDocument(reply: ApiReply)
    requires GenerateAnimation(reply).Ok?
    ensures var r := GenerateAnimation(reply).value;
            ContainsLower(r, "<html") || ContainsLower(r, "<body")
  {
    GeminiWrapIfBareNamesDocument(GeminiExtract(reply.text));
  }

  /**
   * The wrapping decision, both ways: an extracted text naming neither `<html`
   * nor `<body` becomes the fallback page around it, which names every
   * required element; any other extracted text is the result unchanged.
   */
  lemma GeminiWrapsExactlyBareText(text: string)
    ensures var c := GeminiExtract(text);
            !ContainsLower(c, "<html") && !ContainsLower(c, "<body") ==>
              GeminiClean(text) == GeminiWrap(c) && AllMarkers(GeminiClean(text))
    ensures var c := GeminiExtract(text);
            ContainsLower(c, "<html") || ContainsLower(c, "<body") ==> GeminiClean(text) == c
  {
    GeminiWrapHasMarkers(GeminiExtract(text));
  }

  /**
   * When the first `<html` is followed by whitespace or '>', both pipelines
   * start the document at the same place.
   */
  lemma StartsAgree(s: string)
    requires FirstFrom(s, HtmlTagAt, 0).Some?
    requires HtmlOpenAt(s, FirstFrom(s, HtmlTagAt, 0).value)
    ensures GeminiStart(s) == CutBeforeDocument(s)
  {
    var p := FirstFrom(s, HtmlTagAt, 0).value;
    var o := FirstFrom(s, HtmlOpenAt, 0);
    assert o.Some?;
    if o.value < p {
      assert HtmlTagAt(s, o.value);
    }
  }

  /**
   * A tag name that merely starts with "html" is a document start for the
   * Gemini pipeline but not for the Groq one.
   */
  lemma StartsDiffer(s: string)
    requires s == "a<htmlx"
    ensures Extract(s) == s
    ensures GeminiExtract(s) == s[1..]
  {
    GroqSkipsLongerTag(s);
    GeminiTakesLongerTag(s);
  }

  lemma GroqSkipsLongerTag(s: string)
    requires s == "a<htmlx"
    ensures Extract(s) == s
  {
    TrimWithUnpadded(s, IsSpace);
    NoFence(s);
    assert FirstFrom(s, OpenFenceLineAt, 0).None?;
    assert FirstFrom(s, CloseFenceLineAt, 0).None?;
    assert FirstFrom(s, DoctypeAt, 0).None?;
    assert FirstFrom(s, HtmlOpenAt, 0).None? by {
      if FirstFrom(s, HtmlOpenAt, 0).Some? {
        CiAtAngle(s, FirstFrom(s, HtmlOpenAt, 0).value, "<html");
      }
    }
    assert FirstFrom(s, HtmlCloseAt, 0).None?;
  }

  lemma GeminiTakesLongerTag(s: string)
    requires s == "a<htmlx"
    ensures GeminiExtract(s) == s[1..]
  {
    TrimWithUnpadded(s, IsSpace);
    GeminiStartsAtLongerTag(s);
    var g := s[1..];
    TrimWithUnpadded(g, IsSpace);
    NoFence(g);
    assert FirstFrom(g, HtmlCloseAt, 0).None?;
    assert FirstFrom(g, CloseFenceAtEnd, 0).None?;
  }

  lemma GeminiStartsAtLongerTag(s: string)
    requires s == "a<htmlx"
    ensures GeminiStart(s) == s[1..]
  {
    assert FirstFrom(s, DoctypeAt, 0).None?;
    assert !HtmlTagAt(s, 0) by {
      if HtmlTagAt(s, 0) {
        CiAtChar(s, 0, "<html", 0);
      }
    }
    assert s[1..6] == "<html";
    assert HtmlTagAt(s, 1);
  }

  /**
   * A fence on a line of its own inside the text is removed by the Groq
   * pipeline, whose substitutions work line by line, and kept by the Gemini
   * one, which only looks at the start and the end of the whole text.
   */
  lemma FencesDiffer(s: string)
    requires s == "x\n```\ny"
    ensures Extract(s) == s[..2] + s[6..]  // "x\ny"
    ensures GeminiExtract(s) == s
  {
    GroqDropsInnerFence(s);
    GeminiKeepsInnerFence(s);
  }

  lemma GroqDropsInnerFence(s: string)
    requires s == "x\n```\ny"
    ensures Extract(s) == s[..2] + s[6..]
  {
    TrimWithUnpadded(s, IsSpace);
    OpenFenceLineDropped(s);
    var t := s[..2] + s[6..];
    NoFence(t);
    assert FirstFrom(t, CloseFenceLineAt, 0).None?;
    assert StripFences(s) == t;
    NoAngle(t);
    assert CutBeforeDocument(t) == t;
    assert CutAfterHtmlClose(t) == t;
    TrimWithUnpadded(t, IsSpace);
  }

  lemma OpenFenceLineDropped(s: string)
    requires s == "x\n```\ny"
    ensures DropOpenFenceLines(s, 0) == s[..2] + s[6..]
  {
    if FenceAt(s, 0) {
      FenceChars(s, 0);
    }
    if FenceAt(s, 1) {
      FenceChars(s, 1);
    }
    assert OpenFenceLineAt(s, 2);
    assert FirstFrom(s, OpenFenceLineAt, 1) == Some(2);
    assert FirstFrom(s, OpenFenceLineAt, 0) == Some(2);
    assert IsSpace(s[5]) && !IsSpace(s[6]);
    assert SpaceRunEnd(s, 5) == 6;
    assert OpenFenceEnd(s, 2) == 6;
    assert !FenceAt(s, 6) && !FenceAt(s, 7);
    assert FirstFrom(s, OpenFenceLineAt, 6).None?;
  }

  lemma GeminiKeepsInnerFence(s: string)
    requires s == "x\n```\ny"
    ensures GeminiExtract(s) == s
  {
    TrimWithUnpadded(s, IsSpace);
    NoAngle(s);
    assert GeminiStart(s) == s;
    assert CutAfterHtmlClose(s) == s;
    assert !FenceAt(s, 0);
    assert FirstFrom(s, CloseFenceAtEnd, 0).None? by {
      forall p: nat | p <= |s| ensures !CloseFenceAtEnd(s, p) {
        var q := FenceStart(s, p);
        if FenceAt(s, q) {
          assert s[q..q + 3][0] == s[q] && s[q..q + 3][2] == s[q + 2];
          assert q == 2;
          assert SpaceRunEnd(s, 5) == 6;
        }
      }
    }
  }
}
