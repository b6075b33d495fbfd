/**
 * The regular expressions the two HTML cleaning pipelines and the structure
 * validator use, written out as positional predicates over a string: where a
 * pattern matches, where its match ends, and the first position it matches at
 * (what `re.search` reports). `re.IGNORECASE` on these ASCII patterns is ASCII
 * case folding; `\s` is the set `str.isspace` accepts.
 */
module HtmlPatterns {
  import opened Wrappers
  import opened Text

  /** `t` occurs at `i` in `s` with ASCII letters compared without regard to case. */
  predicate CiAt(s: string, i: nat, t: string) {
    i + |t| <= |s| && Lower(s[i..i + |t|]) == Lower(t)
  }

  /** The end of the longest run of whitespace starting at `i` (a greedy `\s*`). */
  function SpaceRunEnd(s: string, i: nat): (e: nat)
    requires i <= |s|
    ensures i <= e <= |s|
    ensures forall k :: i <= k < e ==> IsSpace(s[k])
    ensures e == |s| || !IsSpace(s[e])
    decreases |s| - i
  {
    if i < |s| && IsSpace(s[i]) then SpaceRunEnd(s, i + 1) else i
  }

  /** The first position at or after `from` where `at` holds: `re.search` for a positional pattern. */
  function FirstFrom(s: string, at: (string, nat) -> bool, from: nat): (r: Option<nat>)
    requires from <= |s|
    ensures r.Some? ==> from <= r.value <= |s| && at(s, r.value)
    ensures r.Some? ==> forall j :: from <= j < r.value ==> !at(s, j)
    ensures r.None? ==> forall j :: from <= j <= |s| ==> !at(s, j)
    decreases |s| - from
  {
    if at(s, from) then Some(from)
    else if from == |s| then None
    else FirstFrom(s, at, from + 1)
  }

  /** A case-insensitive match of a text starting with '<' starts with '<' itself. */
  lemma CiAtAngle(s: string, i: nat, t: string)
    requires CiAt(s, i, t) && |t| > 0 && t[0] == '<'
    ensures i < |s| && s[i] == '<'
  {
    assert Lower(t)[0] == '<';
    assert Lower(s[i..i + |t|])[0] == LowerChar(s[i]);
  }

  /** Each character of a case-insensitive match lowers to the pattern's lowered character. */
  lemma CiAtChar(s: string, i: nat, t: string, k: nat)
    requires CiAt(s, i, t) && k < |t|
    ensures LowerChar(s[i + k]) == LowerChar(t[k])
  {
    assert Lower(t)[k] == Lower(s[i..i + |t|])[k];
  }

  /** A fence is three backtick characters. */
  lemma FenceChars(s: string, p: nat)
    requires FenceAt(s, p)
    ensures s[p] == '`' && s[p + 1] == '`' && s[p + 2] == '`'
  {
    assert s[p..p + 3][0] == s[p] && s[p..p + 3][1] == s[p + 1] && s[p..p + 3][2] == s[p + 2];
  }

  /** A text without backticks has no fence anywhere. */
  lemma NoFence(s: string)
    requires forall i | 0 <= i < |s| :: s[i] != '`'
    ensures forall p: nat :: !FenceAt(s, p)
  {
    forall p: nat
      ensures !FenceAt(s, p)
    {
      if p + 3 <= |s| {
        assert s[p..p + 3][0] == s[p];
      }
    }
  }

  /** A text without '<' has no tag of the document's outline anywhere. */
  lemma NoAngle(s: string)
    requires forall i | 0 <= i < |s| :: s[i] != '<'
    ensures forall i: nat :: !CiAt(s, i, "<!doctype") && !CiAt(s, i, "<html") && !CiAt(s, i, "</html")
  {
    forall i: nat | CiAt(s, i, "<!doctype") || CiAt(s, i, "<html") || CiAt(s, i, "</html")
      ensures false
    {
      if CiAt(s, i, "<!doctype") {
        CiAtAngle(s, i, "<!doctype");
      } else if CiAt(s, i, "<html") {
        CiAtAngle(s, i, "<html");
      } else {
        CiAtAngle(s, i, "</html");
      }
    }
  }

  /** `<!DOCTYPE\s+html`, ignoring case. */
  predicate DoctypeAt(s: string, i: nat) {
    CiAt(s, i, "<!doctype") &&
    var e := SpaceRunEnd(s, i + 9);
    e > i + 9 && CiAt(s, e, "html")
  }

  /** `<html(?:\s|>)`, ignoring case. */
  predicate HtmlOpenAt(s: string, i: nat) {
    CiAt(s, i, "<html") && i + 5 < |s| && (IsSpace(s[i + 5]) || s[i + 5] == '>')
  }

  /** `<html`, ignoring case. */
  predicate HtmlTagAt(s: string, i: nat) {
    CiAt(s, i, "<html")
  }

  /** `</html\s*>`, ignoring case. */
  predicate HtmlCloseAt(s: string, i: nat) {
    CiAt(s, i, "</html") &&
    var e := SpaceRunEnd(s, i + 6);
    e < |s| && s[e] == '>'
  }

  /** Where a `</html\s*>` match starting at `i` ends. */
  function HtmlCloseEnd(s: string, i: nat): (e: nat)
    requires HtmlCloseAt(s, i)
    ensures i + 7 <= e <= |s| && s[e - 1] == '>'
    ensures CiAt(s, i, "</html")
  {
    SpaceRunEnd(s, i + 6) + 1
  }

  /** Whether `re.MULTILINE`'s `^` holds at `p`. */
  predicate LineStart(s: string, p: nat) {
    p == 0 || (p <= |s| && s[p - 1] == '\n')
  }

  /** Whether `re.MULTILINE`'s `$` holds at `k`. */
  predicate LineEnd(s: string, k: nat) {
    k == |s| || (k < |s| && s[k] == '\n')
  }

  /** Three backticks at `p`. */
  predicate FenceAt(s: string, p: nat) {
    p + 3 <= |s| && s[p..p + 3] == "```"
  }

  /** Where the opening-fence pattern ````(?:html)?\s*\n?` matched at `p` ends. */
  function OpenFenceEnd(s: string, p: nat): (e: nat)
    requires FenceAt(s, p)
    ensures p + 3 <= e <= |s|
  {
    var q := if p + 7 <= |s| && s[p + 3..p + 7] == "html" then p + 7 else p + 3;
    SpaceRunEnd(s, q)
  }

  /** `^```(?:html)?\s*\n?` under `re.MULTILINE`. */
  predicate OpenFenceLineAt(s: string, p: nat) {
    LineStart(s, p) && FenceAt(s, p)
  }

  /** The largest `k` in `[lo, hi]` where `$` holds under `re.MULTILINE`. */
  function LastLineEnd(s: string, lo: nat, hi: nat): (r: Option<nat>)
    requires lo <= hi <= |s|
    ensures r.Some? ==> lo <= r.value <= hi && LineEnd(s, r.value)
    ensures r.Some? ==> forall k :: r.value < k <= hi ==> !LineEnd(s, k)
    ensures r.None? ==> forall k :: lo <= k <= hi ==> !LineEnd(s, k)
    decreases hi - lo
  {
    if LineEnd(s, hi) then Some(hi)
    else if hi == lo then None
    else LastLineEnd(s, lo, hi - 1)
  }

  /** Where the backticks of a closing fence starting at `p` sit: after one optional newline. */
  function FenceStart(s: string, p: nat): nat {
    if p < |s| && s[p] == '\n' then p + 1 else p
  }

  /** `\n?```\s*$` under `re.MULTILINE`. */
  predicate CloseFenceLineAt(s: string, p: nat) {
    var q := FenceStart(s, p);
    FenceAt(s, q) && LastLineEnd(s, q + 3, SpaceRunEnd(s, q + 3)).Some?
  }

  /** Where that match ends: the greedy `\s*` gives back characters until `$` holds. */
  function CloseFenceLineEnd(s: string, p: nat): (e: nat)
    requires CloseFenceLineAt(s, p)
    ensures p + 3 <= e <= |s| && LineEnd(s, e)
  {
    var q := FenceStart(s, p);
    LastLineEnd(s, q + 3, SpaceRunEnd(s, q + 3)).value
  }

  /** `\n?```\s*$` without `re.MULTILINE`: only whitespace may follow the backticks. */
  predicate CloseFenceAtEnd(s: string, p: nat) {
    var q := FenceStart(s, p);
    FenceAt(s, q) && SpaceRunEnd(s, q + 3) == |s|
  }

  /**
   * `re.sub(r'^```(?:html)?\s*\n?', '', s[from..], flags=re.MULTILINE)`:
   * every match, left to right and not overlapping, is removed.
   */
  function DropOpenFenceLines(s: string, from: nat): (r: string)
    requires from <= |s|
    ensures |r| <= |s| - from
    ensures FirstFrom(s, OpenFenceLineAt, from).None? ==> r == s[from..]
    decreases |s| - from
  {
    match FirstFrom(s, OpenFenceLineAt, from)
    case None => s[from..]
    case Some(p) => s[from..p] + DropOpenFenceLines(s, OpenFenceEnd(s, p))
  }

  /** `re.sub(r'\n?```\s*$', '', s[from..], flags=re.MULTILINE)`. */
  function DropCloseFenceLines(s: string, from: nat): (r: string)
    requires from <= |s|
    ensures |r| <= |s| - from
    ensures FirstFrom(s, CloseFenceLineAt, from).None? ==> r == s[from..]
    decreases |s| - from
  {
    match FirstFrom(s, CloseFenceLineAt, from)
    case None => s[from..]
    case Some(p) => s[from..p] + DropCloseFenceLines(s, CloseFenceLineEnd(s, p))
  }

  /** `re.sub(r"^```(?:html)?\s*\n?", "", s)`: `^` is only the start of the string. */
  function DropOpenFence(s: string): (r: string)
    ensures FenceAt(s, 0) ==> r == s[OpenFenceEnd(s, 0)..]
    ensures !FenceAt(s, 0) ==> r == s
  {
    if FenceAt(s, 0) then s[OpenFenceEnd(s, 0)..] else s
  }

  /** `re.sub(r"\n?```\s*$", "", s)`: everything from the first match on goes. */
  function DropCloseFence(s: string): (r: string)
    ensures FirstFrom(s, CloseFenceAtEnd, 0).Some? ==> r == s[..FirstFrom(s, CloseFenceAtEnd, 0).value]
    ensures FirstFrom(s, CloseFenceAtEnd, 0).None? ==> r == s
  {
    match FirstFrom(s, CloseFenceAtEnd, 0)
    case Some(p) => s[..p]
    case None => s
  }

  /** Everything up to the end of the first `</html\s*>`, when there is one. */
  function CutAfterHtmlClose(s: string): (r: string)
    ensures FirstFrom(s, HtmlCloseAt, 0).Some? ==>
              r == s[..HtmlCloseEnd(s, FirstFrom(s, HtmlCloseAt, 0).value)]
    ensures FirstFrom(s, HtmlCloseAt, 0).None? ==> r == s
  {
    match FirstFrom(s, HtmlCloseAt, 0)
    case Some(p) => s[..HtmlCloseEnd(s, p)]
    case None => s
  }

  /** `needle in haystack.lower()`. */
  predicate ContainsLower(s: string, needle: string) {
    Contains(Lower(s), needle)
  }

  lemma LowerAppend(a: string, b: string)
    ensures Lower(a + b) == Lower(a) + Lower(b)
  {
  }

  /** A needle found in the lowered `a` is still found once anything is put around `a`. */
  lemma ContainsLowerWithin(pre: string, a: string, post: string, needle: string)
    requires ContainsLower(a, needle)
    ensures ContainsLower(pre + a + post, needle)
  {
    var j := FindFrom(Lower(a), needle, 0).value;
    assert j + |needle| <= |a| && Lower(a)[j..j + |needle|] == needle;
    LowerAppend(pre, a);
    LowerAppend(pre + a, post);
    var w := Lower(pre + a + post);
    assert w == Lower(pre) + Lower(a) + Lower(post);
    assert w[|pre| + j..|pre| + j + |needle|] == Lower(a)[j..j + |needle|];
    assert OccursAt(w, |pre| + j, needle);
  }

  /** A needle found in the lowered `x` is found in any text that has `x` at `i`. */
  lemma ContainsLowerAt(w: string, i: nat, x: string, needle: string)
    requires i + |x| <= |w| && w[i..i + |x|] == x && ContainsLower(x, needle)
    ensures ContainsLower(w, needle)
  {
    ContainsLowerWithin(w[..i], x, w[i + |x|..], needle);
    assert w == w[..i] + x + w[i + |x|..];
  }

  /** One piece of a placeholder pattern. */
  datatype Piece =
    | Lit(text: string)  // literal text, ignoring case
    | Spaces             // `\s*`
    | Line               // `.*`: any characters but '\n'

  /** The pieces match `s` from `i` on, ending anywhere. */
  predicate MatchFrom(s: string, i: nat, ps: seq<Piece>)
    requires i <= |s|
    decreases |ps|
  {
    if ps == [] then true
    else match ps[0]
      case Lit(t) => CiAt(s, i, t) && MatchFrom(s, i + |t|, ps[1..])
      case Spaces => exists j | i <= j <= |s| :: (forall k | i <= k < j :: IsSpace(s[k])) && MatchFrom(s, j, ps[1..])
      case Line => exists j | i <= j <= |s| :: (forall k | i <= k < j :: s[k] != '\n') && MatchFrom(s, j, ps[1..])
  }

  /** `re.search(pattern, s, re.IGNORECASE)` finds a match. */
  predicate Search(s: string, ps: seq<Piece>) {
    exists i | 0 <= i <= |s| :: MatchFrom(s, i, ps)
  }
}
