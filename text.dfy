/**
 * Character classes and string primitives shared by the Python and JavaScript
 * parts of the model: whitespace as Python's `str.isspace` and `re`'s `\s`
 * see it, whitespace as JavaScript's `String.prototype.trim` sees it, ASCII
 * case folding, trimming, and first-occurrence substring search.
 */
module Text {
  import opened Wrappers

  /** Python's `str.isspace()`, which is also the `\s` class of a `re` str pattern. */
  predicate IsSpace(c: char) {
    || c == ' ' || c == '\t' || c == '\n' || c == '\r'
    || c == '\U{0B}' || c == '\U{0C}'
    || ('\U{1C}' <= c <= '\U{1F}')
    || c == '\U{85}' || c == '\U{A0}' || c == '\U{1680}'
    || ('\U{2000}' <= c <= '\U{200A}')
    || c == '\U{2028}' || c == '\U{2029}' || c == '\U{202F}' || c == '\U{205F}'
    || c == '\U{3000}'
  }

  /** The WhiteSpace and LineTerminator code points that JavaScript's `trim()` removes. */
  predicate JsIsSpace(c: char) {
    || c == ' ' || c == '\t' || c == '\n' || c == '\r'
    || c == '\U{0B}' || c == '\U{0C}'
    || c == '\U{A0}' || c == '\U{1680}'
    || ('\U{2000}' <= c <= '\U{200A}')
    || c == '\U{2028}' || c == '\U{2029}' || c == '\U{202F}' || c == '\U{205F}'
    || c == '\U{3000}' || c == '\U{FEFF}'
  }

  /** Case folding of one character, restricted to ASCII letters. */
  function LowerChar(c: char): (r: char)
    ensures 'A' <= c <= 'Z' ==> r as int == c as int + 32
    ensures !('A' <= c <= 'Z') ==> r == c
  {
    if 'A' <= c <= 'Z' then (c as int + 32) as char else c
  }

  /** `s.lower()`: same length, each character folded in place. */
  function Lower(s: string): (r: string)
    ensures |r| == |s|
    ensures forall i :: 0 <= i < |s| ==> r[i] == LowerChar(s[i])
  {
    seq(|s|, i requires 0 <= i < |s| => LowerChar(s[i]))
  }

  /** Number of leading characters of `s` that satisfy `sp`. */
  function LeadingCount(s: string, sp: char -> bool): (n: nat)
    ensures n <= |s|
    ensures forall i :: 0 <= i < n ==> sp(s[i])
    ensures n < |s| ==> !sp(s[n])
  {
    if s == [] || !sp(s[0]) then 0 else 1 + LeadingCount(s[1..], sp)
  }

  /** Number of trailing characters of `s` that satisfy `sp`. */
  function TrailingCount(s: string, sp: char -> bool): (n: nat)
    ensures n <= |s|
    ensures forall i :: |s| - n <= i < |s| ==> sp(s[i])
    ensures n < |s| ==> !sp(s[|s| - n - 1])
  {
    if s == [] || !sp(s[|s| - 1]) then 0 else 1 + TrailingCount(s[..|s| - 1], sp)
  }

  /** Removes every leading and trailing character satisfying `sp`. */
  function TrimWith(s: string, sp: char -> bool): (r: string)
    ensures |r| <= |s|
    ensures r != [] ==> !sp(r[0]) && !sp(r[|r| - 1])
    ensures r == [] ==> forall i :: 0 <= i < |s| ==> sp(s[i])
    ensures LeadingCount(s, sp) + |r| <= |s|
    ensures r == s[LeadingCount(s, sp)..LeadingCount(s, sp) + |r|]
    ensures forall i :: LeadingCount(s, sp) + |r| <= i < |s| ==> sp(s[i])
  {
    var a := LeadingCount(s, sp);
    var t := s[a..];
    var b := TrailingCount(t, sp);
    assert t[..|t| - b] == s[a..a + |t| - b];
    t[..|t| - b]
  }

  /** A string that neither starts nor ends with a trimmed character is left as it is. */
  lemma TrimWithUnpadded(s: string, sp: char -> bool)
    requires |s| > 0 && !sp(s[0]) && !sp(s[|s| - 1])
    ensures TrimWith(s, sp) == s
  {
    assert LeadingCount(s, sp) == 0;
  }

  /** Trimming twice is trimming once. */
  lemma TrimWithIdempotent(s: string, sp: char -> bool)
    ensures TrimWith(TrimWith(s, sp), sp) == TrimWith(s, sp)
  {
    var r := TrimWith(s, sp);
    if r != [] {
      TrimWithUnpadded(r, sp);
    }
  }

  /** Neither starts nor ends with whitespace. */
  predicate Unpadded(s: string) {
    s != [] ==> !IsSpace(s[0]) && !IsSpace(s[|s| - 1])
  }

  /** Python's `str.strip()`. */
  function Strip(s: string): (r: string)
    ensures Unpadded(r)
  {
    TrimWith(s, IsSpace)
  }

  /** JavaScript's `String.prototype.trim()`. */
  function JsTrim(s: string): (r: string)
    ensures r != [] ==> !JsIsSpace(r[0]) && !JsIsSpace(r[|r| - 1])
  {
    TrimWith(s, JsIsSpace)
  }

  /** Python's `str.split()` without a separator: the maximal runs of non-whitespace, in order. */
  function Split(s: string): (ws: seq<string>)
    ensures forall k | 0 <= k < |ws| :: |ws[k]| > 0 && forall c | c in ws[k] :: !IsSpace(c)
    ensures ws == [] <==> forall i | 0 <= i < |s| :: IsSpace(s[i])
    decreases |s|
  {
    var a := LeadingCount(s, IsSpace);
    if a == |s| then []
    else
      assert !IsSpace(s[a]);
      var n := LeadingCount(s[a..], c => !IsSpace(c));
      [s[a..a + n]] + Split(s[a + n..])
  }

  /** The words of a split, run together. */
  function Concat(ws: seq<string>): string {
    if ws == [] then [] else ws[0] + Concat(ws[1..])
  }

  /** The characters of `s` that do not satisfy `sp`, in order. */
  function Unmatched(s: string, sp: char -> bool): (r: string)
    ensures |r| <= |s|
  {
    if s == [] then [] else (if sp(s[0]) then [] else [s[0]]) + Unmatched(s[1..], sp)
  }

  lemma {:induction false} UnmatchedAppend(a: string, b: string, sp: char -> bool)
    ensures Unmatched(a + b, sp) == Unmatched(a, sp) + Unmatched(b, sp)
  {
    if a == [] {
      assert a + b == b;
    } else {
      assert (a + b)[0] == a[0] && (a + b)[1..] == a[1..] + b;
      UnmatchedAppend(a[1..], b, sp);
    }
  }

  lemma {:induction false} UnmatchedOfMatched(s: string, sp: char -> bool)
    requires forall i | 0 <= i < |s| :: sp(s[i])
    ensures Unmatched(s, sp) == []
  {
    if s != [] {
      UnmatchedOfMatched(s[1..], sp);
    }
  }

  lemma {:induction false} UnmatchedOfUnmatched(s: string, sp: char -> bool)
    requires forall i | 0 <= i < |s| :: !sp(s[i])
    ensures Unmatched(s, sp) == s
  {
    if s != [] {
      UnmatchedOfUnmatched(s[1..], sp);
    }
  }

  lemma CutInThree(s: string, i: nat, j: nat)
    requires i <= j <= |s|
    ensures s == s[..i] + s[i..j] + s[j..]
  {
    assert s[..j] == s[..i] + s[i..j];
  }

  /** Dropping a run of matching characters and keeping a run of others. */
  lemma UnmatchedAround(x: string, y: string, z: string, sp: char -> bool)
    requires forall i | 0 <= i < |x| :: sp(x[i])
    requires forall i | 0 <= i < |y| :: !sp(y[i])
    ensures Unmatched(x + y + z, sp) == y + Unmatched(z, sp)
  {
    UnmatchedOfMatched(x, sp);
    UnmatchedOfUnmatched(y, sp);
    UnmatchedAppend(x, y, sp);
    UnmatchedAppend(x + y, z, sp);
    assert [] + y == y;
  }

  /**
   * Splitting loses nothing but whitespace: the words, run together, are the
   * non-whitespace characters of the text in their order.
   */
  lemma {:induction false} SplitKeepsCharacters(s: string)
    ensures Concat(Split(s)) == Unmatched(s, IsSpace)
    decreases |s|
  {
    var a := LeadingCount(s, IsSpace);
    if a == |s| {
      UnmatchedOfMatched(s, IsSpace);
    } else {
      var n := LeadingCount(s[a..], c => !IsSpace(c));
      var w := s[a..a + n];
      assert Concat(Split(s)) == w + Concat(Split(s[a + n..])) by {
        assert Split(s) == [w] + Split(s[a + n..]);
      }
      assert Unmatched(s, IsSpace) == w + Unmatched(s[a + n..], IsSpace) by {
        CutInThree(s, a, a + n);
        UnmatchedAround(s[..a], w, s[a + n..], IsSpace);
      }
      SplitKeepsCharacters(s[a + n..]);
    }
  }

  /** `p` occurs in `s` starting at index `i`. */
  predicate OccursAt(s: string, i: int, p: string) {
    0 <= i && i + |p| <= |s| && s[i..i + |p|] == p
  }

  /** Index of the first occurrence of `p` in `s` at or after `from` (Python's `str.find`). */
  function FindFrom(s: string, p: string, from: nat): (r: Option<nat>)
    requires from <= |s|
    ensures r.Some? ==> from <= r.value && OccursAt(s, r.value, p)
    ensures r.Some? ==> forall j :: from <= j < r.value ==> !OccursAt(s, j, p)
    ensures r.None? ==> forall j :: from <= j <= |s| ==> !OccursAt(s, j, p)
    decreases |s| - from
  {
    if OccursAt(s, from, p) then Some(from)
    else if from == |s| then None
    else FindFrom(s, p, from + 1)
  }

  /** Python's `p in s`. */
  predicate Contains(s: string, p: string) {
    FindFrom(s, p, 0).Some?
  }

  lemma ContainsIff(s: string, p: string)
    ensures Contains(s, p) <==> exists j :: OccursAt(s, j, p)
  {
  }
}
