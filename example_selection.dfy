/**
 * `get_relevant_examples` in backend/services/animation_examples.py: which of
 * the reference animations are put in front of the language model for a given
 * prompt, and the text they are put in.  The example pages themselves are
 * opaque strings (a map from key to text); `difflib.get_close_matches` is the
 * opaque predicate `close(word, keywords)`, true when it returns a match at
 * cutoff 0.8.
 */
module AnimationExamples {
  import opened Text

  /** The keys of `keywords_map`, in the dictionary's order. */
  const MapKeys: seq<string> := [
    "bouncing", "rotating", "particles", "typing", "wave",
    "neon", "3d_cube", "loading", "gradient", "pulse",
    "gsap_timeline", "text_reveal", "morphing", "floating", "confetti"
  ]

  /** The values of `keywords_map`: `KeywordLists[i]` are the phrases that select `MapKeys[i]`. */
  const KeywordLists: seq<seq<string>> := [
    ["bounce", "bouncing", "ball", "jump"],
    ["rotate", "rotating", "spin", "spinning", "turn"],
    ["particle", "particles", "dots", "floating random"],
    ["type", "typing", "typewriter", "letter by letter"],
    ["wave", "waves", "wavy", "sine", "ocean"],
    ["neon", "glow", "glowing", "cyberpunk", "futuristic"],
    ["3d", "cube", "box", "three dimensional"],
    ["loading", "spinner", "loader", "loading animation"],
    ["gradient", "background", "animated background"],
    ["pulse", "pulsing", "breathing", "breath", "heartbeat"],
    ["sequence", "timeline", "multiple elements", "one after another"],
    ["reveal", "text reveal", "fade in text", "appearing text"],
    ["morph", "morphing", "shape change", "transform shape"],
    ["floating", "float", "levitate"],
    ["confetti", "falling", "celebration"]
  ]

  /** The keys of the `EXAMPLES` dictionary. */
  const ExampleKeys: set<string> := {
    "bouncing", "rotating", "particles", "typing", "wave",
    "neon", "3d_cube", "loading", "gradient", "pulse",
    "gsap_timeline", "text_reveal", "morphing", "floating", "confetti"
  }

  /** The selection when no key matches: the most versatile examples. */
  const Fallback: seq<string> := ["bouncing", "rotating"]

  /** `"=" * 50`. */
  const Rule: string := "=================================================="
  const Header: string := "\n\nRELEVANT EXAMPLES FOR REFERENCE:\n" + Rule + "\n"

  /** `any(kw in prompt_lower for kw in example_keywords)`. */
  predicate DirectMatch(lower: string, keywords: seq<string>) {
    exists i | 0 <= i < |keywords| :: Contains(lower, keywords[i])
  }

  /** Some prompt word of at least three characters is close to one of the keywords. */
  predicate FuzzyMatch(words: seq<string>, keywords: seq<string>, close: (string, seq<string>) -> bool) {
    exists j | 0 <= j < |words| :: |words[j]| >= 3 && close(words[j], keywords)
  }

  /** Whether the keyword list `kws` selects its key for the lowered prompt and its words. */
  predicate Selects(kws: seq<string>, lower: string, words: seq<string>, close: (string, seq<string>) -> bool) {
    DirectMatch(lower, kws) || FuzzyMatch(words, kws, close)
  }

  /**
   * The keys among the first `n` of a keyword table (`keys[i]` selected by
   * `lists[i]`) that are selected, in the table's order.
   */
  function MatchedKeys(keys: seq<string>, lists: seq<seq<string>>,
                       lower: string, words: seq<string>, close: (string, seq<string>) -> bool, n: nat): seq<string>
    requires n <= |keys| && n <= |lists|
  {
    if n == 0 then []
    else MatchedKeys(keys, lists, lower, words, close, n - 1)
         + (if Selects(lists[n - 1], lower, words, close) then [keys[n - 1]] else [])
  }

  /** `matches` after the fallback. */
  function Candidates(prompt: string, close: (string, seq<string>) -> bool): seq<string> {
    var lower := Lower(prompt);
    var m := MatchedKeys(MapKeys, KeywordLists, lower, Split(lower), close, |MapKeys|);
    if m == [] then Fallback else m
  }

  /** Every element once, at its first occurrence: the `unique_matches` loop. */
  function Dedupe(s: seq<string>): seq<string> {
    if s == [] then []
    else
      var d := Dedupe(s[..|s| - 1]);
      if s[|s| - 1] in d then d else d + [s[|s| - 1]]
  }

  /** Python's `s[:n]`: a negative `n` counts from the end. */
  function Prefix(s: seq<string>, n: int): (r: seq<string>)
    ensures n >= 0 ==> |r| == if n < |s| then n else |s|
    ensures n < 0 ==> |r| == if |s| + n > 0 then |s| + n else 0
    ensures r == s[..|r|]
  {
    if n >= 0 then (if n < |s| then s[..n] else s)
    else if |s| + n > 0 then s[..|s| + n] else []
  }

  /** The keys whose examples are included, in order. */
  function Selection(prompt: string, maxExamples: int, close: (string, seq<string>) -> bool): seq<string> {
    Prefix(Dedupe(Candidates(prompt, close)), maxExamples)
  }

  /** The text one selected key contributes: its example and a rule, or nothing for an unknown key. */
  function Block(examples: map<string, string>, k: string): string {
    if k in examples then examples[k] + "\n" + Rule + "\n" else []
  }

  function Blocks(examples: map<string, string>, keys: seq<string>): string {
    if keys == [] then [] else Blocks(examples, keys[..|keys| - 1]) + Block(examples, keys[|keys| - 1])
  }

  /**
   * `get_relevant_examples` with the `EXAMPLES` dictionary as `examples`:
   * matching, the fallback, the dedupe, the cut to `max_examples` and the
   * assembly of the text.
   */
  method GetRelevantExamples(prompt: string, maxExamples: int, close: (string, seq<string>) -> bool,
                             examples: map<string, string>)
    returns (text: string)
    ensures text == Header + Blocks(examples, Selection(prompt, maxExamples, close))
  {
    var lower := Lower(prompt);
    var matches := FindMatches(MapKeys, KeywordLists, lower, Split(lower), close);
    if matches == [] {
      matches := Fallback;
    }
    var unique := Unique(matches);
    unique := Prefix(unique, maxExamples);
    text := FormatExamples(examples, unique);
  }

  /** The matching loop: per key, a direct match first, then word by word until one is close. */
  method FindMatches(keys: seq<string>, lists: seq<seq<string>>,
                     lower: string, words: seq<string>, close: (string, seq<string>) -> bool)
    returns (matches: seq<string>)
    requires |keys| == |lists|
    ensures matches == MatchedKeys(keys, lists, lower, words, close, |keys|)
  {
    matches := [];
    for i := 0 to |keys|
      invariant matches == MatchedKeys(keys, lists, lower, words, close, i)
    {
      if DirectMatch(lower, lists[i]) {
        matches := matches + [keys[i]];
        continue;
      }
      var j := 0;
      while j < |words|
        invariant j <= |words|
        invariant forall w | 0 <= w < j :: !(|words[w]| >= 3 && close(words[w], lists[i]))
      {
        if |words[j]| >= 3 && close(words[j], lists[i]) {
          break;
        }
        j := j + 1;
      }
      if j < |words| {
        matches := matches + [keys[i]];
      }
    }
  }

  /** The `unique_matches` loop. */
  method Unique(matches: seq<string>) returns (unique: seq<string>)
    ensures unique == Dedupe(matches)
  {
    unique := [];
    for k := 0 to |matches|
      invariant unique == Dedupe(matches[..k])
    {
      assert matches[..k + 1][..k] == matches[..k];
      if matches[k] !in unique {
        unique := unique + [matches[k]];
      }
    }
    assert matches[..|matches|] == matches;
  }

  /** The assembly of `examples_text`. */
  method FormatExamples(examples: map<string, string>, keys: seq<string>) returns (text: string)
    ensures text == Header + Blocks(examples, keys)
  {
    text := Header;
    for k := 0 to |keys|
      invariant text == Header + Blocks(examples, keys[..k])
    {
      assert keys[..k + 1][..k] == keys[..k];
      if keys[k] in examples {
        AppendBlock(text, Header, Blocks(examples, keys[..k]), examples[keys[k]], Rule);
        text := text + examples[keys[k]] + "\n";
        text := text + Rule + "\n";
      }
    }
    assert keys[..|keys|] == keys;
  }

  lemma AppendBlock(text: string, header: string, done: string, example: string, rule: string)
    requires text == header + done
    ensures text + example + "\n" + rule + "\n" == header + (done + (example + "\n" + rule + "\n"))
  {
  }

  predicate Distinct(s: seq<string>) {
    forall i, j | 0 <= i < j < |s| :: s[i] != s[j]
  }

  /** The position of `k` in `s`, or `|s|` when it is absent. */
  function IndexOf(s: seq<string>, k: string): (i: nat)
    ensures i <= |s| && (i < |s| ==> s[i] == k)
    ensures forall j | 0 <= j < i :: s[j] != k
  {
    if s == [] then 0
    else if s[0] == k then 0
    else 1 + IndexOf(s[1..], k)
  }

  lemma KeysDistinct()
    ensures Distinct(MapKeys)
  {
  }

  /** In a list without repetitions each element is found at its own position. */
  lemma {:induction false} IndexOfDistinct(s: seq<string>, i: nat)
    requires Distinct(s) && i < |s|
    ensures IndexOf(s, s[i]) == i
  {
    if i > 0 {
      assert s[0] != s[i];
      IndexOfDistinct(s[1..], i - 1);
    }
  }

  /** Every key of `keywords_map`, and so every key that can be selected, has an example. */
  lemma KeysHaveExamples()
    ensures forall i | 0 <= i < |MapKeys| :: MapKeys[i] in ExampleKeys
    ensures forall k | k in Fallback :: k in ExampleKeys
  {
  }

  /** Every key of `m` is among the first `n` of `keys`, and `m` follows their order. */
  predicate InKeyOrder(keys: seq<string>, m: seq<string>, n: nat) {
    && (forall i | 0 <= i < |m| :: IndexOf(keys, m[i]) < n)
    && (forall i, j | 0 <= i < j < |m| :: IndexOf(keys, m[i]) < IndexOf(keys, m[j]))
  }

  /** The matched keys come in the table's order, so each at most once. */
  lemma {:induction false} MatchedKeysInOrder(keys: seq<string>, lists: seq<seq<string>>,
                                              lower: string, words: seq<string>,
                                              close: (string, seq<string>) -> bool, n: nat)
    requires Distinct(keys) && n <= |keys| && n <= |lists|
    ensures InKeyOrder(keys, MatchedKeys(keys, lists, lower, words, close, n), n)
  {
    if n > 0 {
      MatchedKeysInOrder(keys, lists, lower, words, close, n - 1);
      IndexOfDistinct(keys, n - 1);
      var prev := MatchedKeys(keys, lists, lower, words, close, n - 1);
      var m := MatchedKeys(keys, lists, lower, words, close, n);
      forall i | 0 <= i < |m|
        ensures IndexOf(keys, m[i]) < n
        ensures i < |prev| ==> IndexOf(keys, m[i]) < n - 1
      {
        if i == |prev| {
          assert m[i] == keys[n - 1];
        } else {
          assert m[i] == prev[i];
        }
      }
    }
  }

  /** A key is matched exactly when its keyword list selects it. */
  lemma {:induction false} MatchedKeysIff(keys: seq<string>, lists: seq<seq<string>>,
                                          lower: string, words: seq<string>,
                                          close: (string, seq<string>) -> bool, n: nat)
    requires Distinct(keys) && n <= |keys| && n <= |lists|
    ensures forall i | 0 <= i < n ::
              keys[i] in MatchedKeys(keys, lists, lower, words, close, n) <==> Selects(lists[i], lower, words, close)
  {
    if n > 0 {
      MatchedKeysIff(keys, lists, lower, words, close, n - 1);
      MatchedKeysInOrder(keys, lists, lower, words, close, n - 1);
      var prev := MatchedKeys(keys, lists, lower, words, close, n - 1);
      IndexOfDistinct(keys, n - 1);
      forall i | 0 <= i < |prev|
        ensures prev[i] != keys[n - 1]
      {
        assert IndexOf(keys, prev[i]) < n - 1;
      }
    }
  }

  /** Nothing is matched exactly when no keyword list selects its key. */
  lemma NothingMatched(keys: seq<string>, lists: seq<seq<string>>,
                       lower: string, words: seq<string>, close: (string, seq<string>) -> bool)
    requires Distinct(keys) && |keys| == |lists|
    ensures MatchedKeys(keys, lists, lower, words, close, |keys|) == [] <==>
            forall i | 0 <= i < |keys| :: !Selects(lists[i], lower, words, close)
  {
    MatchedKeysInOrder(keys, lists, lower, words, close, |keys|);
    MatchedKeysIff(keys, lists, lower, words, close, |keys|);
    var m := MatchedKeys(keys, lists, lower, words, close, |keys|);
    if m != [] {
      assert IndexOf(keys, m[0]) < |keys|;
      assert keys[IndexOf(keys, m[0])] in m;
    }
  }

  /** The dedupe keeps one copy of each element, in order of first occurrence. */
  lemma {:induction false} DedupeDistinct(s: seq<string>)
    ensures Distinct(Dedupe(s))
    ensures forall x :: x in Dedupe(s) <==> x in s
  {
    if s != [] {
      DedupeDistinct(s[..|s| - 1]);
      assert s == s[..|s| - 1] + [s[|s| - 1]];
    }
  }

  /** On a list without repetitions the dedupe changes nothing. */
  lemma {:induction false} DedupeOfDistinct(s: seq<string>)
    requires Distinct(s)
    ensures Dedupe(s) == s
  {
    if s != [] {
      var t := s[..|s| - 1];
      DedupeOfDistinct(t);
      DedupeDistinct(t);
      assert s[|s| - 1] !in t;
      assert s == t + [s[|s| - 1]];
    }
  }

  /** A list in key order has no repetitions. */
  lemma InKeyOrderDistinct(keys: seq<string>, m: seq<string>, n: nat)
    requires InKeyOrder(keys, m, n)
    ensures Distinct(m)
  {
    forall i, j | 0 <= i < j < |m|
      ensures m[i] != m[j]
    {
      assert IndexOf(keys, m[i]) < IndexOf(keys, m[j]);
    }
  }

  /** The fallback is in key order too. */
  lemma FallbackInKeyOrder()
    ensures InKeyOrder(MapKeys, Fallback, |MapKeys|)
  {
    KeysDistinct();
    IndexOfDistinct(MapKeys, 0);
    IndexOfDistinct(MapKeys, 1);
    assert Fallback == MapKeys[..2];
  }

  /** The candidates are keys of `keywords_map`, in its order, each once. */
  lemma CandidatesInKeyOrder(prompt: string, close: (string, seq<string>) -> bool)
    ensures InKeyOrder(MapKeys, Candidates(prompt, close), |MapKeys|)
    ensures Distinct(Candidates(prompt, close))
  {
    var lower := Lower(prompt);
    KeysDistinct();
    MatchedKeysInOrder(MapKeys, KeywordLists, lower, Split(lower), close, |MapKeys|);
    FallbackInKeyOrder();
    InKeyOrderDistinct(MapKeys, Candidates(prompt, close), |MapKeys|);
  }

  /**
   * The dedupe never changes anything here: the selection is the first
   * `max_examples` candidates in Python's slice sense, so at most
   * `max_examples` of them when that is not negative.
   */
  lemma SelectionCutsCandidates(prompt: string, maxExamples: int, close: (string, seq<string>) -> bool)
    ensures Selection(prompt, maxExamples, close) == Prefix(Candidates(prompt, close), maxExamples)
    ensures var c := Candidates(prompt, close);
            var sel := Selection(prompt, maxExamples, close);
            && sel == c[..|sel|]
            && (maxExamples >= 0 ==> |sel| == if maxExamples < |c| then maxExamples else |c|)
  {
    CandidatesInKeyOrder(prompt, close);
    DedupeOfDistinct(Candidates(prompt, close));
  }

  /** The selected keys are keys of `keywords_map`, in its order, each once. */
  lemma SelectionInKeyOrder(prompt: string, maxExamples: int, close: (string, seq<string>) -> bool)
    ensures InKeyOrder(MapKeys, Selection(prompt, maxExamples, close), |MapKeys|)
    ensures Distinct(Selection(prompt, maxExamples, close))
  {
    CandidatesInKeyOrder(prompt, close);
    SelectionCutsCandidates(prompt, maxExamples, close);
    var c := Candidates(prompt, close);
    var sel := Selection(prompt, maxExamples, close);
    assert forall i | 0 <= i < |sel| :: sel[i] == c[i];
    InKeyOrderDistinct(MapKeys, sel, |MapKeys|);
  }

  /** Every selected key has an example, so every selected key contributes its block. */
  lemma SelectedKeysHaveExamples(prompt: string, maxExamples: int, close: (string, seq<string>) -> bool)
    ensures forall k | k in Selection(prompt, maxExamples, close) :: k in ExampleKeys
  {
    SelectionInKeyOrder(prompt, maxExamples, close);
    KeysHaveExamples();
    var sel := Selection(prompt, maxExamples, close);
    forall k | k in sel
      ensures k in ExampleKeys
    {
      var i :| 0 <= i < |sel| && sel[i] == k;
      assert MapKeys[IndexOf(MapKeys, sel[i])] == k;
    }
  }

  /**
   * When some keyword list selects its key, a key of `keywords_map` is a
   * candidate exactly when its own list selects it.
   */
  lemma CandidatesWhenMatched(prompt: string, close: (string, seq<string>) -> bool, i: nat)
    requires i < |MapKeys|
    requires var lower := Lower(prompt);
             exists j | 0 <= j < |MapKeys| :: Selects(KeywordLists[j], lower, Split(lower), close)
    ensures var lower := Lower(prompt);
            MapKeys[i] in Candidates(prompt, close) <==> Selects(KeywordLists[i], lower, Split(lower), close)
  {
    var lower := Lower(prompt);
    KeysDistinct();
    NothingMatched(MapKeys, KeywordLists, lower, Split(lower), close);
    MatchedKeysIff(MapKeys, KeywordLists, lower, Split(lower), close, |MapKeys|);
  }

  /** When no keyword list selects its key, the candidates are the fallback. */
  lemma CandidatesWhenNothingMatched(prompt: string, close: (string, seq<string>) -> bool)
    requires var lower := Lower(prompt);
             forall j | 0 <= j < |MapKeys| :: !Selects(KeywordLists[j], lower, Split(lower), close)
    ensures Candidates(prompt, close) == Fallback
  {
    var lower := Lower(prompt);
    KeysDistinct();
    NothingMatched(MapKeys, KeywordLists, lower, Split(lower), close);
  }

  /** The text of a list of keys is the texts of its parts, one after the other. */
  lemma {:induction false} BlocksAppend(examples: map<string, string>, a: seq<string>, b: seq<string>)
    ensures Blocks(examples, a + b) == Blocks(examples, a) + Blocks(examples, b)
    decreases |b|
  {
    if b == [] {
      assert a + b == a;
    } else {
      var b' := b[..|b| - 1];
      assert (a + b)[..|a + b| - 1] == a + b';
      BlocksAppend(examples, a, b');
    }
  }

  /** Each key contributes its own block at its own place in the text. */
  lemma BlocksAt(examples: map<string, string>, keys: seq<string>, i: nat)
    requires i < |keys|
    ensures Blocks(examples, keys) ==
            Blocks(examples, keys[..i]) + Block(examples, keys[i]) + Blocks(examples, keys[i + 1..])
  {
    assert keys == keys[..i] + [keys[i]] + keys[i + 1..];
    BlocksAppend(examples, keys[..i] + [keys[i]], keys[i + 1..]);
    BlocksAppend(examples, keys[..i], [keys[i]]);
    assert Blocks(examples, [keys[i]]) == Block(examples, keys[i]);
  }

  /**
   * With the real `EXAMPLES` dictionary, every selected key contributes its
   * example followed by the rule line, at its own place in the text.
   */
  lemma SelectedExamplesAppear(prompt: string, maxExamples: int, close: (string, seq<string>) -> bool,
                               examples: map<string, string>, i: nat)
    requires examples.Keys == ExampleKeys
    requires i < |Selection(prompt, maxExamples, close)|
    ensures Selection(prompt, maxExamples, close)[i] in examples
    ensures var sel := Selection(prompt, maxExamples, close);
            Blocks(examples, sel) ==
            Blocks(examples, sel[..i]) + (examples[sel[i]] + "\n" + Rule + "\n") + Blocks(examples, sel[i + 1..])
  {
    var sel := Selection(prompt, maxExamples, close);
    SelectedKeysHaveExamples(prompt, maxExamples, close);
    assert sel[i] in sel;
    BlocksAt(examples, sel, i);
  }

  /** The prompt is lowered first, so its case does not matter. */
  lemma SelectionIgnoresCase(prompt: string, maxExamples: int, close: (string, seq<string>) -> bool)
    ensures Selection(Lower(prompt), maxExamples, close) == Selection(prompt, maxExamples, close)
  {
    assert Lower(Lower(prompt)) == Lower(prompt);
  }
}
