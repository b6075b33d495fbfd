/**
 * The prompt box of frontend/src/components/InputPanel.jsx: the most recently
 * used history of submitted prompts, the submit guard, the keyboard shortcut
 * and the shortened labels of the history buttons.  React's state is the
 * fields of `Panel`; `onGenerate` is recorded as the list of prompts it was
 * called with; `isLoading` is the caller's prop, a parameter.
 */
module InputPanel {
  import opened Text

  /** The number of prompts the history keeps. */
  const HistoryLimit: nat := 10
  /** History labels longer than this are shortened. */
  const LabelLimit: nat := 50
  const Ellipsis: string := "..."

  predicate Distinct(s: seq<string>) {
    forall i, j | 0 <= i < j < |s| :: s[i] != s[j]
  }

  /** `a` is `b` with some entries removed, the rest in the same order. */
  predicate Subsequence(a: seq<string>, b: seq<string>)
    decreases |b|
  {
    || a == []
    || (&& b != []
        && ((a[|a| - 1] == b[|b| - 1] && Subsequence(a[..|a| - 1], b[..|b| - 1]))
            || Subsequence(a, b[..|b| - 1])))
  }

  /** `history.filter(h => h !== text)`. */
  function Without(history: seq<string>, text: string): (r: seq<string>)
    ensures |r| <= |history|
    ensures forall x :: x in r <==> x in history && x != text
  {
    if history == [] then []
    else
      var rest := Without(history[..|history| - 1], text);
      var last := history[|history| - 1];
      assert forall x :: x in history <==> x in history[..|history| - 1] || x == last;
      if last == text then rest else rest + [last]
  }

  /** `[text, ...history.filter(h => h !== text)].slice(0, 10)`. */
  function NewHistory(history: seq<string>, text: string): seq<string> {
    var all := [text] + Without(history, text);
    if |all| <= HistoryLimit then all else all[..HistoryLimit]
  }

  /**
   * The saved prompt comes first and nowhere else, the list never grows
   * beyond ten, and the rest are the other prompts, newest first, cut at the
   * oldest end.
   */
  lemma NewHistoryShape(history: seq<string>, text: string)
    ensures var r := NewHistory(history, text);
            && 0 < |r| <= HistoryLimit
            && r[0] == text
            && text !in r[1..]
            && |r| == (if 1 + |Without(history, text)| <= HistoryLimit then 1 + |Without(history, text)| else HistoryLimit)
            && r[1..] == Without(history, text)[..|r| - 1]
  {
    var w := Without(history, text);
    var r := NewHistory(history, text);
    assert r[1..] == w[..|r| - 1];
    assert text !in w;
  }

  /** Removing a prompt keeps the others in their order. */
  lemma {:induction false} WithoutIsSubsequence(history: seq<string>, text: string)
    ensures Subsequence(Without(history, text), history)
  {
    if history != [] {
      var init := history[..|history| - 1];
      WithoutIsSubsequence(init, text);
      if history[|history| - 1] == text {
        SubsequenceOfLonger(Without(init, text), init, history);
      } else {
        var w := Without(history, text);
        assert w[..|w| - 1] == Without(init, text);
      }
    }
  }

  /** A subsequence of `b` is a subsequence of `b` with one more entry at the end. */
  lemma {:induction false} SubsequenceOfLonger(a: seq<string>, b: seq<string>, c: seq<string>)
    requires Subsequence(a, b) && |c| == |b| + 1 && c[..|b|] == b
    ensures Subsequence(a, c)
  {
    if a != [] {
      assert c[..|c| - 1] == b;
    }
  }

  /** A prefix is a subsequence. */
  lemma {:induction false} PrefixIsSubsequence(a: seq<string>, n: nat)
    requires n <= |a|
    ensures Subsequence(a[..n], a)
    decreases |a|
  {
    if n > 0 {
      if n == |a| {
        assert a[..n] == a;
        SubsequenceReflexive(a);
      } else {
        PrefixIsSubsequence(a[..|a| - 1], n);
        assert a[..|a| - 1][..n] == a[..n];
        SubsequenceOfLonger(a[..n], a[..|a| - 1], a);
      }
    }
  }

  lemma {:induction false} SubsequenceReflexive(a: seq<string>)
    ensures Subsequence(a, a)
  {
    if a != [] {
      SubsequenceReflexive(a[..|a| - 1]);
    }
  }

  /** A subsequence of a subsequence of `c` is a subsequence of `c`. */
  lemma {:induction false} SubsequenceTransitive(a: seq<string>, b: seq<string>, c: seq<string>)
    requires Subsequence(a, b) && Subsequence(b, c)
    ensures Subsequence(a, c)
    decreases |c|
  {
    if a != [] {
      assert b != [] && c != [];
      var b' := b[..|b| - 1];
      var c' := c[..|c| - 1];
      if Subsequence(b, c') {
        SubsequenceTransitive(a, b, c');
      } else if a[|a| - 1] == b[|b| - 1] && Subsequence(a[..|a| - 1], b') {
        SubsequenceTransitive(a[..|a| - 1], b', c');
      } else {
        SubsequenceTransitive(a, b', c');
      }
    }
  }

  /**
   * The entries after the first are older prompts in their old order: only
   * the saved prompt moves, and whatever is dropped is dropped from the end.
   */
  lemma NewHistoryKeepsOrder(history: seq<string>, text: string)
    ensures Subsequence(NewHistory(history, text)[1..], history)
  {
    NewHistoryShape(history, text);
    var w := Without(history, text);
    var r := NewHistory(history, text);
    PrefixIsSubsequence(w, |r| - 1);
    WithoutIsSubsequence(history, text);
    SubsequenceTransitive(r[1..], w, history);
  }

  /** A history without repetitions stays without repetitions. */
  lemma {:induction false} WithoutDistinct(history: seq<string>, text: string)
    requires Distinct(history)
    ensures Distinct(Without(history, text))
  {
    if history != [] {
      var init := history[..|history| - 1];
      WithoutDistinct(init, text);
      assert history[|history| - 1] !in init;
    }
  }

  lemma NewHistoryDistinct(history: seq<string>, text: string)
    requires Distinct(history)
    ensures Distinct(NewHistory(history, text))
  {
    WithoutDistinct(history, text);
    NewHistoryShape(history, text);
    var r := NewHistory(history, text);
    forall i, j | 0 <= i < j < |r|
      ensures r[i] != r[j]
    {
      if i == 0 {
        assert r[j] == r[1..][j - 1];
      } else {
        assert r[i] == r[1..][i - 1] && r[j] == r[1..][j - 1];
      }
    }
  }

  /**
   * While there is room, nothing is lost: every earlier prompt is still
   * there and nothing else is added.
   */
  lemma NewHistoryKeepsAllWhenRoom(history: seq<string>, text: string)
    requires 1 + |Without(history, text)| <= HistoryLimit
    ensures forall x :: x in NewHistory(history, text) <==> x == text || x in history
  {
    assert NewHistory(history, text) == [text] + Without(history, text);
  }

  /** `text.length > 50 ? text.substring(0, 50) + '...' : text`. */
  function HistoryLabel(text: string): (shown: string)
    ensures |text| <= LabelLimit ==> shown == text
    ensures |text| > LabelLimit ==>
              |shown| == LabelLimit + |Ellipsis|
              && shown[..LabelLimit] == text[..LabelLimit]
              && shown[LabelLimit..] == Ellipsis
  {
    if |text| > LabelLimit then text[..LabelLimit] + Ellipsis else text
  }

  /**
   * Labels are never longer than 53 characters, and a label shows its prompt
   * unchanged exactly when the prompt is short enough or happens to be 50
   * characters followed by "...".
   */
  lemma HistoryLabelBounded(text: string)
    ensures |HistoryLabel(text)| <= LabelLimit + |Ellipsis|
    ensures HistoryLabel(text) == text <==> |text| <= LabelLimit || text[LabelLimit..] == Ellipsis
  {
    if |text| > LabelLimit && text[LabelLimit..] == Ellipsis {
      assert text == text[..LabelLimit] + text[LabelLimit..];
    }
  }

  /** `prompt.trim() && !isLoading`. */
  predicate CanSubmit(prompt: string, isLoading: bool) {
    JsTrim(prompt) != [] && !isLoading
  }

  /** `e.key === 'Enter' && (e.ctrlKey || e.metaKey)`. */
  predicate IsSubmitKey(key: string, ctrlKey: bool, metaKey: bool) {
    key == "Enter" && (ctrlKey || metaKey)
  }

  class Panel {
    /** The text in the prompt box. */
    var prompt: string
    /** The recent prompts, newest first. */
    var history: seq<string>
    /** The prompts handed to `onGenerate`, in order. */
    var generated: seq<string>

    constructor ()
      ensures prompt == [] && history == [] && generated == []
    {
      prompt := [];
      history := [];
      generated := [];
    }

    /**
     * Typing in the box, or clicking a suggestion or a history entry.  The
     * page disables the box and every chip while a request is loading; the
     * model does not carry that guard, so it also allows changes then.
     */
    method SetPrompt(text: string)
      modifies this
      ensures prompt == text && history == old(history) && generated == old(generated)
    {
      prompt := text;
    }

    /** `saveToHistory`. */
    method SaveToHistory(text: string)
      modifies this
      ensures history == NewHistory(old(history), text)
      ensures prompt == old(prompt) && generated == old(generated)
    {
      history := NewHistory(history, text);
    }

    /** `handleSubmit`: the trimmed prompt is saved and sent, or nothing happens. */
    method HandleSubmit(isLoading: bool)
      modifies this
      ensures prompt == old(prompt)
      ensures CanSubmit(old(prompt), isLoading) ==>
                history == NewHistory(old(history), JsTrim(old(prompt)))
                && generated == old(generated) + [JsTrim(old(prompt))]
      ensures !CanSubmit(old(prompt), isLoading) ==> history == old(history) && generated == old(generated)
    {
      var trimmed := JsTrim(prompt);
      if trimmed != [] && !isLoading {
        SaveToHistory(trimmed);
        generated := generated + [trimmed];
      }
    }

    /** `handleKeyDown`: only Ctrl+Enter or Cmd+Enter submits. */
    method HandleKeyDown(key: string, ctrlKey: bool, metaKey: bool, isLoading: bool)
      modifies this
      ensures prompt == old(prompt)
      ensures IsSubmitKey(key, ctrlKey, metaKey) && CanSubmit(old(prompt), isLoading) ==>
                history == NewHistory(old(history), JsTrim(old(prompt)))
                && generated == old(generated) + [JsTrim(old(prompt))]
      ensures !(IsSubmitKey(key, ctrlKey, metaKey) && CanSubmit(old(prompt), isLoading)) ==>
                history == old(history) && generated == old(generated)
    {
      if key == "Enter" && (ctrlKey || metaKey) {
        HandleSubmit(isLoading);
      }
    }
  }
}
