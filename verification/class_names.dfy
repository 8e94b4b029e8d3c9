/**
 * The fallback branch of `cn` in the CLI's copied utilities: the
 * `filter(Boolean)`, `join(" ")`, `trim()`, `replace(/\s+/g, " ")` pipeline
 * used when `clsx` and `tailwind-merge` cannot be loaded. Its reference
 * definition is "the words of all inputs, in order, separated by single
 * spaces".
 */
module ClassNames {

  /** ECMAScript WhiteSpace and LineTerminator: the characters both `\s` and `trim` treat as space. */
  predicate IsSpace(c: char) {
    || c == '\t' || c == '\n' || c == '\U{000B}' || c == '\U{000C}' || c == '\r' || c == ' '
    || c == '\U{00A0}' || c == '\U{1680}' || ('\U{2000}' <= c <= '\U{200A}')
    || c == '\U{2028}' || c == '\U{2029}' || c == '\U{202F}' || c == '\U{205F}' || c == '\U{3000}'
    || c == '\U{FEFF}'
  }

  predicate AllSpace(s: string) {
    forall i :: 0 <= i < |s| ==> IsSpace(s[i])
  }

  predicate NoSpace(s: string) {
    forall i :: 0 <= i < |s| ==> !IsSpace(s[i])
  }

  /** A word: a non-empty run of non-space characters. */
  predicate IsWord(w: string) {
    w != [] && NoSpace(w)
  }

  /** No space at either end, no two spaces side by side, and every space is `' '`. */
  predicate Canonical(s: string) {
    && (s != [] ==> !IsSpace(s[0]) && !IsSpace(s[|s| - 1]))
    && (forall i :: 0 <= i < |s| && IsSpace(s[i]) ==> s[i] == ' ')
    && (forall i :: 0 <= i < |s| - 1 ==> !(IsSpace(s[i]) && IsSpace(s[i + 1])))
  }

  // ---------------------------------------------------------------------------
  // The pipeline, step by step

  /** `inputs.filter(Boolean)` for string inputs: the empty string is the only falsy one. */
  function Filter(inputs: seq<string>): (r: seq<string>)
    ensures forall k :: 0 <= k < |r| ==> r[k] != ""
    ensures |r| <= |inputs|
    ensures forall x :: x != "" ==> multiset(r)[x] == multiset(inputs)[x]
    ensures "" !in inputs ==> r == inputs
  {
    if inputs == [] then []
    else
      assert inputs == [inputs[0]] + inputs[1..];
      if inputs[0] == "" then Filter(inputs[1..])
      else [inputs[0]] + Filter(inputs[1..])
  }

  /** `xs.join(sep)` */
  function Join(sep: string, xs: seq<string>): string {
    if |xs| == 0 then ""
    else if |xs| == 1 then xs[0]
    else xs[0] + sep + Join(sep, xs[1..])
  }

  /** `trimStart`: drops the leading run of spaces. */
  function TrimStart(s: string): (r: string)
    ensures |r| <= |s| && r == s[|s| - |r|..]
    ensures AllSpace(s[..|s| - |r|])
    ensures r != [] ==> !IsSpace(r[0])
  {
    if s != [] && IsSpace(s[0]) then TrimStart(s[1..]) else s
  }

  /** `trimEnd`: drops the trailing run of spaces. */
  function TrimEnd(s: string): (r: string)
    ensures |r| <= |s| && r == s[..|r|]
    ensures AllSpace(s[|r|..])
    ensures r != [] ==> !IsSpace(r[|r| - 1])
  {
    if s != [] && IsSpace(s[|s| - 1]) then
      var r := TrimEnd(s[..|s| - 1]);
      assert s[|r|..] == s[..|s| - 1][|r|..] + [s[|s| - 1]];
      r
    else
      s
  }

  /** `r` sits at index `i` of `s` with only spaces before and after it. */
  predicate FramedBySpace(s: string, i: int, r: string) {
    && 0 <= i <= |s| - |r|
    && s[i..i + |r|] == r
    && AllSpace(s[..i])
    && AllSpace(s[i + |r|..])
  }

  /** `trim()` */
  function Trim(s: string): string {
    TrimEnd(TrimStart(s))
  }

  /** `trim()` leaves `s` without space at either end, cut out of `s` between two runs of spaces. */
  lemma TrimShape(s: string)
    ensures var r := Trim(s);
            (r != [] ==> !IsSpace(r[0]) && !IsSpace(r[|r| - 1])) && exists i :: FramedBySpace(s, i, r)
  {
    var t := TrimStart(s);
    var r := TrimEnd(t);
    var i := |s| - |t|;
    assert r != [] ==> !IsSpace(r[0]) by {
      if r != [] {
        assert r[0] == t[0];
      }
    }
    assert t == s[i..] && AllSpace(s[..i]);
    assert r == t[..|r|] && AllSpace(t[|r|..]);
    assert s[i..i + |r|] == r by {
      assert s[i..i + |r|] == t[..|r|];
    }
    assert AllSpace(s[i + |r|..]) by {
      assert s[i + |r|..] == t[|r|..];
    }
    assert FramedBySpace(s, i, r);
  }

  /** `replace(/\s+/g, " ")`: each maximal run of spaces becomes one `' '`. */
  function Collapse(s: string): string
    decreases |s|
  {
    if s == [] then []
    else if IsSpace(s[0]) then [' '] + Collapse(TrimStart(s))
    else [s[0]] + Collapse(s[1..])
  }

  /**
   * After `replace(/\s+/g, " ")` every space is `' '`, no two spaces are
   * adjacent, the first character is a space exactly when the input's is,
   * and the string is no longer than before.
   */
  lemma {:induction false} CollapseShape(s: string)
    ensures var r := Collapse(s);
            && |r| <= |s|
            && (s != [] ==> r != [] && (IsSpace(r[0]) <==> IsSpace(s[0])))
            && (forall i :: 0 <= i < |r| && IsSpace(r[i]) ==> r[i] == ' ')
            && (forall i :: 0 <= i < |r| - 1 ==> !(IsSpace(r[i]) && IsSpace(r[i + 1])))
    decreases |s|
  {
    if s != [] {
      var t := if IsSpace(s[0]) then TrimStart(s) else s[1..];
      CollapseShape(t);
      var c := if IsSpace(s[0]) then ' ' else s[0];
      assert Collapse(s) == [c] + Collapse(t);
      assert IsSpace(s[0]) && t != [] ==> !IsSpace(t[0]);
    }
  }

  /** The fallback branch of `cn`. */
  function CnFallback(inputs: seq<string>): (r: string)
    ensures r == Unwords(FlatWords(inputs))
    ensures Canonical(r)
    ensures Words(r) == FlatWords(inputs)
  {
    var joined := Join(" ", Filter(inputs));
    NormalForm(joined);
    WordsOfJoin(Filter(inputs));
    FilterKeepsWords(inputs);
    UnwordsCanonical(FlatWords(inputs));
    WordsOfUnwords(FlatWords(inputs));
    Collapse(Trim(joined))
  }

  // ---------------------------------------------------------------------------
  // The reference definition: words

  /** The longest space-free prefix of `s`. */
  function Word(s: string): (w: string)
    ensures w <= s && NoSpace(w)
    ensures |w| < |s| ==> IsSpace(s[|w|])
    ensures s != [] && !IsSpace(s[0]) ==> w != []
  {
    if s == [] || IsSpace(s[0]) then [] else [s[0]] + Word(s[1..])
  }

  /** The maximal space-free runs of `s`, from left to right. */
  function Words(s: string): (ws: seq<string>)
    ensures forall k :: 0 <= k < |ws| ==> IsWord(ws[k])
    decreases |s|
  {
    if s == [] then []
    else if IsSpace(s[0]) then Words(s[1..])
    else var w := Word(s); [w] + Words(s[|w|..])
  }

  /** The words of every input, one input after another. */
  function FlatWords(inputs: seq<string>): (ws: seq<string>)
    ensures forall k :: 0 <= k < |ws| ==> IsWord(ws[k])
  {
    if inputs == [] then [] else Words(inputs[0]) + FlatWords(inputs[1..])
  }

  /** Words separated by single spaces. */
  function Unwords(ws: seq<string>): string {
    Join(" ", ws)
  }

  // ---------------------------------------------------------------------------
  // Lemmas about words

  /** A word stops at a following space. */
  lemma {:induction false} WordBeforeSpace(a: string, t: string)
    requires t == [] || IsSpace(t[0])
    ensures Word(a + t) == Word(a)
    decreases |a|
  {
    if a == [] {
      assert a + t == t;
    } else if !IsSpace(a[0]) {
      assert (a + t)[1..] == a[1..] + t;
      WordBeforeSpace(a[1..], t);
    }
  }

  /** A space-free string is one word (or none, when empty). */
  lemma {:induction false} WordsOfWord(w: string)
    requires NoSpace(w)
    ensures Words(w) == if w == [] then [] else [w]
  {
    if w != [] {
      WordOfNoSpace(w);
      assert w[|w|..] == [];
    }
  }

  lemma {:induction false} WordOfNoSpace(w: string)
    requires NoSpace(w)
    ensures Word(w) == w
    decreases |w|
  {
    if w != [] {
      assert NoSpace(w[1..]) by {
        assert forall i :: 0 <= i < |w[1..]| ==> w[1..][i] == w[i + 1];
      }
      WordOfNoSpace(w[1..]);
    }
  }

  /** Leading spaces do not change the words. */
  lemma {:induction false} WordsAfterSpaces(run: string, x: string)
    requires AllSpace(run)
    ensures Words(run + x) == Words(x)
    decreases |run|
  {
    if run == [] {
      assert run + x == x;
    } else {
      assert (run + x)[1..] == run[1..] + x;
      assert AllSpace(run[1..]) by {
        assert forall i :: 0 <= i < |run[1..]| ==> run[1..][i] == run[i + 1];
      }
      WordsAfterSpaces(run[1..], x);
    }
  }

  /** Joining two strings with a space concatenates their words. */
  lemma {:induction false} WordsOfSpaceJoin(a: string, b: string)
    ensures Words(a + " " + b) == Words(a) + Words(b)
    decreases |a|
  {
    var s := a + " " + b;
    if a == [] {
      assert s == " " + b;
      assert s[1..] == b;
    } else if IsSpace(a[0]) {
      assert s[1..] == a[1..] + " " + b;
      WordsOfSpaceJoin(a[1..], b);
    } else {
      WordBeforeSpace(a, " " + b);
      assert s == a + (" " + b);
      var w := Word(a);
      assert s[|w|..] == a[|w|..] + " " + b;
      WordsOfSpaceJoin(a[|w|..], b);
    }
  }

  /** The words of `xs.join(" ")` are the words of the parts, in order. */
  lemma {:induction false} WordsOfJoin(xs: seq<string>)
    ensures Words(Join(" ", xs)) == FlatWords(xs)
    decreases |xs|
  {
    if |xs| == 1 {
      assert FlatWords(xs[1..]) == [];
    } else if |xs| > 1 {
      WordsOfSpaceJoin(xs[0], Join(" ", xs[1..]));
      WordsOfJoin(xs[1..]);
    }
  }

  /**
   * Filtering works input by input, so with the one-input cases of its
   * contract it keeps the non-empty inputs in their order.
   */
  lemma {:induction false} FilterAppend(a: seq<string>, b: seq<string>)
    ensures Filter(a + b) == Filter(a) + Filter(b)
    decreases |a|
  {
    if a != [] {
      assert (a + b)[0] == a[0] && (a + b)[1..] == a[1..] + b;
      FilterAppend(a[1..], b);
    } else {
      assert a + b == b;
    }
  }

  /** Dropping empty inputs does not change the words. */
  lemma {:induction false} FilterKeepsWords(inputs: seq<string>)
    ensures FlatWords(Filter(inputs)) == FlatWords(inputs)
    decreases |inputs|
  {
    if inputs != [] {
      FilterKeepsWords(inputs[1..]);
      if inputs[0] == "" {
        assert Words(inputs[0]) == [];
      } else {
        assert ([inputs[0]] + Filter(inputs[1..]))[1..] == Filter(inputs[1..]);
      }
    }
  }

  // ---------------------------------------------------------------------------
  // Lemmas about trimming and collapsing

  /** Collapsing leaves a space-free prefix alone. */
  lemma {:induction false} CollapseAfterWord(a: string, b: string)
    requires NoSpace(a)
    ensures Collapse(a + b) == a + Collapse(b)
    decreases |a|
  {
    if a == [] {
      assert a + b == b;
    } else {
      assert (a + b)[1..] == a[1..] + b;
      assert NoSpace(a[1..]) by {
        assert forall i :: 0 <= i < |a[1..]| ==> a[1..][i] == a[i + 1];
      }
      CollapseAfterWord(a[1..], b);
      assert (a + b)[0] == a[0] && !IsSpace(a[0]);
      assert Collapse(a + b) == [a[0]] + Collapse(a[1..] + b);
      assert a == [a[0]] + a[1..];
    }
  }

  /** Trimming the start of spaces followed by a non-space yields the rest. */
  lemma {:induction false} TrimStartSpaces(run: string, x: string)
    requires AllSpace(run)
    requires x == [] || !IsSpace(x[0])
    ensures TrimStart(run + x) == x
    decreases |run|
  {
    if run == [] {
      assert run + x == x;
    } else {
      assert (run + x)[1..] == run[1..] + x;
      assert AllSpace(run[1..]) by {
        assert forall i :: 0 <= i < |run[1..]| ==> run[1..][i] == run[i + 1];
      }
      TrimStartSpaces(run[1..], x);
    }
  }

  /** Trimming the end only touches a tail that holds a non-space. */
  lemma {:induction false} TrimEndAppend(a: string, b: string)
    requires !AllSpace(b)
    ensures TrimEnd(a + b) == a + TrimEnd(b)
    decreases |b|
  {
    var s := a + b;
    if IsSpace(b[|b| - 1]) {
      var b' := b[..|b| - 1];
      assert s[..|s| - 1] == a + b';
      assert !AllSpace(b') by {
        var i :| 0 <= i < |b| && !IsSpace(b[i]);
        assert b'[i] == b[i];
      }
      TrimEndAppend(a, b');
    }
  }

  /** Trimming the end drops a trailing run of spaces. */
  lemma {:induction false} TrimEndSpaces(a: string, run: string)
    requires AllSpace(run)
    ensures TrimEnd(a + run) == TrimEnd(a)
    decreases |run|
  {
    if run == [] {
      assert a + run == a;
    } else {
      var s := a + run;
      var run' := run[..|run| - 1];
      assert s[..|s| - 1] == a + run';
      assert AllSpace(run') by {
        assert forall i :: 0 <= i < |run'| ==> run'[i] == run[i];
      }
      TrimEndSpaces(a, run');
    }
  }

  /** The last word, followed only by spaces, survives trimming and collapsing alone. */
  lemma CollapseTrimmedLastWord(w: string, run: string)
    requires IsWord(w) && AllSpace(run)
    ensures Collapse(TrimEnd(w + run)) == w
  {
    TrimEndSpaces(w, run);
    assert TrimEnd(w) == w;
    CollapseAfterWord(w, []);
    assert w + [] == w;
  }

  /** Trimming the end of a word, a run and more text only trims the text. */
  lemma TrimEndBeforeText(w: string, run: string, rest: string)
    requires rest != [] && !IsSpace(rest[0])
    ensures TrimEnd(w + run + rest) == w + (run + TrimEnd(rest))
  {
    assert !AllSpace(rest);
    assert w + run + rest == (w + run) + rest;
    TrimEndAppend(w + run, rest);
    assert (w + run) + TrimEnd(rest) == w + (run + TrimEnd(rest));
  }

  /** A run of spaces before a non-space collapses to one `' '`. */
  lemma CollapseRun(run: string, t: string)
    requires AllSpace(run) && run != []
    requires t == [] || !IsSpace(t[0])
    ensures Collapse(run + t) == [' '] + Collapse(t)
  {
    TrimStartSpaces(run, t);
    assert (run + t)[0] == run[0];
  }

  /** Trimming the end of text that starts with a non-space keeps that first character. */
  lemma TrimEndKeepsFirst(rest: string)
    requires rest != [] && !IsSpace(rest[0])
    ensures TrimEnd(rest) != [] && !IsSpace(TrimEnd(rest)[0])
  {
    var t := TrimEnd(rest);
    if t != [] {
      assert t[0] == rest[0];
    }
  }

  /** A word, a run of spaces and more text: the run becomes one `' '`. */
  lemma CollapseTrimmedStep(w: string, run: string, rest: string)
    requires IsWord(w) && AllSpace(run) && run != []
    requires rest != [] && !IsSpace(rest[0])
    ensures Collapse(TrimEnd(w + run + rest)) == w + " " + Collapse(TrimEnd(rest))
  {
    var t := TrimEnd(rest);
    TrimEndKeepsFirst(rest);
    TrimEndBeforeText(w, run, rest);
    CollapseAfterWord(w, run + t);
    CollapseRun(run, t);
    assert w + ([' '] + Collapse(t)) == w + " " + Collapse(t);
  }

  /** At a non-space, the words are the word there followed by the words after it. */
  lemma WordsAtWordStart(s: string)
    requires s != [] && !IsSpace(s[0])
    ensures Words(s) == [Word(s)] + Words(s[|Word(s)|..])
  {
  }

  /** A string that starts with a non-space is its first word, a run of spaces and the rest. */
  lemma SplitFirstWord(s: string) returns (w: string, run: string, rest: string)
    requires s != [] && !IsSpace(s[0])
    ensures s == w + run + rest && |rest| < |s|
    ensures IsWord(w) && AllSpace(run)
    ensures rest == [] || (run != [] && !IsSpace(rest[0]))
    ensures Words(s) == [w] + Words(rest)
  {
    w := Word(s);
    var tail := s[|w|..];
    rest := TrimStart(tail);
    run := tail[..|tail| - |rest|];
    assert tail == run + rest;
    assert s == w + run + rest by {
      assert s == w + tail;
    }
    assert rest != [] ==> run != [] by {
      if rest != [] {
        assert IsSpace(tail[0]);
      }
    }
    WordsAtWordStart(s);
    WordsAfterSpaces(run, rest);
  }

  /**
   * For a string without leading space, collapsing the end-trimmed string
   * gives its words separated by single spaces.
   */
  lemma {:induction false} CollapseTrimmed(s: string)
    requires s == [] || !IsSpace(s[0])
    ensures Collapse(TrimEnd(s)) == Unwords(Words(s))
    decreases |s|
  {
    if s != [] {
      var w, run, rest := SplitFirstWord(s);
      if rest == [] {
        assert s == w + run;
        CollapseTrimmedLastWord(w, run);
        assert Words(rest) == [];
        assert Words(s) == [w];
      } else {
        CollapseTrimmedStep(w, run, rest);
        CollapseTrimmed(rest);
        var ws := Words(rest);
        assert ws != [];
        assert Unwords([w] + ws) == w + " " + Unwords(ws) by {
          assert ([w] + ws)[1..] == ws;
        }
      }
    }
  }

  /** `replace(/\s+/g, " ")` after `trim()` is the single-space rendering of the words. */
  lemma NormalForm(s: string)
    ensures Collapse(Trim(s)) == Unwords(Words(s))
  {
    var t := TrimStart(s);
    var run := s[..|s| - |t|];
    assert s == run + t;
    WordsAfterSpaces(run, t);
    CollapseTrimmed(t);
  }

  /** Words separated by single spaces form a canonical string. */
  lemma {:induction false} UnwordsCanonical(ws: seq<string>)
    requires forall k :: 0 <= k < |ws| ==> IsWord(ws[k])
    ensures Canonical(Unwords(ws))
    ensures Unwords(ws) == "" <==> ws == []
    decreases |ws|
  {
    if |ws| > 1 {
      var w := ws[0];
      assert IsWord(w);
      UnwordsCanonical(ws[1..]);
      var t := Unwords(ws[1..]);
      var s := w + " " + t;
      assert s == Unwords(ws);
      assert t != [];
      forall i | 0 <= i < |s| && IsSpace(s[i])
        ensures s[i] == ' '
      {
        if i > |w| {
          assert s[i] == t[i - |w| - 1];
        }
      }
      forall i | 0 <= i < |s| - 1
        ensures !(IsSpace(s[i]) && IsSpace(s[i + 1]))
      {
        if i > |w| {
          assert s[i] == t[i - |w| - 1];
          assert s[i + 1] == t[i - |w|];
        } else if i == |w| {
          assert s[i + 1] == t[0];
        } else {
          assert s[i] == w[i];
        }
      }
      assert s[|s| - 1] == t[|t| - 1];
    }
  }

  /** The words of single-space-separated words are those words. */
  lemma {:induction false} WordsOfUnwords(ws: seq<string>)
    requires forall k :: 0 <= k < |ws| ==> IsWord(ws[k])
    ensures Words(Unwords(ws)) == ws
  {
    WordsOfJoin(ws);
    FlatWordsOfWords(ws);
  }

  lemma {:induction false} FlatWordsOfWords(ws: seq<string>)
    requires forall k :: 0 <= k < |ws| ==> IsWord(ws[k])
    ensures FlatWords(ws) == ws
    decreases |ws|
  {
    if ws != [] {
      WordsOfWord(ws[0]);
      FlatWordsOfWords(ws[1..]);
    }
  }

  // ---------------------------------------------------------------------------
  // Properties of the fallback `cn`

  /** A single input is rendered as its own words. */
  lemma CnOfOne(inputs: seq<string>)
    requires |inputs| == 1
    ensures CnFallback(inputs) == Unwords(Words(inputs[0]))
  {
    var ws := FlatWords(inputs);
    assert ws == Words(inputs[0]) + FlatWords(inputs[1..]);
    assert inputs[1..] == [];
    assert FlatWords(inputs[1..]) == [];
    assert ws == Words(inputs[0]);
    assert CnFallback(inputs) == Unwords(ws);
  }

  /** Feeding the result back in as the only input returns it unchanged. */
  lemma CnIdempotent(inputs: seq<string>)
    ensures CnFallback([CnFallback(inputs)]) == CnFallback(inputs)
  {
    var r := CnFallback(inputs);
    var ws := FlatWords(inputs);
    assert r == Unwords(ws) && Words(r) == ws;
    CnOfOne([r]);
  }

  lemma {:induction false} FlatWordsAppend(a: seq<string>, b: seq<string>)
    ensures FlatWords(a + b) == FlatWords(a) + FlatWords(b)
    decreases |a|
  {
    if a == [] {
      assert a + b == b;
    } else {
      assert (a + b)[1..] == a[1..] + b;
      FlatWordsAppend(a[1..], b);
    }
  }

  /** An empty input contributes nothing, wherever it stands. */
  lemma CnDropsEmpty(before: seq<string>, after: seq<string>)
    ensures CnFallback(before + [""] + after) == CnFallback(before + after)
  {
    FlatWordsAppend(before + [""], after);
    FlatWordsAppend(before, [""]);
    FlatWordsAppend(before, after);
    assert FlatWords([""]) == [] by {
      assert [""][1..] == [];
      assert Words("") == [];
    }
    var a := before + [""] + after;
    var b := before + after;
    assert FlatWords(a) == FlatWords(b);
    assert CnFallback(a) == Unwords(FlatWords(a));
    assert CnFallback(b) == Unwords(FlatWords(b));
  }

  /** A string has no words exactly when it is all spaces. */
  lemma {:induction false} NoWordsIffAllSpace(s: string)
    ensures Words(s) == [] <==> AllSpace(s)
    decreases |s|
  {
    if s != [] {
      if IsSpace(s[0]) {
        NoWordsIffAllSpace(s[1..]);
        if AllSpace(s[1..]) {
          assert forall i :: 1 <= i < |s| ==> s[i] == s[1..][i - 1];
        } else {
          var i :| 0 <= i < |s[1..]| && !IsSpace(s[1..][i]);
          assert !IsSpace(s[i + 1]);
        }
      }
    }
  }

  /** The inputs have no words exactly when every one is empty or all spaces. */
  lemma {:induction false} NoFlatWordsIffBlank(inputs: seq<string>)
    ensures FlatWords(inputs) == [] <==> forall k :: 0 <= k < |inputs| ==> AllSpace(inputs[k])
    decreases |inputs|
  {
    if inputs != [] {
      NoFlatWordsIffBlank(inputs[1..]);
      NoWordsIffAllSpace(inputs[0]);
      assert forall k :: 1 <= k < |inputs| ==> inputs[k] == inputs[1..][k - 1];
    }
  }

  /** The result is empty exactly when every input is empty or all spaces. */
  lemma CnEmptyIffBlank(inputs: seq<string>)
    ensures CnFallback(inputs) == "" <==> forall k :: 0 <= k < |inputs| ==> AllSpace(inputs[k])
  {
    UnwordsCanonical(FlatWords(inputs));
    NoFlatWordsIffBlank(inputs);
  }
}
