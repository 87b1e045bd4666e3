/** The greedy word wrapper that lays out card titles and subtitles.

    The font is reduced to what the wrapper asks of it, the pixel width of a
    string: an arbitrary function `width: string -> int`, about which nothing
    (not even monotonicity) is assumed. The maximum width is an `int`; since
    the font's widths are integers, comparing them with a fractional bound is
    the same as comparing them with its floor.
 */
module Cards {
  import opened Words

  /** A line closed by the inner loop: its words, each followed by a space. */
  predicate HasTrailingSpace(line: string)
  {
    |line| > 0 && line[|line| - 1] == ' '
  }

  /** The words a line of the output stands for: the space-separated words
      of a line with a trailing space, or the line itself otherwise. */
  function LineWords(line: string): (r: seq<string>)
    ensures |r| >= 1
  {
    if HasTrailingSpace(line) then Split(line[..|line| - 1]) else [line]
  }

  /** The pieces `f` gives for each item of `xs`, concatenated in order. */
  function ConcatMap<T, U>(xs: seq<T>, f: T -> seq<U>): seq<U>
  {
    if xs == [] then [] else ConcatMap(xs[..|xs| - 1], f) + f(xs[|xs| - 1])
  }

  /** Mapping one more item appends its pieces. */
  lemma ConcatMapSnoc<T, U>(xs: seq<T>, x: T, f: T -> seq<U>)
    ensures ConcatMap(xs + [x], f) == ConcatMap(xs, f) + f(x)
  {
    assert (xs + [x])[..|xs|] == xs;
  }

  /** When every item gives at least one piece, there are at least as many
      pieces as items. */
  lemma {:induction false} ConcatMapLength<T, U>(xs: seq<T>, f: T -> seq<U>)
    requires forall x :: |f(x)| >= 1
    ensures |ConcatMap(xs, f)| >= |xs|
    decreases |xs|
  {
    if xs != [] {
      ConcatMapLength(xs[..|xs| - 1], f);
    }
  }

  /** The words of all the lines, in line order. */
  function WordsOf(lines: seq<string>): (r: seq<string>)
    ensures |r| >= |lines|
  {
    ConcatMapLength(lines, LineWords);
    ConcatMap(lines, LineWords)
  }

  /** Every prefix of `line` that stops just before one of its spaces
      measures at most `maxWidth`: each width test the inner loop made while
      building the line passed, the last one being the line without its
      trailing space. */
  predicate PrefixesFit(line: string, width: string -> int, maxWidth: int)
  {
    forall p :: 0 <= p < |line| && line[p] == ' ' ==> width(line[..p]) <= maxWidth
  }

  /** A line either was packed greedily (trailing space, every packing test
      passed) or is one space-free word too wide for a line of its own. */
  predicate LineFits(line: string, width: string -> int, maxWidth: int)
  {
    if HasTrailingSpace(line) then PrefixesFit(line, width, maxWidth)
    else SpaceFree(line) && width(line) > maxWidth
  }

  /** Every line of `lines` is a packed line or a lone over-wide word. */
  predicate AllLinesFit(lines: seq<string>, width: string -> int, maxWidth: int)
  {
    forall k :: 0 <= k < |lines| ==> LineFits(lines[k], width, maxWidth)
  }

  /** Greedy maximality: a packed line that is followed by another line
      would have failed the width test with the next line's first word. */
  predicate Maximal(lines: seq<string>, width: string -> int, maxWidth: int)
  {
    forall k :: 0 <= k < |lines| - 1 && HasTrailingSpace(lines[k]) ==>
      width(lines[k] + LineWords(lines[k + 1])[0]) > maxWidth
  }

  /** `lines` is a greedy packing of `words` under `maxWidth`. */
  predicate GreedyWrapOf(words: seq<string>, lines: seq<string>, width: string -> int, maxWidth: int)
  {
    && WordsOf(lines) == words
    && AllLinesFit(lines, width, maxWidth)
    && Maximal(lines, width, maxWidth)
  }

  /** What `text_wrap` promises about its result: a text that fits is the
      one line `[text]`; otherwise the lines are a greedy packing of the
      text's words. */
  predicate WrapResult(text: string, width: string -> int, maxWidth: int, lines: seq<string>)
  {
    && (width(text) <= maxWidth ==> lines == [text])
    && (width(text) > maxWidth ==> GreedyWrapOf(Split(text), lines, width, maxWidth))
  }

  /** `text_wrap(text, font, max_width)`. A text that fits is one line.
      Otherwise its words (`text.split(' ')`) are packed left to right: a
      word is appended, with a space after it, while the line so far plus the
      word still fits; a word that does not fit even on an empty line is
      emitted alone, without a space, so that every round consumes a word. */
  method TextWrap(text: string, width: string -> int, maxWidth: int) returns (lines: seq<string>)
    ensures WrapResult(text, width, maxWidth, lines)
    ensures width(text) > maxWidth ==> |lines| <= |Split(text)|
    ensures |lines| >= 1
  {
    lines := [];
    if width(text) <= maxWidth {
      lines := lines + [text];
    } else {
      var words := Split(text);
      var i := 0;
      while i < |words|
        invariant 0 <= i <= |words|
        invariant WordsOf(lines) == words[..i]
        invariant AllLinesFit(lines, width, maxWidth)
        invariant Maximal(lines, width, maxWidth)
        invariant |lines| > 0 && HasTrailingSpace(lines[|lines| - 1]) && i < |words| ==>
          width(lines[|lines| - 1] + words[i]) > maxWidth
        decreases |words| - i
      {
        ghost var start := i;
        var line := "";
        while i < |words| && width(line + words[i]) <= maxWidth
          invariant start <= i <= |words|
          invariant line == "" <==> i == start
          invariant i > start ==> line == Join(words[start..i], " ") + " "
          invariant PrefixesFit(line, width, maxWidth)
          decreases |words| - i
        {
          AppendWord(line, words[i], width, maxWidth);
          PackStep(words, start, i, line);
          line := line + words[i] + " ";
          i := i + 1;
        }
        if line == "" {
          assert line + words[i] == words[i];
          line := words[i];
          i := i + 1;
          assert i == start + 1;
          LoneWordLine(words, start);
          assert LineFits(line, width, maxWidth);
          assert LineWords(line) == words[start..i];
        } else {
          assert line == Join(words[start..i], " ") + " ";
          PackedLineWords(words, start, i);
          assert LineFits(line, width, maxWidth);
          assert LineWords(line) == words[start..i];
        }
        assert HasTrailingSpace(line) && i < |words| ==> width(line + words[i]) > maxWidth;
        CloseLine(words, lines, line, start, i, width, maxWidth);
        lines := lines + [line];
      }
      assert words[..i] == words;
    }
  }

  /** One step of the inner loop: appending the next word and a space to
      the line built from `words[start..i]` gives the line built from
      `words[start..i + 1]`. */
  lemma PackStep(words: seq<string>, start: nat, i: nat, line: string)
    requires start <= i < |words|
    requires line == "" <==> i == start
    requires i > start ==> line == Join(words[start..i], " ") + " "
    ensures line + words[i] + " " == Join(words[start..i + 1], " ") + " "
  {
    SliceSnoc(words, start, i);
    if i == start {
      assert words[start..i + 1] == [words[i]];
    } else {
      JoinAppend(words[start..i], [words[i]], " ");
    }
  }

  /** Closing the line that holds `words[start..i]` extends the output's
      words to `words[..i]` and keeps every line fitting and the packing
      maximal. */
  lemma CloseLine(words: seq<string>, lines: seq<string>, line: string, start: nat, i: nat,
                  width: string -> int, maxWidth: int)
    requires start < i <= |words|
    requires WordsOf(lines) == words[..start]
    requires LineWords(line) == words[start..i]
    requires LineFits(line, width, maxWidth)
    requires AllLinesFit(lines, width, maxWidth) && Maximal(lines, width, maxWidth)
    requires |lines| > 0 && HasTrailingSpace(lines[|lines| - 1]) ==>
      width(lines[|lines| - 1] + words[start]) > maxWidth
    ensures WordsOf(lines + [line]) == words[..i]
    ensures AllLinesFit(lines + [line], width, maxWidth)
    ensures Maximal(lines + [line], width, maxWidth)
  {
    assert LineWords(line)[0] == words[start];
    AppendLine(lines, line, width, maxWidth);
    WordsOfSnoc(lines, line);
    TakeSplit(words, start, i);
  }

  /** Taking the first i items is taking the first `start` and then the rest. */
  lemma TakeSplit<T>(s: seq<T>, start: nat, i: nat)
    requires start <= i <= |s|
    ensures s[..i] == s[..start] + s[start..i]
  {
  }

  /** Extending a slice by the next item. */
  lemma SliceSnoc<T>(s: seq<T>, start: nat, i: nat)
    requires start <= i < |s|
    ensures s[start..i] + [s[i]] == s[start..i + 1]
  {
  }

  /** A packed line stands for exactly the words it was built from. */
  lemma PackedLineWords(words: seq<string>, start: nat, i: nat)
    requires start < i <= |words|
    requires forall k :: 0 <= k < |words| ==> SpaceFree(words[k])
    ensures HasTrailingSpace(Join(words[start..i], " ") + " ")
    ensures LineWords(Join(words[start..i], " ") + " ") == words[start..i]
  {
    var ws := words[start..i];
    var line := Join(ws, " ") + " ";
    assert line[..|line| - 1] == Join(ws, " ");
    assert forall k :: 0 <= k < |ws| ==> ws[k] == words[start + k];
    SplitJoin(ws);
  }

  /** A line holding one space-free word stands for that word alone. */
  lemma LoneWordLine(words: seq<string>, start: nat)
    requires start < |words|
    requires SpaceFree(words[start])
    ensures !HasTrailingSpace(words[start])
    ensures LineWords(words[start]) == words[start..start + 1]
  {
    var w := words[start];
    if |w| > 0 {
      assert w[|w| - 1] in w;
    }
    assert words[start..start + 1] == [w];
  }

  /** The words of one more line come after the words of the lines before. */
  lemma WordsOfSnoc(lines: seq<string>, line: string)
    ensures WordsOf(lines + [line]) == WordsOf(lines) + LineWords(line)
  {
    ConcatMapSnoc(lines, line, LineWords);
  }

  /** Emitting one more line keeps every line fitting and the packing maximal when the
      previous packed line could not take the new line's first word. */
  lemma AppendLine(lines: seq<string>, line: string, width: string -> int, maxWidth: int)
    requires AllLinesFit(lines, width, maxWidth) && LineFits(line, width, maxWidth)
    requires Maximal(lines, width, maxWidth)
    requires |lines| > 0 && HasTrailingSpace(lines[|lines| - 1]) ==>
      width(lines[|lines| - 1] + LineWords(line)[0]) > maxWidth
    ensures AllLinesFit(lines + [line], width, maxWidth)
    ensures Maximal(lines + [line], width, maxWidth)
  {
    var more := lines + [line];
    forall k | 0 <= k < |more|
      ensures LineFits(more[k], width, maxWidth)
    {
      if k < |lines| { assert more[k] == lines[k]; } else { assert more[k] == line; }
    }
    forall k | 0 <= k < |more| - 1 && HasTrailingSpace(more[k])
      ensures width(more[k] + LineWords(more[k + 1])[0]) > maxWidth
    {
      var a, b := more[k], more[k + 1];
      if k + 1 < |lines| {
        assert a == lines[k] && b == lines[k + 1];
      } else {
        assert a == lines[|lines| - 1] && b == line;
      }
    }
  }

  /** Appending a space-free word and a space to a line whose space-prefixes
      fit keeps them fitting when the line plus the word fits. */
  lemma AppendWord(line: string, w: string, width: string -> int, maxWidth: int)
    requires PrefixesFit(line, width, maxWidth)
    requires SpaceFree(w)
    requires width(line + w) <= maxWidth
    ensures PrefixesFit(line + w + " ", width, maxWidth)
  {
    var next := line + w + " ";
    forall p | 0 <= p < |next| && next[p] == ' '
      ensures width(next[..p]) <= maxWidth
    {
      if p < |line| {
        assert next[p] == line[p];
        assert next[..p] == line[..p];
      } else if p < |line| + |w| {
        assert false;
      } else {
        assert next[..p] == line + w;
      }
    }
  }
}
