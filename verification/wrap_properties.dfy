/** Consequences of the contract of `Cards.TextWrap`.

    The contract leaves no freedom: two line sequences that are both greedy
    packings of the same words under the same width function and bound are
    equal. So the properties proved of the wrapper (word order kept, every
    packed line's tests passed, lone words too wide, greedy maximality)
    describe its output completely, and facts about particular inputs follow
    from the contract alone.
 */
module WrapProperties {
  import opened Words
  import opened Cards

  /** Mapping a concatenation concatenates the pieces. */
  lemma {:induction false} ConcatMapAppend<T, U>(xs: seq<T>, ys: seq<T>, f: T -> seq<U>)
    ensures ConcatMap(xs + ys, f) == ConcatMap(xs, f) + ConcatMap(ys, f)
    decreases |ys|
  {
    if ys == [] {
      assert xs + ys == xs;
    } else {
      var init := ys[..|ys| - 1];
      var last := ys[|ys| - 1];
      assert ys == init + [last];
      assert xs + ys == (xs + init) + [last];
      ConcatMapAppend(xs, init, f);
      ConcatMapSnoc(xs + init, last, f);
      ConcatMapSnoc(init, last, f);
    }
  }

  /** The words of a concatenation of line sequences. */
  lemma WordsOfAppend(x: seq<string>, y: seq<string>)
    ensures WordsOf(x + y) == WordsOf(x) + WordsOf(y)
  {
    ConcatMapAppend(x, y, LineWords);
  }

  /** The first line's words come first. */
  lemma WordsOfFront(lines: seq<string>)
    requires lines != []
    ensures WordsOf(lines) == LineWords(lines[0]) + WordsOf(lines[1..])
  {
    assert lines == [lines[0]] + lines[1..];
    WordsOfAppend([lines[0]], lines[1..]);
    WordsOfSnoc([], lines[0]);
    assert [] + [lines[0]] == [lines[0]];
  }

  /** A packed line is its words, each followed by one space. */
  lemma PackedLineShape(line: string)
    requires HasTrailingSpace(line)
    ensures line == Join(LineWords(line), " ") + " "
  {
    var body := line[..|line| - 1];
    JoinSplit(body);
    assert line == body + " ";
  }

  /** In a packed line whose space-prefixes fit, the first j words joined
      by spaces fit too. */
  lemma PackedFitAt(line: string, j: nat, width: string -> int, maxWidth: int)
    requires HasTrailingSpace(line) && PrefixesFit(line, width, maxWidth)
    requires 1 <= j <= |LineWords(line)|
    ensures width(Join(LineWords(line)[..j], " ")) <= maxWidth
  {
    var g := LineWords(line);
    PackedLineShape(line);
    var head := Join(g[..j], " ");
    if j < |g| {
      assert g == g[..j] + g[j..];
      JoinAppend(g[..j], g[j..], " ");
      assert line == head + (" " + Join(g[j..], " ") + " ");
    } else {
      assert g[..j] == g;
      assert line == head + " ";
    }
    var p := |head|;
    assert line[p] == ' ';
    assert line[..p] == head;
  }

  /** The tail of a greedy packing is a greedy packing of the words after
      the first line's. */
  lemma GreedyTail(words: seq<string>, lines: seq<string>, width: string -> int, maxWidth: int)
    requires GreedyWrapOf(words, lines, width, maxWidth) && lines != []
    ensures |LineWords(lines[0])| <= |words|
    ensures words[..|LineWords(lines[0])|] == LineWords(lines[0])
    ensures GreedyWrapOf(words[|LineWords(lines[0])|..], lines[1..], width, maxWidth)
  {
    var g := LineWords(lines[0]);
    var rest := lines[1..];
    WordsOfFront(lines);
    assert words == g + WordsOf(rest);
    assert words[|g|..] == WordsOf(rest);
    forall k | 0 <= k < |rest|
      ensures LineFits(rest[k], width, maxWidth)
    {
      assert rest[k] == lines[k + 1];
    }
    forall k | 0 <= k < |rest| - 1 && HasTrailingSpace(rest[k])
      ensures width(rest[k] + LineWords(rest[k + 1])[0]) > maxWidth
    {
      assert rest[k] == lines[k + 1] && rest[k + 1] == lines[k + 2];
    }
  }

  /** If the first line of one packing is a lone over-wide word, the first
      line of any other packing of the same words is not a packed line. */
  lemma LoneFirstLine(words: seq<string>, a: seq<string>, b: seq<string>, width: string -> int, maxWidth: int)
    requires GreedyWrapOf(words, a, width, maxWidth) && a != []
    requires GreedyWrapOf(words, b, width, maxWidth) && b != []
    requires !HasTrailingSpace(a[0])
    ensures !HasTrailingSpace(b[0])
  {
    GreedyTail(words, a, width, maxWidth);
    GreedyTail(words, b, width, maxWidth);
    assert LineFits(a[0], width, maxWidth) && LineFits(b[0], width, maxWidth);
    var gb := LineWords(b[0]);
    assert a[0] == LineWords(a[0])[0] == words[0];
    if HasTrailingSpace(b[0]) {
      PackedFitAt(b[0], 1, width, maxWidth);
      assert false;
    }
  }

  /** Two packed first lines: the other's first line holds no more words,
      since the word after this line's last did not fit. */
  lemma PackedFirstLine(words: seq<string>, a: seq<string>, b: seq<string>, width: string -> int, maxWidth: int)
    requires GreedyWrapOf(words, a, width, maxWidth) && a != []
    requires GreedyWrapOf(words, b, width, maxWidth) && b != []
    requires HasTrailingSpace(a[0]) && HasTrailingSpace(b[0])
    ensures |LineWords(b[0])| <= |LineWords(a[0])|
  {
    var ga, gb := LineWords(a[0]), LineWords(b[0]);
    GreedyTail(words, a, width, maxWidth);
    GreedyTail(words, b, width, maxWidth);
    if |ga| < |gb| {
      var n := |ga|;
      assert ga == words[..n] == gb[..n];
      assert WordsOf(a[1..]) == words[n..];
      assert |a| > 1;
      WordsOfFront(a[1..]);
      assert LineWords(a[1])[0] == words[n] == gb[n];
      assert width(a[0] + gb[n]) > maxWidth;
      PackedLineShape(a[0]);
      JoinAppend(ga, [gb[n]], " ");
      SliceSnoc(gb, 0, n);
      assert gb[0..n] == gb[..n];
      assert a[0] + gb[n] == Join(gb[..n + 1], " ");
      assert LineFits(b[0], width, maxWidth);
      PackedFitAt(b[0], n + 1, width, maxWidth);
      assert false;
    }
  }

  /** Both packings start with the same line. */
  lemma SameFirstLine(words: seq<string>, a: seq<string>, b: seq<string>, width: string -> int, maxWidth: int)
    requires GreedyWrapOf(words, a, width, maxWidth) && a != []
    requires GreedyWrapOf(words, b, width, maxWidth) && b != []
    ensures a[0] == b[0]
  {
    GreedyTail(words, a, width, maxWidth);
    GreedyTail(words, b, width, maxWidth);
    var ga, gb := LineWords(a[0]), LineWords(b[0]);
    if !HasTrailingSpace(a[0]) {
      LoneFirstLine(words, a, b, width, maxWidth);
      assert a[0] == ga[0] == words[0] == gb[0] == b[0];
    } else if !HasTrailingSpace(b[0]) {
      LoneFirstLine(words, b, a, width, maxWidth);
    } else {
      PackedFirstLine(words, a, b, width, maxWidth);
      PackedFirstLine(words, b, a, width, maxWidth);
      assert ga == words[..|ga|] == gb;
      PackedLineShape(a[0]);
      PackedLineShape(b[0]);
    }
  }

  /** Sequences with the same first item and the same tail are equal. */
  lemma SameHeadAndTail<T>(a: seq<T>, b: seq<T>)
    requires a != [] && b != []
    requires a[0] == b[0] && a[1..] == b[1..]
    ensures a == b
  {
    assert a == [a[0]] + a[1..];
    assert b == [b[0]] + b[1..];
  }

  /** A greedy packing of given words is unique. */
  lemma {:induction false} GreedyWrapUnique(words: seq<string>, a: seq<string>, b: seq<string>,
                                            width: string -> int, maxWidth: int)
    requires GreedyWrapOf(words, a, width, maxWidth)
    requires GreedyWrapOf(words, b, width, maxWidth)
    ensures a == b
    decreases |a|
  {
    if a == [] || b == [] {
      assert |WordsOf(a)| >= |a| && |WordsOf(b)| >= |b|;
    } else {
      SameFirstLine(words, a, b, width, maxWidth);
      GreedyTail(words, a, width, maxWidth);
      GreedyTail(words, b, width, maxWidth);
      GreedyWrapUnique(words[|LineWords(a[0])|..], a[1..], b[1..], width, maxWidth);
      SameHeadAndTail(a, b);
    }
  }

  /** What `text_wrap` returns is determined by its contract: any list of
      lines meeting that contract is the one it returns. */
  lemma WrapDetermined(text: string, width: string -> int, maxWidth: int, a: seq<string>, b: seq<string>)
    requires WrapResult(text, width, maxWidth, a) && WrapResult(text, width, maxWidth, b)
    ensures a == b
  {
    if width(text) > maxWidth {
      GreedyWrapUnique(Split(text), a, b, width, maxWidth);
    }
  }

  /** A text without spaces, the empty text included, comes back as the one
      line it is: it fits, or it is a single word too wide to share a line. */
  lemma SpaceFreeTextIsOneLine(text: string, width: string -> int, maxWidth: int, lines: seq<string>)
    requires SpaceFree(text)
    requires WrapResult(text, width, maxWidth, lines)
    ensures lines == [text]
  {
    if width(text) > maxWidth {
      SplitAfterWord(text, "");
      assert text + "" == text;
      assert Split(text) == [text];
      if |text| > 0 {
        assert text[|text| - 1] in text;
      }
      assert LineWords(text) == [text];
      WordsOfSnoc([], text);
      assert [] + [text] == [text];
      assert GreedyWrapOf([text], [text], width, maxWidth);
      GreedyWrapUnique([text], lines, [text], width, maxWidth);
    }
  }

  /** One unit of width per character. */
  function Chars(s: string): int
  {
    |s|
  }

  /** "ab cd" splits into its two words. */
  lemma ExampleWords()
    ensures Split("ab cd") == ["ab", "cd"]
  {
    var ws := ["ab", "cd"];
    assert Join(ws, " ") == "ab cd" by {
      assert ws[1..] == ["cd"];
    }
    assert SpaceFree("ab") && SpaceFree("cd");
    SplitJoin(ws);
  }

  /** A word followed by a space is a packed line holding that word. */
  lemma OneWordLine(w: string)
    requires SpaceFree(w)
    ensures HasTrailingSpace(w + " ")
    ensures LineWords(w + " ") == [w]
  {
    assert (w + " ")[..|w|] == w;
    SplitJoin([w]);
  }

  /** One word per line, each with its space, is a greedy packing of
      "ab" and "cd" under a bound of 3 characters. */
  lemma ExamplePacking()
    ensures GreedyWrapOf(["ab", "cd"], ["ab ", "cd "], Chars, 3)
  {
    var lines := ["ab ", "cd "];
    assert SpaceFree("ab") && SpaceFree("cd");
    OneWordLine("ab");
    OneWordLine("cd");
    assert "ab" + " " == "ab " && "cd" + " " == "cd ";
    WordsOfSnoc([], "ab ");
    WordsOfSnoc(["ab "], "cd ");
    assert [] + ["ab "] == ["ab "];
    assert ["ab "] + ["cd "] == lines;
    assert WordsOf(lines) == ["ab", "cd"];
    assert "ab "[..2] == "ab" && "cd "[..2] == "cd";
    assert LineFits(lines[0], Chars, 3) && LineFits(lines[1], Chars, 3);
    assert Chars("ab " + "cd") == 5;
  }

  /** A worked example: one unit of width per character and a bound of 3.
      "ab cd" measures 5, so it is split; "ab" plus its space fits, "ab cd"
      does not, so each word gets a line of its own and keeps its trailing
      space. */
  lemma TwoShortWords(lines: seq<string>)
    requires WrapResult("ab cd", Chars, 3, lines)
    ensures lines == ["ab ", "cd "]
  {
    assert Chars("ab cd") == 5;
    ExampleWords();
    ExamplePacking();
    GreedyWrapUnique(["ab", "cd"], lines, ["ab ", "cd "], Chars, 3);
  }

  /** The same example with the trailing spaces trimmed is not what
      `text_wrap` returns. */
  lemma TrimmedLinesAreNotTheWrap()
    ensures !GreedyWrapOf(Split("ab cd"), ["ab", "cd"], Chars, 3)
  {
    if GreedyWrapOf(Split("ab cd"), ["ab", "cd"], Chars, 3) {
      TwoShortWords(["ab", "cd"]);
    }
  }

  /** `text_wrap("")` is one empty line, never an empty list. */
  lemma EmptyTextIsOneEmptyLine(width: string -> int, maxWidth: int, lines: seq<string>)
    requires WrapResult("", width, maxWidth, lines)
    ensures lines == [""]
  {
    SpaceFreeTextIsOneLine("", width, maxWidth, lines);
  }
}
