# Greedy word wrapping for dictionary cards

The repository builds a small dictionary website and, beside it, generates
social-sharing "card" images for its entries. To fit an entry's title and
teaser on a card, `cards.py` breaks the text into lines with the greedy word
wrapper `text_wrap(text, font, max_width)`. This project models that wrapper
and proves what it returns.

`text_wrap` works like this:

- If the whole text fits, it is returned as the one line `[text]`.
- Otherwise the text is split on single spaces (`text.split(' ')`).
- An outer loop then starts a new line for each round. An inner loop keeps
  appending the next word followed by one space while the line so far plus
  that word still fits.
- If not even the first word of a round fits on the empty line, that word is
  emitted alone, without a space, so that every round consumes at least one
  word.

Modules:

- `Words` (`words.dfy`) models Python's `str.split(' ')` as `Split` and
  `' '.join` as `Join`, and proves that they are inverse to each other.
- `Cards` (`cards.dfy`) holds the wrapper as the method `TextWrap`, with the
  same nested `while` loops, the same index `i` and the same `line`
  accumulator as the original. Its contract is the predicate
  `WrapResult(text, width, maxWidth, lines)`: a text that fits is the one
  line `[text]`. Otherwise the lines meet
  `GreedyWrapOf(words, lines, width, maxWidth)`, where `words` are the
  text's words. That predicate has three parts:
  - the words of the lines, taken in order, are exactly `words`;
  - every line is either a packed line (words, each followed by one space,
    where every width test made while building it passed) or a single
    space-free word wider than the bound;
  - greedy maximality: a packed line that is followed by another line could
    not have taken that line's first word.
- `WrapProperties` (`wrap_properties.dfy`) proves that this contract has
  exactly one solution, so it describes the output completely. Its lemmas
  take `WrapResult` itself as their hypothesis, so they stay tied to the
  method's contract. It also derives facts for particular inputs: the empty
  text, any text without spaces, and a worked example, `"ab cd"` measured
  one unit per character against a bound of 3.

The font appears only as a parameter `width: string -> int`, which stands for
`font.getsize(s)[0]`. Nothing is assumed about it, not even that a longer
string measures wider. `max_width` is an `int`. The font's widths are
integers, so comparing them with a fractional bound is the same as comparing
them with that bound's floor.

Behaviour of `text_wrap` worth knowing:

- Repeated spaces are not collapsed. `split(' ')` keeps empty pieces, so
  `"a  b"` has the words `"a"`, `""` and `"b"`, and the empty word shows up
  as an extra space inside a packed line.
- Packed lines keep their trailing space. Measured with that space, a packed
  line may exceed the bound. Measured without it, it fits.
- The empty text gives one empty line `[""]`, not an empty list.
- Only a lone word is ever tested, and found too wide, on its own. For a
  packed line, the guarantee is what `PrefixesFit` states: every width test
  made while building it passed. No monotonicity is assumed, so nothing more
  follows.

## Model

| member | source | states |
|---|---|---|
| `Words.Split` | cards.py:17 | `text.split(' ')` has one more piece than the text has spaces, and no piece contains a space |
| `Words.JoinSplit` | cards.py:17 | splitting on spaces loses nothing: joining the pieces with `" "` gives back the text, including empty pieces from repeated, leading or trailing spaces |
| `Words.SplitJoin` | cards.py:17 | joining one or more space-free words with `" "` and splitting again gives back the same words |
| `Cards.TextWrap` | cards.py:11-30 | the result meets `WrapResult`: a text that fits is returned as `[text]`. Otherwise the result is a greedy packing of `text.split(' ')` (`GreedyWrapOf`): the words of the lines in order are exactly the pieces; each line is either a packed line whose every width test passed or one space-free word wider than the bound; every packed line followed by another fails the width test with that line's first word. The result is never empty and, on the slow path, has no more lines than pieces. The loops terminate for every width function and bound |
| `Cards.AppendWord` | cards.py:22-23 | appending a space-free word and a space to the line keeps every width test of the line passed, provided the line plus the word fits (the inner loop's guard) |
| `Cards.PackStep` | cards.py:23 | after each step of the inner loop, the line is the words accepted so far, each followed by exactly one space |
| `Cards.PackedLineWords` | cards.py:21-24 | a line built by the inner loop from one or more words ends in a space and stands for exactly those words |
| `Cards.LoneWordLine` | cards.py:25-27 | a word emitted alone has no trailing space and stands for itself only |
| `Cards.CloseLine` | cards.py:25-29 | appending the finished line extends the output's words by that line's words, and keeps all lines fitting and the packing maximal |
| `Cards.WordsOf` | cards.py:20-29 | every output line stands for at least one word, so there are at least as many words as lines |
| `WrapProperties.PackedLineShape` | cards.py:22-23 | every packed line is one or more words, each followed by exactly one space |
| `WrapProperties.PackedFitAt` | cards.py:22-23 | in a packed line, the first j words joined by spaces measure at most the bound, for every j up to the number of words. For the last j this is the line without its trailing space |
| `WrapProperties.GreedyWrapUnique` | cards.py:17-29 | two greedy packings of the same words under the same width function and bound are equal |
| `WrapProperties.WrapDetermined` | cards.py:11-30 | any two line lists that satisfy the contract of `TextWrap` for the same text are equal, so the contract determines the output |
| `WrapProperties.SpaceFreeTextIsOneLine` | cards.py:14-27 | a text without spaces comes back as the single line `[text]`, whether it fits or not: it is never broken inside a word |
| `WrapProperties.EmptyTextIsOneEmptyLine` | cards.py:14-27 | the empty text always gives `[""]`: one empty line, never zero lines |
| `WrapProperties.ExampleWords` | cards.py:17 | `"ab cd".split(' ')` is `["ab", "cd"]` |
| `WrapProperties.ExamplePacking` | cards.py:20-29 | with one unit of width per character and a bound of 3, the lines `["ab ", "cd "]` are a greedy packing of `["ab", "cd"]` |
| `WrapProperties.TwoShortWords` | cards.py:11-30 | worked example: with one unit of width per character and a bound of 3, `text_wrap("ab cd")` returns `["ab ", "cd "]`, each word on its own line with its trailing space |
| `WrapProperties.TrimmedLinesAreNotTheWrap` | cards.py:22-23 | in the same example, the trimmed lines `["ab", "cd"]` do not meet the contract: packed lines keep their trailing space |

## Left out

- `make_twitter_card` (cards.py:32-70): it opens and saves PNG files, reads
  entry fields, and places blocks vertically with floating-point offsets
  (`4.5 * (W/5)`, `.6` and `2.5` times the line height). This is image I/O
  and float layout, not wrapping logic.
- `draw_multiline` and `draw_centered` (cards.py:72-84): drawing through the
  imaging library, with float cursor arithmetic (`.8` times the line height)
  and centring by `(W-w)/2`.
- `load_font`, `make_twitter_cards` and the `__main__` block (cards.py:86-125):
  font files, the content API client, environment variables and printing.
- `app.py`: fetching from the content API, web routing and template
  rendering. `static/js/index.js`: browser click handlers. Neither is part
  of this model.
- Real glyph metrics: the wrapper is proved for an arbitrary width function,
  never for a real font. The worked example uses one unit of width per
  character.
- Fractional bounds: a fractional `max_width` is modelled as the integer
  bound it is equivalent to, because the font's widths are integers.
