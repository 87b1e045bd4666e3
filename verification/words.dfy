/** Splitting a string on single spaces and joining it back, as Python's
    `str.split(' ')` and `' '.join(...)` do. Splitting on an explicit
    separator keeps empty pieces: a string with k spaces splits into
    exactly k + 1 pieces, and "" splits into [""].
 */
module Words {

  /** The number of space characters in `s`. */
  function Spaces(s: string): nat
  {
    if s == [] then 0 else (if s[0] == ' ' then 1 else 0) + Spaces(s[1..])
  }

  /** A piece of a split: a string with no space in it. */
  predicate SpaceFree(w: string)
  {
    ' ' !in w
  }

  /** `s.split(' ')`: the maximal space-free runs of `s`, in order, one per
      gap between consecutive spaces (empty runs included). */
  function Split(s: string): (r: seq<string>)
    ensures |r| == Spaces(s) + 1
    ensures forall k :: 0 <= k < |r| ==> SpaceFree(r[k])
    decreases |s|
  {
    if s == [] then [""]
    else
      var rest := Split(s[1..]);
      if s[0] == ' ' then [""] + rest
      else [[s[0]] + rest[0]] + rest[1..]
  }

  /** `sep.join(ws)`: the pieces of `ws` in order with `sep` between
      neighbours; the join of no pieces is "". */
  function Join(ws: seq<string>, sep: string): string
  {
    if |ws| == 0 then ""
    else if |ws| == 1 then ws[0]
    else ws[0] + sep + Join(ws[1..], sep)
  }

  /** Splitting loses nothing: joining the pieces with " " gives back `s`. */
  lemma {:induction false} JoinSplit(s: string)
    ensures Join(Split(s), " ") == s
    decreases |s|
  {
    if s != [] {
      var rest := Split(s[1..]);
      JoinSplit(s[1..]);
      if s[0] == ' ' {
        assert Split(s) == [""] + rest;
        assert Join(Split(s), " ") == "" + " " + Join(rest, " ");
        assert s == [s[0]] + s[1..];
      } else {
        var r := Split(s);
        assert r == [[s[0]] + rest[0]] + rest[1..];
        if |rest| == 1 {
          assert Join(r, " ") == [s[0]] + rest[0];
          assert Join(rest, " ") == rest[0];
        } else {
          assert r[1..] == rest[1..];
          assert Join(r, " ") == [s[0]] + rest[0] + " " + Join(rest[1..], " ");
          assert Join(rest, " ") == rest[0] + " " + Join(rest[1..], " ");
        }
        assert s == [s[0]] + s[1..];
      }
    }
  }

  /** A space-free prefix glues onto the first piece of what follows it. */
  lemma {:induction false} SplitAfterWord(w: string, s: string)
    requires SpaceFree(w)
    ensures Split(w + s) == [w + Split(s)[0]] + Split(s)[1..]
    decreases |w|
  {
    if w != [] {
      SplitAfterWord(w[1..], s);
      assert (w + s)[1..] == w[1..] + s;
      assert (w + s)[0] == w[0] && w[0] != ' ';
      var rest := Split(w[1..] + s);
      assert Split(w + s) == [[w[0]] + rest[0]] + rest[1..];
      assert [w[0]] + (w[1..] + Split(s)[0]) == w + Split(s)[0];
    } else {
      assert w + s == s;
      assert w + Split(s)[0] == Split(s)[0];
      assert Split(s) == [Split(s)[0]] + Split(s)[1..];
    }
  }

  /** Joining space-free pieces with " " and splitting again gives back the
      pieces, provided there is at least one (the join of [] and of [""] are
      both ""). */
  lemma {:induction false} SplitJoin(ws: seq<string>)
    requires |ws| >= 1
    requires forall k :: 0 <= k < |ws| ==> SpaceFree(ws[k])
    ensures Split(Join(ws, " ")) == ws
    decreases |ws|
  {
    if |ws| == 1 {
      SplitAfterWord(ws[0], "");
      assert ws[0] + "" == ws[0];
    } else {
      var j := Join(ws[1..], " ");
      SplitJoin(ws[1..]);
      assert Join(ws, " ") == ws[0] + (" " + j);
      SplitAfterWord(ws[0], " " + j);
      assert (" " + j)[0] == ' ' && (" " + j)[1..] == j;
      assert Split(" " + j) == [""] + ws[1..];
      assert ws[0] + "" == ws[0];
      assert ws == [ws[0]] + ws[1..];
    }
  }

  /** Joining two non-empty runs of pieces puts one separator between them. */
  lemma {:induction false} JoinAppend(xs: seq<string>, ys: seq<string>, sep: string)
    requires |xs| >= 1 && |ys| >= 1
    ensures Join(xs + ys, sep) == Join(xs, sep) + sep + Join(ys, sep)
    decreases |xs|
  {
    if |xs| == 1 {
      assert (xs + ys)[1..] == ys;
    } else {
      JoinAppend(xs[1..], ys, sep);
      assert (xs + ys)[1..] == xs[1..] + ys;
      assert (xs + ys)[0] == xs[0];
    }
  }
}
