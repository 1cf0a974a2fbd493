/** `stream_data`: the answer text cut into words, each followed by one
    space, so that the page can show it as if it were being typed. */
module Stream {

  /** Number of occurrences of `c` in `s`. */
  function Count(s: string, c: char): nat
  {
    if s == [] then 0 else (if s[0] == c then 1 else 0) + Count(s[1..], c)
  }

  /** Python's `s.split(' ')`: cuts at every single space, so two adjacent
      spaces give an empty piece and the empty string gives one empty piece. */
  function Split(s: string): (pieces: seq<string>)
    ensures |pieces| >= 1
  {
    if s == [] then [""]
    else if s[0] == ' ' then [""] + Split(s[1..])
    else
      var rest := Split(s[1..]);
      [[s[0]] + rest[0]] + rest[1..]
  }

  /** `' '.join(pieces)`. */
  function Join(pieces: seq<string>): string
    requires |pieces| >= 1
  {
    if |pieces| == 1 then pieces[0] else pieces[0] + " " + Join(pieces[1..])
  }

  /** The text the chunks spell when written out one after another. */
  function Concat(chunks: seq<string>): string
  {
    if chunks == [] then "" else chunks[0] + Concat(chunks[1..])
  }

  /** The chunks `stream_data(text)` yields, in order. */
  function StreamData(text: string): (chunks: seq<string>)
    ensures |chunks| >= 1
    ensures forall i :: 0 <= i < |chunks| ==> |chunks[i]| >= 1 && chunks[i][|chunks[i]| - 1] == ' '
  {
    var words := Split(text);
    seq(|words|, i requires 0 <= i < |words| => words[i] + " ")
  }

  /** No piece of a split contains the separator. */
  lemma {:induction false} SplitHasNoSpace(s: string)
    ensures forall i :: 0 <= i < |Split(s)| ==> ' ' !in Split(s)[i]
  {
    if s != [] {
      SplitHasNoSpace(s[1..]);
    }
  }

  /** A split has one piece more than the text has spaces. */
  lemma {:induction false} SplitCount(s: string)
    ensures |Split(s)| == Count(s, ' ') + 1
  {
    if s != [] {
      SplitCount(s[1..]);
    }
  }

  /** Joining the pieces back with single spaces restores the text. */
  lemma {:induction false} JoinSplit(s: string)
    ensures Join(Split(s)) == s
  {
    if s != [] {
      var rest := Split(s[1..]);
      JoinSplit(s[1..]);
      if s[0] == ' ' {
        assert Split(s) == [""] + rest;
        assert Split(s)[1..] == rest;
      } else {
        if |rest| == 1 {
          assert Split(s) == [[s[0]] + rest[0]];
        } else {
          assert Split(s)[1..] == rest[1..];
          assert Join(rest) == rest[0] + " " + Join(rest[1..]);
        }
      }
    }
  }

  /** Splitting a join of space-free words gives the words back: `Split`
      is the inverse of `Join`. */
  lemma {:induction false} SplitJoin(words: seq<string>)
    requires |words| >= 1
    requires forall i :: 0 <= i < |words| ==> ' ' !in words[i]
    ensures Split(Join(words)) == words
  {
    if |words| == 1 {
      SplitPrefix(words[0], "");
      assert words[0] + "" == words[0];
    } else {
      var rest := words[1..];
      SplitJoin(rest);
      var after := [' '] + Join(rest);
      assert after[0] == ' ' && after[1..] == Join(rest);
      assert Split(after) == [""] + rest;
      assert Join(words) == words[0] + after;
      SplitPrefix(words[0], after);
      assert words[0] + "" == words[0];
    }
  }

  /** A space-free prefix `w` glues onto the first piece of the split of
      what follows it. */
  lemma {:induction false} SplitPrefix(w: string, s: string)
    requires ' ' !in w
    ensures Split(w + s) == [w + Split(s)[0]] + Split(s)[1..]
  {
    if w != [] {
      SplitPrefix(w[1..], s);
      assert (w + s)[0] == w[0];
      assert (w + s)[1..] == w[1..] + s;
      assert [w[0]] + (w[1..] + Split(s)[0]) == w + Split(s)[0];
    } else {
      assert w + s == s;
      assert w + Split(s)[0] == Split(s)[0];
    }
  }

  /** Writing out the suffixed words gives their join plus one space. */
  lemma {:induction false} ConcatSuffixed(words: seq<string>)
    requires |words| >= 1
    ensures Concat(seq(|words|, i requires 0 <= i < |words| => words[i] + " ")) == Join(words) + " "
  {
    var chunks := seq(|words|, i requires 0 <= i < |words| => words[i] + " ");
    if |words| > 1 {
      var tail := words[1..];
      ConcatSuffixed(tail);
      assert chunks[1..] == seq(|tail|, i requires 0 <= i < |tail| => tail[i] + " ");
    } else {
      assert chunks[1..] == [];
    }
  }

  /** Every chunk ends with the one space `stream_data` appends, and that is
      the only space in it. */
  lemma ChunksEndWithSpace(text: string)
    ensures forall i :: 0 <= i < |StreamData(text)| ==>
              var c := StreamData(text)[i];
              |c| >= 1 && c[|c| - 1] == ' ' && ' ' !in c[..|c| - 1]
  {
    SplitHasNoSpace(text);
    forall i | 0 <= i < |StreamData(text)|
      ensures var c := StreamData(text)[i]; |c| >= 1 && c[|c| - 1] == ' ' && ' ' !in c[..|c| - 1]
    {
      var c := StreamData(text)[i];
      assert c[..|c| - 1] == Split(text)[i];
    }
  }

  /** `stream_data` yields one chunk more than the text has spaces. */
  lemma ChunkCount(text: string)
    ensures |StreamData(text)| == Count(text, ' ') + 1
  {
    SplitCount(text);
  }

  /** Writing out every chunk gives the text back with one trailing space. */
  lemma StreamConcat(text: string)
    ensures Concat(StreamData(text)) == text + " "
  {
    ConcatSuffixed(Split(text));
    JoinSplit(text);
  }
}
