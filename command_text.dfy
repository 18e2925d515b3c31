/** Reading a built `omniusers` command line back: each double-quoted value
    together with the option word written in front of it. This reader is the
    inverse that the command builders are checked against. */
module CommandText {

  predicate NoQuote(s: string) {
    forall i :: 0 <= i < |s| ==> s[i] != '"'
  }

  predicate NoBlank(s: string) {
    forall i :: 0 <= i < |s| ==> s[i] != ' '
  }

  /** The first index of `c` in `s`, or `|s|` when there is none */
  function IndexOfChar(s: string, c: char): (i: nat)
    ensures i <= |s|
    ensures i < |s| ==> s[i] == c
  {
    if s == [] || s[0] == c then 0 else 1 + IndexOfChar(s[1..], c)
  }

  /** No `c` comes before the index found, so the text in front of it holds none. */
  lemma {:induction false} IndexOfCharFirst(s: string, c: char)
    ensures forall k :: 0 <= k < IndexOfChar(s, c) ==> s[k] != c
    ensures forall k :: 0 <= k < IndexOfChar(s, c) ==> s[..IndexOfChar(s, c)][k] != c
    decreases |s|
  {
    if s != [] && s[0] != c {
      IndexOfCharFirst(s[1..], c);
    }
  }

  /** The index found is at most that of any `c` */
  lemma {:induction false} IndexOfCharBound(s: string, c: char, q: nat)
    requires q < |s| && s[q] == c
    ensures IndexOfChar(s, c) <= q
    decreases |s|
  {
    if s[0] != c {
      IndexOfCharBound(s[1..], c, q - 1);
    }
  }

  /** `s` without the blanks at its end */
  function DropTrailingBlanks(s: string): (r: string)
    ensures |r| <= |s| && r == s[..|r|]
    ensures r == [] || r[|r| - 1] != ' '
  {
    if s != [] && s[|s| - 1] == ' ' then DropTrailingBlanks(s[..|s| - 1]) else s
  }

  /** The characters after the last blank of `s` */
  function AfterLastBlank(s: string): (r: string)
    ensures NoBlank(r)
  {
    if s == [] || s[|s| - 1] == ' ' then [] else AfterLastBlank(s[..|s| - 1]) + [s[|s| - 1]]
  }

  /** The last blank-separated word of `s` */
  function LastWord(s: string): string {
    AfterLastBlank(DropTrailingBlanks(s))
  }

  /** The options of a command line: for each double-quoted value, the word in
      front of it and the text between the quotes; reading stops at the first
      quote that is not closed. */
  function Options(cmd: string): seq<(string, string)>
    decreases |cmd|
  {
    var i := IndexOfChar(cmd, '"');
    if i == |cmd| then []
    else
      var rest := cmd[i + 1..];
      var j := IndexOfChar(rest, '"');
      if j == |rest| then []
      else [(LastWord(cmd[..i]), rest[..j])] + Options(rest[j + 1..])
  }

  lemma {:induction false} AfterLastBlankOf(p: string, w: string)
    requires p != [] && p[|p| - 1] == ' '
    requires NoBlank(w)
    ensures AfterLastBlank(p + w) == w
    decreases |w|
  {
    if w == [] {
      assert p + w == p;
    } else {
      assert (p + w)[..|p + w| - 1] == p + w[..|w| - 1];
      AfterLastBlankOf(p, w[..|w| - 1]);
      assert w[..|w| - 1] + [w[|w| - 1]] == w;
    }
  }

  /** The option word written as `... <word> ` is read back as `<word>`. */
  lemma {:induction false} LastWordOf(a: string, w: string)
    requires w != [] && NoBlank(w)
    ensures LastWord(a + " " + w + " ") == w
  {
    var s := a + " " + w + " ";
    assert s[..|s| - 1] == (a + " ") + w;
    assert DropTrailingBlanks(s) == (a + " ") + w;
    AfterLastBlankOf(a + " ", w);
  }

  /** A value written between double quotes, as the f-strings write `\"{value}\"` */
  function Quote(v: string): string {
    "\"" + v + "\""
  }

  /** `x` is read to its end as whole options: every quote is closed and nothing follows the last one */
  predicate Closed(x: string)
    decreases |x|
  {
    var i := IndexOfChar(x, '"');
    if i == |x| then x == []
    else
      var rest := x[i + 1..];
      var j := IndexOfChar(rest, '"');
      j < |rest| && Closed(rest[j + 1..])
  }

  lemma {:induction false} IndexOfCharSkip(a: string, b: string, c: char)
    requires forall k :: 0 <= k < |a| ==> a[k] != c
    ensures IndexOfChar(a + b, c) == |a| + IndexOfChar(b, c)
    decreases |a|
  {
    if a != [] {
      assert (a + b)[1..] == a[1..] + b;
      IndexOfCharSkip(a[1..], b, c);
    } else {
      assert a + b == b;
    }
  }

  /** In `a"b` with no quote in `a`, the first quote follows `a`. */
  lemma FirstQuoteAt(a: string, b: string)
    requires NoQuote(a)
    ensures IndexOfChar(a + (['"'] + b), '"') == |a|
    ensures (a + (['"'] + b))[..|a|] == a
    ensures (a + (['"'] + b))[|a| + 1..] == b
  {
    IndexOfCharSkip(a, ['"'] + b, '"');
  }

  lemma NoQuoteConcat(a: string, b: string)
    requires NoQuote(a) && NoQuote(b)
    ensures NoQuote(a + b)
  {
    forall i | 0 <= i < |a + b| ensures (a + b)[i] != '"' {
      if i >= |a| {
        assert (a + b)[i] == b[i - |a|];
      }
    }
  }

  lemma Associate<T>(a: seq<T>, b: seq<T>, c: seq<T>)
    ensures a + (b + c) == a + b + c
  {
  }

  lemma Reassociate(a: string, b: string, c: string, d: string)
    ensures a + b + c + d == a + (b + c + d)
  {
  }

  /** `seg"v"tail`, with its quotes and parts made explicit */
  lemma QuotedShape(seg: string, v: string, tail: string)
    ensures seg + Quote(v) + tail == seg + (['"'] + (v + (['"'] + tail)))
  {
    assert Quote(v) == ['"'] + v + ['"'];
    Reassociate(seg, ['"'] + v, ['"'], tail);
    Associate(seg, ['"'], v + (['"'] + tail));
    assert ['"'] + v + (['"'] + tail) == ['"'] + (v + (['"'] + tail));
  }

  /** A text cut at an opening quote (index `i`) and the closing quote after it */
  lemma CutAtQuotes(x: string, i: nat, j: nat)
    requires i < |x| && x[i] == '"'
    requires j < |x[i + 1..]| && x[i + 1..][j] == '"'
    ensures x == x[..i] + Quote(x[i + 1..][..j]) + x[i + 1..][j + 1..]
  {
    var rest := x[i + 1..];
    var v := rest[..j];
    var tail := rest[j + 1..];
    assert rest == v + (['"'] + tail);
    assert x == x[..i] + (['"'] + rest);
    QuotedShape(x[..i], v, tail);
  }

  /** A text read to its end that is not empty starts with a whole option. */
  lemma CutClosed(x: string) returns (seg: string, v: string, tail: string)
    requires Closed(x) && x != []
    ensures x == seg + Quote(v) + tail
    ensures NoQuote(seg) && NoQuote(v) && Closed(tail) && |tail| < |x|
  {
    var i := IndexOfChar(x, '"');
    var rest := x[i + 1..];
    var j := IndexOfChar(rest, '"');
    seg := x[..i];
    v := rest[..j];
    tail := rest[j + 1..];
    IndexOfCharFirst(x, '"');
    IndexOfCharFirst(rest, '"');
    CutAtQuotes(x, i, j);
  }

  /** One step of the reader, at the first quote `i` and the closing quote `j` after it */
  lemma OptionsAt(cmd: string, i: nat, j: nat)
    requires i == IndexOfChar(cmd, '"') && i < |cmd|
    requires j == IndexOfChar(cmd[i + 1..], '"') && j < |cmd[i + 1..]|
    ensures Options(cmd) == [(LastWord(cmd[..i]), cmd[i + 1..][..j])] + Options(cmd[i + 1..][j + 1..])
  {
  }

  /** Reading `<seg>"<value>"` and what follows: the option, then the rest read on its own */
  lemma {:induction false} OptionsCons(seg: string, v: string, tail: string)
    requires NoQuote(seg) && NoQuote(v)
    ensures Options(seg + Quote(v) + tail) == [(LastWord(seg), v)] + Options(tail)
    ensures Closed(seg + Quote(v) + tail) == Closed(tail)
  {
    QuotedShape(seg, v, tail);
    FirstQuoteAt(seg, v + (['"'] + tail));
    FirstQuoteAt(v, tail);
  }

  /** Appending an option to a command read to its end adds exactly that option
      to what is read back, provided neither its text nor its value holds a quote. */
  lemma {:induction false} OptionsSnoc(x: string, seg: string, v: string)
    requires Closed(x) && NoQuote(seg) && NoQuote(v)
    ensures Closed(x + seg + Quote(v))
    ensures Options(x + seg + Quote(v)) == Options(x) + [(LastWord(seg), v)]
    decreases |x|
  {
    if x == [] {
      assert x + seg + Quote(v) == seg + Quote(v) + [];
      OptionsCons(seg, v, []);
    } else {
      var s1, v1, tail := CutClosed(x);
      OptionsCons(s1, v1, tail);
      OptionsSnoc(tail, seg, v);
      Reassociate(s1 + Quote(v1), tail, seg, Quote(v));
      OptionsCons(s1, v1, tail + seg + Quote(v));
      Associate([(LastWord(s1), v1)], Options(tail), [(LastWord(seg), v)]);
    }
  }

  /** Reading a command read to its end and then any text: its options, then
      the options of that text read on its own. */
  lemma {:induction false} OptionsAppend(x: string, y: string)
    requires Closed(x)
    ensures Options(x + y) == Options(x) + Options(y)
    decreases |x|
  {
    if x == [] {
      assert x + y == y;
    } else {
      var s1, v1, tail := CutClosed(x);
      OptionsCons(s1, v1, tail);
      OptionsAppend(tail, y);
      Associate(s1 + Quote(v1), tail, y);
      OptionsCons(s1, v1, tail + y);
      Associate([(LastWord(s1), v1)], Options(tail), Options(y));
    }
  }

  /** A quote inside a value is not escaped: whatever follows, the option read
      first is not that value whole. */
  lemma {:induction false} QuoteInValueBreaksOptions(seg: string, v: string, tail: string)
    requires NoQuote(seg)
    requires !NoQuote(v)
    ensures Options(seg + Quote(v) + tail) != []
    ensures Options(seg + Quote(v) + tail)[0] != (LastWord(seg), v)
  {
    var rest := v + (['"'] + tail);
    var cmd := seg + (['"'] + rest);
    QuotedShape(seg, v, tail);
    FirstQuoteAt(seg, rest);
    var q :| 0 <= q < |v| && v[q] == '"';
    IndexOfCharBound(rest, '"', q);
    var j := IndexOfChar(rest, '"');
    OptionsAt(cmd, |seg|, j);
    assert |Options(cmd)[0].1| == j < |v|;
  }
}
