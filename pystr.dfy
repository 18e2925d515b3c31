/** Python's built-in `str` operations that the Data Protector modules rely on,
    written out with CPython's semantics: `isspace` (and the regular-expression
    class `\s`), `strip`, `isupper`, `split`, `splitlines`, `replace` and `in`. */
module PyStr {

  /** `c.isspace()`; for `str` patterns the class `\s` of Python's `re` is the same set */
  predicate IsSpace(c: char) {
    || ('\t' <= c <= '\r')
    || ('\U{1C}' <= c <= '\U{1F}')
    || c == ' ' || c == '\U{85}' || c == '\U{A0}' || c == '\U{1680}'
    || ('\U{2000}' <= c <= '\U{200A}')
    || c == '\U{2028}' || c == '\U{2029}' || c == '\U{202F}' || c == '\U{205F}' || c == '\U{3000}'
  }

  predicate AllSpace(s: string) {
    forall i :: 0 <= i < |s| ==> IsSpace(s[i])
  }

  /** A string with no whitespace at either end */
  predicate Trimmed(s: string) {
    s == [] || (!IsSpace(s[0]) && !IsSpace(s[|s| - 1]))
  }

  /** `s.lstrip()` */
  function TrimStart(s: string): string {
    if s != [] && IsSpace(s[0]) then TrimStart(s[1..]) else s
  }

  /** `s.rstrip()` */
  function TrimEnd(s: string): string {
    if s != [] && IsSpace(s[|s| - 1]) then TrimEnd(s[..|s| - 1]) else s
  }

  /** `lstrip` drops a leading run of whitespace and stops at the first other character. */
  lemma {:induction false} TrimStartSpec(s: string)
    ensures |TrimStart(s)| <= |s| && TrimStart(s) == s[|s| - |TrimStart(s)|..]
    ensures TrimStart(s) == [] || !IsSpace(TrimStart(s)[0])
    ensures AllSpace(s[..|s| - |TrimStart(s)|])
    decreases |s|
  {
    if s != [] && IsSpace(s[0]) {
      TrimStartSpec(s[1..]);
    }
  }

  /** `rstrip` drops a trailing run of whitespace and stops at the last other character. */
  lemma {:induction false} TrimEndSpec(s: string)
    ensures |TrimEnd(s)| <= |s| && TrimEnd(s) == s[..|TrimEnd(s)|]
    ensures TrimEnd(s) == [] || !IsSpace(TrimEnd(s)[|TrimEnd(s)| - 1])
    ensures AllSpace(s[|TrimEnd(s)|..])
    decreases |s|
  {
    if s != [] && IsSpace(s[|s| - 1]) {
      var p := s[..|s| - 1];
      TrimEndSpec(p);
      var t := TrimEnd(p);
      assert TrimEnd(s) == t;
      assert s[..|t|] == p[..|t|];
      assert s[|t|..] == p[|t|..] + [s[|s| - 1]];
    }
  }

  /** `s.strip()`: what is left once the whitespace at both ends is gone */
  function Strip(s: string): string {
    TrimEnd(TrimStart(s))
  }

  /** The stripped text is trimmed and sits in the original between two runs of whitespace. */
  lemma StripSpec(s: string)
    ensures Trimmed(Strip(s))
    ensures exists i :: 0 <= i <= |s| - |Strip(s)| && s[i..i + |Strip(s)|] == Strip(s)
                        && AllSpace(s[..i]) && AllSpace(s[i + |Strip(s)|..])
  {
    var t := TrimStart(s);
    var r := TrimEnd(t);
    TrimStartSpec(s);
    TrimEndSpec(t);
    if r != [] {
      assert r[0] == t[0];
    }
    var i := |s| - |t|;
    assert s[i..i + |r|] == r;
    assert s[i + |r|..] == t[|r|..];
  }

  lemma {:induction false} TrimStartPadded(a: string, t: string)
    requires AllSpace(a)
    requires t == [] || !IsSpace(t[0])
    ensures TrimStart(a + t) == t
    decreases |a|
  {
    if a != [] {
      assert (a + t)[1..] == a[1..] + t;
      TrimStartPadded(a[1..], t);
    } else {
      assert a + t == t;
    }
  }

  lemma {:induction false} TrimEndPadded(t: string, b: string)
    requires AllSpace(b)
    requires t == [] || !IsSpace(t[|t| - 1])
    ensures TrimEnd(t + b) == t
    decreases |b|
  {
    if b != [] {
      assert (t + b)[..|t + b| - 1] == t + b[..|b| - 1];
      TrimEndPadded(t, b[..|b| - 1]);
    } else {
      assert t + b == t;
    }
  }

  /** Stripping undoes any whitespace padding of a trimmed string, so `Strip`
      is the one trimmed core of its argument (and is idempotent). */
  lemma {:induction false} StripPadded(a: string, r: string, b: string)
    requires AllSpace(a) && AllSpace(b) && Trimmed(r)
    ensures Strip(a + r + b) == r
  {
    if r == [] {
      assert a + r + b == a + b;
      assert AllSpace(a + b);
      assert (a + b) + [] == a + b;
      TrimStartPadded(a + b, []);
    } else {
      assert a + r + b == a + (r + b);
      TrimStartPadded(a, r + b);
      TrimEndPadded(r, b);
    }
  }

  /** Lower-case characters (`c.islower()`), over ASCII and Latin-1 */
  predicate IsLowerChar(c: char) {
    || ('a' <= c <= 'z')
    || c == '\U{AA}' || c == '\U{B5}' || c == '\U{BA}'
    || ('\U{DF}' <= c <= '\U{F6}')
    || ('\U{F8}' <= c <= '\U{FF}')
  }

  /** Upper-case characters (`c.isupper()`), over ASCII and Latin-1 */
  predicate IsUpperChar(c: char) {
    || ('A' <= c <= 'Z')
    || ('\U{C0}' <= c <= '\U{D6}')
    || ('\U{D8}' <= c <= '\U{DE}')
  }

  /** CPython's scan for `isupper`: it gives up at the first lower-case character
      and otherwise remembers whether it has met a cased one. */
  function IsUpperFrom(s: string, cased: bool): (b: bool)
    ensures b <==> (cased || exists i :: 0 <= i < |s| && IsUpperChar(s[i]))
                   && forall i :: 0 <= i < |s| ==> !IsLowerChar(s[i])
  {
    if s == [] then cased
    else if IsLowerChar(s[0]) then false
    else
      var b := IsUpperFrom(s[1..], cased || IsUpperChar(s[0]));
      assert forall i :: 1 <= i < |s| ==> s[i] == s[1..][i - 1];
      assert (exists i :: 0 <= i < |s| && IsUpperChar(s[i])) ==>
        IsUpperChar(s[0]) || exists i :: 0 <= i < |s[1..]| && IsUpperChar(s[1..][i]);
      b
  }

  /** `s.isupper()`: at least one cased character, and none of them lower-case */
  predicate IsUpper(s: string) {
    IsUpperFrom(s, false)
  }

  /** `s.split(sep)` with an explicit separator: every occurrence found scanning
      from the left splits, so `n` occurrences give `n + 1` pieces. */
  function Split(s: string, sep: string): (r: seq<string>)
    requires sep != []
    ensures |r| >= 1
    decreases |s|
  {
    if |s| < |sep| then [s]
    else if s[..|sep|] == sep then [""] + Split(s[|sep|..], sep)
    else
      var rest := Split(s[1..], sep);
      [[s[0]] + rest[0]] + rest[1..]
  }

  /** `sep.join(pieces)` */
  function Join(pieces: seq<string>, sep: string): string {
    if pieces == [] then ""
    else if |pieces| == 1 then pieces[0]
    else pieces[0] + sep + Join(pieces[1..], sep)
  }

  lemma JoinFront(a: string, rest: seq<string>, sep: string)
    requires rest != []
    ensures Join([a] + rest, sep) == a + sep + Join(rest, sep)
  {
    assert ([a] + rest)[1..] == rest;
  }

  /** A character put in front of the first piece is put in front of the joined text. */
  lemma JoinHead(c: char, rest: seq<string>, sep: string)
    requires rest != []
    ensures Join([[c] + rest[0]] + rest[1..], sep) == [c] + Join(rest, sep)
  {
    if |rest| == 1 {
      assert [[c] + rest[0]] + rest[1..] == [[c] + rest[0]];
    } else {
      JoinFront([c] + rest[0], rest[1..], sep);
      assert rest == [rest[0]] + rest[1..];
      JoinFront(rest[0], rest[1..], sep);
    }
  }

  /** Joining the pieces of a split with the separator gives the text back. */
  lemma {:induction false} JoinSplit(s: string, sep: string)
    requires sep != []
    ensures Join(Split(s, sep), sep) == s
    decreases |s|
  {
    if |s| < |sep| {
    } else if s[..|sep|] == sep {
      var rest := Split(s[|sep|..], sep);
      JoinSplit(s[|sep|..], sep);
      JoinFront("", rest, sep);
      assert s == s[..|sep|] + s[|sep|..];
    } else {
      JoinSplit(s[1..], sep);
      JoinHead(s[0], Split(s[1..], sep), sep);
      assert s == [s[0]] + s[1..];
    }
  }

  /** The separator of the listing lines */
  const FieldSep := ": "

  /** `s` holds the separator ": " at index `i` */
  predicate SepAt(s: string, i: int) {
    0 <= i && i + 1 < |s| && s[i] == ':' && s[i + 1] == ' '
  }

  /** A text without ": " does not split. */
  lemma {:induction false} SplitFieldNone(s: string)
    requires forall j :: !SepAt(s, j)
    ensures Split(s, FieldSep) == [s]
    decreases |s|
  {
    if |s| < 2 {
    } else {
      assert !SepAt(s, 0);
      assert s[..2] != FieldSep;
      forall j ensures !SepAt(s[1..], j) {
        assert SepAt(s[1..], j) ==> SepAt(s, j + 1);
      }
      SplitFieldNone(s[1..]);
      assert [s[0]] + s[1..] == s;
    }
  }

  /** A text that splits into one piece holds no ": ". */
  lemma {:induction false} SplitFieldOne(s: string)
    requires |Split(s, FieldSep)| == 1
    ensures forall j :: !SepAt(s, j)
    decreases |s|
  {
    if |s| < 2 {
    } else if s[..2] == FieldSep {
      assert false;
    } else {
      SplitFieldOne(s[1..]);
      forall j | SepAt(s, j) ensures false {
        assert j != 0;
        assert SepAt(s[1..], j - 1);
      }
    }
  }

  /** A line is one `key: value` field exactly when ": " occurs in it once;
      the key is then what precedes that occurrence and the value what follows
      it (a second ": " makes three pieces, not a split at the first one). */
  lemma {:induction false} SplitFieldPair(s: string, i: int)
    requires SepAt(s, i)
    ensures |Split(s, FieldSep)| == 2 <==> forall j :: SepAt(s, j) ==> j == i
    ensures |Split(s, FieldSep)| == 2 ==> Split(s, FieldSep) == [s[..i], s[i + 2..]]
    decreases |s|
  {
    var t := s[2..];
    if s[..2] == FieldSep {
      assert Split(s, FieldSep) == [""] + Split(t, FieldSep);
      assert !SepAt(s, 1);
      assert forall j :: SepAt(s, j) && j >= 2 ==> SepAt(t, j - 2);
      assert forall j :: SepAt(t, j) ==> SepAt(s, j + 2);
      if i == 0 {
        if |Split(t, FieldSep)| == 1 {
          SplitFieldOne(t);
          SplitFieldNone(t);
        } else if forall j :: SepAt(s, j) ==> j == i {
          SplitFieldNone(t);
        }
      } else {
        assert SepAt(t, i - 2);
        if |Split(t, FieldSep)| == 1 {
          SplitFieldOne(t);
        }
        assert SepAt(s, 0);
      }
    } else {
      var u := s[1..];
      assert i != 0;
      assert SepAt(u, i - 1);
      assert forall j :: SepAt(s, j) ==> j >= 1 && SepAt(u, j - 1);
      assert forall j :: SepAt(u, j) ==> SepAt(s, j + 1);
      SplitFieldPair(u, i - 1);
      var rest := Split(u, FieldSep);
      assert Split(s, FieldSep) == [[s[0]] + rest[0]] + rest[1..];
      if |rest| == 2 {
        assert [s[0]] + u[..i - 1] == s[..i];
        assert u[i + 1..] == s[i + 2..];
      }
    }
  }

  /** The line boundaries of `str.splitlines()` */
  predicate IsLineBreak(c: char) {
    || ('\n' <= c <= '\r')
    || ('\U{1C}' <= c <= '\U{1E}')
    || c == '\U{85}' || c == '\U{2028}' || c == '\U{2029}'
  }

  /** `s.splitlines()`: lines without their terminators, "\r\n" counting as one
      terminator, and no empty line after a final terminator. */
  function SplitLines(s: string): (r: seq<string>)
    ensures r == [] <==> s == []
    ensures forall k, i :: 0 <= k < |r| && 0 <= i < |r[k]| ==> !IsLineBreak(r[k][i])
    decreases |s|
  {
    if s == [] then []
    else if IsLineBreak(s[0]) then
      var width := if s[0] == '\r' && |s| > 1 && s[1] == '\n' then 2 else 1;
      [""] + SplitLines(s[width..])
    else
      var rest := SplitLines(s[1..]);
      if rest == [] then [[s[0]]] else [[s[0]] + rest[0]] + rest[1..]
  }

  /** Text without a line boundary is a single line. */
  lemma {:induction false} SplitLinesOne(s: string)
    requires s != []
    requires forall i :: 0 <= i < |s| ==> !IsLineBreak(s[i])
    ensures SplitLines(s) == [s]
    decreases |s|
  {
    assert !IsLineBreak(s[0]);
    if |s| > 1 {
      assert forall i :: 0 <= i < |s[1..]| ==> s[1..][i] == s[i + 1];
      SplitLinesOne(s[1..]);
      assert SplitLines(s) == [[s[0]] + s[1..]];
      assert [s[0]] + s[1..] == s;
    } else {
      assert SplitLines(s[1..]) == [];
      assert s == [s[0]];
    }
  }

  /** A line ended by a line boundary (other than a `\r` that starts `\r\n`)
      is the first line, and the text after the boundary gives the rest in order. */
  lemma {:induction false} SplitLinesCons(line: string, t: char, rest: string)
    requires forall i :: 0 <= i < |line| ==> !IsLineBreak(line[i])
    requires IsLineBreak(t)
    requires t == '\r' ==> rest == [] || rest[0] != '\n'
    ensures SplitLines(line + [t] + rest) == [line] + SplitLines(rest)
    decreases |line|
  {
    var s := line + [t] + rest;
    if line == [] {
      assert s == [t] + rest;
      assert s[1..] == rest;
    } else {
      assert s[0] == line[0];
      assert s[1..] == line[1..] + [t] + rest;
      SplitLinesCons(line[1..], t, rest);
      assert [line[0]] + line[1..] == line;
    }
  }

  /** A line ended by `\r\n`: the pair counts as one boundary. */
  lemma {:induction false} SplitLinesCrLf(line: string, rest: string)
    requires forall i :: 0 <= i < |line| ==> !IsLineBreak(line[i])
    ensures SplitLines(line + "\r\n" + rest) == [line] + SplitLines(rest)
    decreases |line|
  {
    var s := line + "\r\n" + rest;
    if line == [] {
      assert s == "\r\n" + rest;
      assert s[2..] == rest;
    } else {
      assert s[0] == line[0];
      assert s[1..] == line[1..] + "\r\n" + rest;
      SplitLinesCrLf(line[1..], rest);
      assert [line[0]] + line[1..] == line;
    }
  }

  /** `s.replace(pat, rep)`: occurrences of `pat` found scanning from the left,
      without overlap, are each replaced by `rep`. */
  function Replace(s: string, pat: string, rep: string): (r: string)
    requires pat != []
    decreases |s|
  {
    if |s| < |pat| then s
    else if s[..|pat|] == pat then rep + Replace(s[|pat|..], pat, rep)
    else [s[0]] + Replace(s[1..], pat, rep)
  }

  /** `sub` occurs in `s` at index `i` */
  predicate OccursAt(s: string, sub: string, i: int) {
    0 <= i <= |s| - |sub| && s[i..i + |sub|] == sub
  }

  /** `sub in s` */
  function Contains(s: string, sub: string): (b: bool)
    ensures b <==> exists i :: OccursAt(s, sub, i)
    decreases |s|
  {
    if |s| < |sub| then false
    else if s[..|sub|] == sub then
      assert OccursAt(s, sub, 0);
      true
    else
      var b := Contains(s[1..], sub);
      assert forall i :: OccursAt(s[1..], sub, i) ==> OccursAt(s, sub, i + 1);
      assert forall i :: OccursAt(s, sub, i) ==> i >= 1 && OccursAt(s[1..], sub, i - 1);
      b
  }
}
