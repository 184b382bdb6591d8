/** The pieces of Python's string and text-file behaviour that the to-do list
    relies on: `str.isspace`, `str.strip`, `str.replace(pattern, "")`, the
    universal-newline translation of a file opened in text mode, and the
    splitting of a text file into lines by `for line in file`. */
module Text {

  /** Python's `str.isspace` for one character: the Unicode whitespace set
      (bidirectional class WS, B or S, or general category Zs). */
  predicate IsSpace(c: char) {
    || '\t' <= c <= '\r'
    || '\U{1C}' <= c <= ' '
    || c == '\U{85}' || c == '\U{A0}' || c == '\U{1680}'
    || '\U{2000}' <= c <= '\U{200A}'
    || c == '\U{2028}' || c == '\U{2029}' || c == '\U{202F}' || c == '\U{205F}'
    || c == '\U{3000}'
  }

  /** `s.lstrip()`. */
  function TrimLeft(s: string): string {
    if s != [] && IsSpace(s[0]) then TrimLeft(s[1..]) else s
  }

  /** `s.rstrip()`. */
  function TrimRight(s: string): string {
    if s != [] && IsSpace(s[|s| - 1]) then TrimRight(s[..|s| - 1]) else s
  }

  /** lstrip returns a suffix that does not start with whitespace, and
      everything it removed was whitespace. */
  lemma {:induction false} TrimLeftSpec(s: string)
    ensures |TrimLeft(s)| <= |s| && TrimLeft(s) == s[|s| - |TrimLeft(s)|..]
    ensures TrimLeft(s) == [] || !IsSpace(TrimLeft(s)[0])
    ensures forall i :: 0 <= i < |s| - |TrimLeft(s)| ==> IsSpace(s[i])
  {
    if s != [] && IsSpace(s[0]) {
      TrimLeftSpec(s[1..]);
      var r := TrimLeft(s);
      assert r == TrimLeft(s[1..]);
      assert s[1..][|s| - 1 - |r|..] == s[|s| - |r|..];
      forall i | 0 <= i < |s| - |r|
        ensures IsSpace(s[i])
      {
        if i > 0 {
          assert s[i] == s[1..][i - 1];
        }
      }
    }
  }

  /** rstrip returns a prefix that does not end with whitespace, and
      everything it removed was whitespace. */
  lemma {:induction false} TrimRightSpec(s: string)
    ensures |TrimRight(s)| <= |s| && TrimRight(s) == s[..|TrimRight(s)|]
    ensures TrimRight(s) == [] || !IsSpace(TrimRight(s)[|TrimRight(s)| - 1])
    ensures forall i :: |TrimRight(s)| <= i < |s| ==> IsSpace(s[i])
  {
    if s != [] && IsSpace(s[|s| - 1]) {
      TrimRightSpec(s[..|s| - 1]);
      var r := TrimRight(s);
      assert r == TrimRight(s[..|s| - 1]);
      assert s[..|s| - 1][..|r|] == s[..|r|];
      forall i | |r| <= i < |s|
        ensures IsSpace(s[i])
      {
        if i < |s| - 1 {
          assert s[i] == s[..|s| - 1][i];
        }
      }
    }
  }

  /** `s.strip()`: neither end of the result is whitespace, and a string whose
      ends are not whitespace is left exactly as it is (and only such a string). */
  function Strip(s: string): (r: string)
    ensures r == [] || (!IsSpace(r[0]) && !IsSpace(r[|r| - 1]))
    ensures r == s <==> (s == [] || (!IsSpace(s[0]) && !IsSpace(s[|s| - 1])))
  {
    var l := TrimLeft(s);
    TrimLeftSpec(s);
    TrimRightSpec(l);
    assert l != [] ==> l[0] == s[|s| - |l|];
    TrimRight(l)
  }

  /** Appending one whitespace character to a text: lstrip removes it along
      with the rest when the text is all whitespace, and keeps it otherwise. */
  lemma {:induction false} TrimLeftAppendSpace(s: string, c: char)
    requires IsSpace(c)
    ensures TrimLeft(s + [c]) == if TrimLeft(s) == [] then [] else TrimLeft(s) + [c]
  {
    var sc := s + [c];
    if s == [] {
      assert sc[1..] == [];
      assert TrimLeft(sc) == TrimLeft([]);
    } else if IsSpace(s[0]) {
      TrimLeftAppendSpace(s[1..], c);
      assert sc[0] == s[0] && sc[1..] == s[1..] + [c];
      assert TrimLeft(sc) == TrimLeft(s[1..] + [c]);
      assert TrimLeft(s) == TrimLeft(s[1..]);
    } else {
      assert sc[0] == s[0];
      assert TrimLeft(sc) == sc;
      assert TrimLeft(s) == s;
    }
  }

  /** A newline still attached to a line read from a file makes no difference
      to what strip returns. */
  lemma StripIgnoresNewline(t: string)
    ensures Strip(t + "\n") == Strip(t)
  {
    TrimLeftAppendSpace(t, '\n');
    var l := TrimLeft(t);
    if l != [] {
      assert (l + "\n")[..|l|] == l;
    }
  }

  /** `pattern` occurs in `s` as a contiguous block. */
  predicate Occurs(s: string, pattern: string)
    requires pattern != []
    decreases |s|
  {
    |s| >= |pattern| && (s[..|pattern|] == pattern || Occurs(s[1..], pattern))
  }

  /** `s.replace(pattern, "")` for a non-empty pattern: occurrences are found
      from the left and removed without overlapping. The text shrinks, and it
      is left alone exactly when the pattern does not occur in it. */
  function RemoveAll(s: string, pattern: string): (r: string)
    requires pattern != []
    ensures |r| <= |s|
    ensures r == s <==> !Occurs(s, pattern)
    decreases |s|
  {
    if |s| < |pattern| then s
    else if s[..|pattern|] == pattern then RemoveAll(s[|pattern|..], pattern)
    else [s[0]] + RemoveAll(s[1..], pattern)
  }

  /** Universal-newline translation done by Python when a file is read in text
      mode: "\r\n" and a lone "\r" both become "\n". */
  function UniversalNewlines(s: string): (r: string)
    ensures '\r' !in r
    ensures '\r' !in s ==> r == s
  {
    if s == [] then []
    else if s[0] == '\r' then
      if |s| > 1 && s[1] == '\n' then "\n" + UniversalNewlines(s[2..])
      else "\n" + UniversalNewlines(s[1..])
    else [s[0]] + UniversalNewlines(s[1..])
  }

  /** A prefix without carriage returns passes through the translation unchanged. */
  lemma {:induction false} UniversalNewlinesPrefix(a: string, b: string)
    requires '\r' !in a
    ensures UniversalNewlines(a + b) == a + UniversalNewlines(b)
  {
    if a == [] {
      assert a + b == b;
    } else {
      UniversalNewlinesPrefix(a[1..], b);
      assert (a + b)[0] == a[0] && (a + b)[1..] == a[1..] + b;
      assert [a[0]] + a[1..] == a;
    }
  }

  /** A lone carriage return, not followed by a newline, is read as a line break. */
  lemma UniversalNewlinesLoneCR(a: string, b: string)
    requires '\r' !in a
    requires b == [] || b[0] != '\n'
    ensures UniversalNewlines(a + "\r" + b) == a + "\n" + UniversalNewlines(b)
  {
    UniversalNewlinesPrefix(a, "\r" + b);
    assert a + "\r" + b == a + ("\r" + b);
    assert ("\r" + b)[1..] == b;
  }

  /** A carriage return followed by a newline is read as one line break. */
  lemma UniversalNewlinesCRLF(a: string, b: string)
    requires '\r' !in a
    ensures UniversalNewlines(a + "\r\n" + b) == a + "\n" + UniversalNewlines(b)
  {
    UniversalNewlinesPrefix(a, "\r\n" + b);
    assert a + "\r\n" + b == a + ("\r\n" + b);
    assert ("\r\n" + b)[2..] == b;
  }

  /** The concatenation of a sequence of strings. */
  function Concat(lines: seq<string>): string {
    if lines == [] then [] else lines[0] + Concat(lines[1..])
  }

  /** Concatenating a line in front of the others. */
  lemma ConcatCons(line: string, lines: seq<string>)
    ensures Concat([line] + lines) == line + Concat(lines)
  {
    assert ([line] + lines)[1..] == lines;
  }

  /** Length of the first line of `s`, newline included when there is one:
      no newline before its last character, and it stops at the first
      newline or at the end of the text. */
  function FirstLineLength(s: string): (n: nat)
    requires s != []
    ensures 0 < n <= |s|
    ensures '\n' !in s[..n - 1]
    ensures n == |s| || s[n - 1] == '\n'
  {
    if s[0] == '\n' || |s| == 1 then 1
    else
      var m := FirstLineLength(s[1..]);
      assert s[..m] == [s[0]] + s[1..][..m - 1];
      1 + m
  }

  /** The lines `for line in file` yields over translated text: each keeps its
      newline, the last one may lack it, and no empty line follows a final newline. */
  function Lines(s: string): seq<string>
    decreases |s|
  {
    if s == [] then []
    else
      var n := FirstLineLength(s);
      [s[..n]] + Lines(s[n..])
  }

  /** The lines together give back the text. */
  lemma {:induction false} LinesConcat(s: string)
    ensures Concat(Lines(s)) == s
    decreases |s|
  {
    if s != [] {
      var n := FirstLineLength(s);
      var head, tail := s[..n], s[n..];
      assert Lines(s) == [head] + Lines(tail);
      LinesConcat(tail);
      ConcatCons(head, Lines(tail));
      assert head + tail == s;
    }
  }

  /** Every line read is non-empty with no newline before its end, and every
      line but the last ends with a newline. */
  lemma {:induction false} LinesShape(s: string)
    ensures forall i :: 0 <= i < |Lines(s)| ==> IsLine(Lines(s)[i])
    ensures forall i :: 0 <= i < |Lines(s)| - 1 ==> EndsLine(Lines(s)[i])
    decreases |s|
  {
    if s != [] {
      var n := FirstLineLength(s);
      var rest := Lines(s[n..]);
      LinesShape(s[n..]);
      var r := Lines(s);
      assert r == [s[..n]] + rest;
      assert s[..n][..n - 1] == s[..n - 1];
      assert IsLine(r[0]);
      assert rest != [] ==> n < |s| && EndsLine(r[0]);
      forall i | 1 <= i < |r|
        ensures r[i] == rest[i - 1]
      {
      }
    }
  }

  /** A line as read from a file: non-empty, with no newline before its end. */
  predicate IsLine(line: string) {
    line != [] && '\n' !in line[..|line| - 1]
  }

  /** A line that ends with its newline. */
  predicate EndsLine(line: string) {
    line != [] && line[|line| - 1] == '\n'
  }

  /** A line of text followed by its newline is read back as exactly that line. */
  lemma LinesAfterLine(t: string, rest: string)
    requires '\n' !in t
    ensures Lines(t + "\n" + rest) == [t + "\n"] + Lines(rest)
  {
    var s := t + "\n" + rest;
    var n := FirstLineLength(s);
    assert s[|t|] == '\n';
    assert n == |t| + 1;
    assert s[..n] == t + "\n";
    assert s[n..] == rest;
  }
}
