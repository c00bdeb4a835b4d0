/**
  Python's text primitives as the diagnostic tool uses them: str.strip(),
  str.split() with and without a separator, str.join, str.isdigit(), int(),
  str(n) for a non-negative integer and str.splitlines().
*/
module Text {

  /**
    The characters str.isspace() accepts, by code point: tab to carriage return,
    the four information separators and space, NEL, no-break space, the Ogham
    space mark, the typographic spaces, the line and paragraph separators, the
    narrow no-break space, the medium mathematical space and the ideographic space.
  */
  predicate IsSpace(c: char) {
    var n := c as int;
    (9 <= n <= 13) || (28 <= n <= 32) || n == 0x85 || n == 0xA0 || n == 0x1680
    || (0x2000 <= n <= 0x200A) || n == 0x2028 || n == 0x2029 || n == 0x202F
    || n == 0x205F || n == 0x3000
  }

  predicate NoSpace(s: string) {
    forall i :: 0 <= i < |s| ==> !IsSpace(s[i])
  }

  /** Index of the first character of s at or after i that is not whitespace; |s| when there is none. */
  function SkipSpace(s: string, i: nat): (n: nat)
    requires i <= |s|
    ensures i <= n <= |s| && (n == |s| || !IsSpace(s[n]))
    ensures forall k :: i <= k < n ==> IsSpace(s[k])
    decreases |s| - i
  {
    if i < |s| && IsSpace(s[i]) then SkipSpace(s, i + 1) else i
  }

  /** Index just past the last character of s before j that is not whitespace; 0 when there is none. */
  function SkipSpaceBack(s: string, j: nat): (n: nat)
    requires j <= |s|
    ensures n <= j && (n == 0 || !IsSpace(s[n - 1]))
    ensures forall k :: n <= k < j ==> IsSpace(s[k])
  {
    if 0 < j && IsSpace(s[j - 1]) then SkipSpaceBack(s, j - 1) else j
  }

  /**
    s.strip(): s without its leading and trailing whitespace, that is the
    infix of s that starts at its first and ends at its last character that
    is not whitespace.
  */
  function Strip(s: string): (r: string)
    ensures r == [] <==> forall k :: 0 <= k < |s| ==> IsSpace(s[k])
    ensures r != [] ==> !IsSpace(r[0]) && !IsSpace(r[|r| - 1])
    ensures var i := SkipSpace(s, 0);
      && i + |r| <= |s| && r == s[i..i + |r|]
      && (forall k :: 0 <= k < i ==> IsSpace(s[k]))
      && (forall k :: i + |r| <= k < |s| ==> IsSpace(s[k]))
  {
    var i := SkipSpace(s, 0);
    if i == |s| then []
    else
      var j := SkipSpaceBack(s, |s|);
      assert i < j by { assert !IsSpace(s[i]); }
      s[i..j]
  }

  /**
    The result of strip() is the only infix of s that has whitespace all
    around it and none at either of its ends.
  */
  lemma StripUnique(s: string, i: nat, j: nat)
    requires i <= j <= |s|
    requires forall k :: 0 <= k < i ==> IsSpace(s[k])
    requires forall k :: j <= k < |s| ==> IsSpace(s[k])
    requires i < j ==> !IsSpace(s[i]) && !IsSpace(s[j - 1])
    ensures Strip(s) == s[i..j]
  {
  }

  /** Stripping a string that neither starts nor ends with whitespace leaves it as it is. */
  lemma StripUnpadded(s: string)
    requires s != [] && !IsSpace(s[0]) && !IsSpace(s[|s| - 1])
    ensures Strip(s) == s
  {
    StripUnique(s, 0, |s|);
  }

  /** Stripping one whitespace character in front of an unpadded string gives the string. */
  lemma StripPadded(c: char, s: string)
    requires IsSpace(c) && s != [] && !IsSpace(s[0]) && !IsSpace(s[|s| - 1])
    ensures Strip([c] + s) == s
  {
    StripUnique([c] + s, 1, |s| + 1);
    assert ([c] + s)[1..|s| + 1] == s;
  }

  /** Index of the first whitespace character of s, or |s| when there is none. */
  function WordEnd(s: string): (n: nat)
    ensures n <= |s| && (n == |s| || IsSpace(s[n]))
    ensures s != [] && !IsSpace(s[0]) ==> n > 0
  {
    if s == [] || IsSpace(s[0]) then 0 else 1 + WordEnd(s[1..])
  }

  /** s.split() with no separator: the maximal runs of non-whitespace, in order. */
  function Words(s: string): (ws: seq<string>)
    decreases |s|
  {
    if s == [] then []
    else if IsSpace(s[0]) then Words(s[1..])
    else
      var n := WordEnd(s);
      [s[..n]] + Words(s[n..])
  }

  /** split() finds no token exactly when the string is all whitespace, that is when strip() leaves nothing. */
  lemma {:induction false} WordsEmpty(s: string)
    ensures Words(s) == [] <==> forall k :: 0 <= k < |s| ==> IsSpace(s[k])
    ensures Words(s) == [] <==> Strip(s) == []
    decreases |s|
  {
    if s != [] && IsSpace(s[0]) {
      WordsEmpty(s[1..]);
      assert (forall k :: 0 <= k < |s| ==> IsSpace(s[k])) <==> (forall k :: 0 <= k < |s| - 1 ==> IsSpace(s[1..][k])) by {
        if forall k :: 0 <= k < |s| - 1 ==> IsSpace(s[1..][k]) {
          forall k | 0 <= k < |s| ensures IsSpace(s[k]) {
            if k > 0 {
              assert s[k] == s[1..][k - 1];
            }
          }
        }
      }
    }
  }

  /** sep.join(parts) */
  function Join(parts: seq<string>, sep: string): string {
    if parts == [] then []
    else if |parts| == 1 then parts[0]
    else parts[0] + sep + Join(parts[1..], sep)
  }

  lemma {:induction false} WordEndOfWord(w: string, rest: string)
    requires NoSpace(w)
    requires rest == [] || IsSpace(rest[0])
    ensures WordEnd(w + rest) == |w|
  {
    if w != [] {
      var s := w + rest;
      assert s[0] == w[0] && !IsSpace(s[0]);
      assert s[1..] == w[1..] + rest;
      assert NoSpace(w[1..]) by {
        assert forall k :: 0 <= k < |w| - 1 ==> w[1..][k] == w[k + 1];
      }
      WordEndOfWord(w[1..], rest);
    }
  }

  /** A word followed by whitespace (or by nothing) is the first token of split(). */
  lemma WordsCons(w: string, rest: string)
    requires w != [] && NoSpace(w)
    requires rest == [] || IsSpace(rest[0])
    ensures Words(w + rest) == [w] + Words(rest)
  {
    var s := w + rest;
    assert s[0] == w[0];
    WordEndOfWord(w, rest);
    assert s[..|w|] == w && s[|w|..] == rest;
  }

  /** Leading whitespace makes no difference to split(). */
  lemma WordsSpace(c: char, s: string)
    requires IsSpace(c)
    ensures Words([c] + s) == Words(s)
  {
    assert ([c] + s)[1..] == s;
  }

  /** Splitting on whitespace undoes joining words with single spaces. */
  lemma {:induction false} WordsOfJoin(ws: seq<string>)
    requires forall i :: 0 <= i < |ws| ==> ws[i] != [] && NoSpace(ws[i])
    ensures Words(Join(ws, " ")) == ws
  {
    if |ws| == 1 {
      WordsCons(ws[0], []);
      assert Words([]) == [];
      assert ws[0] + [] == ws[0];
    } else if |ws| > 1 {
      var w := ws[0];
      var tail := Join(ws[1..], " ");
      assert Join(ws, " ") == w + ([' '] + tail);
      assert Words(w + ([' '] + tail)) == [w] + Words([' '] + tail) by {
        WordsCons(w, [' '] + tail);
      }
      assert Words([' '] + tail) == Words(tail) by {
        WordsSpace(' ', tail);
      }
      assert Words(tail) == ws[1..] by {
        WordsOfJoin(ws[1..]);
      }
    }
  }

  /** Every character of t is whitespace (the empty string included). */
  predicate Blank(t: string) {
    forall k :: 0 <= k < |t| ==> IsSpace(t[k])
  }

  /**
    Words laid out with the given runs of whitespace around them:
    gaps[0] + ws[0] + gaps[1] + ... + ws[n - 1] + gaps[n], as in a table
    whose columns are padded with spaces.
  */
  function Spaced(ws: seq<string>, gaps: seq<string>): string
    requires |gaps| == |ws| + 1
  {
    if ws == [] then gaps[0] else gaps[0] + ws[0] + Spaced(ws[1..], gaps[1..])
  }

  /** Leading whitespace of any length makes no difference to split(). */
  lemma {:induction false} WordsBlankPrefix(g: string, s: string)
    requires Blank(g)
    ensures Words(g + s) == Words(s)
  {
    if g == [] {
      assert g + s == s;
    } else {
      assert g + s == [g[0]] + (g[1..] + s);
      WordsSpace(g[0], g[1..] + s);
      WordsBlankPrefix(g[1..], s);
    }
  }

  /**
    Splitting on whitespace recovers the words of a padded line, whatever
    the widths of the gaps: only the gaps between two words must be non-empty.
  */
  lemma {:induction false} WordsOfSpaced(ws: seq<string>, gaps: seq<string>)
    requires |gaps| == |ws| + 1
    requires forall i :: 0 <= i < |ws| ==> ws[i] != [] && NoSpace(ws[i])
    requires forall i :: 0 <= i < |gaps| ==> Blank(gaps[i])
    requires forall i :: 0 < i < |ws| ==> gaps[i] != []
    ensures Words(Spaced(ws, gaps)) == ws
  {
    if ws == [] {
      WordsEmpty(gaps[0]);
    } else {
      var rest := Spaced(ws[1..], gaps[1..]);
      assert rest == [] || IsSpace(rest[0]) by {
        if |ws| > 1 {
          assert rest == gaps[1] + ws[1] + Spaced(ws[2..], gaps[2..]);
          assert rest[0] == gaps[1][0];
        } else {
          assert rest == gaps[1];
        }
      }
      assert Spaced(ws, gaps) == gaps[0] + (ws[0] + rest);
      WordsBlankPrefix(gaps[0], ws[0] + rest);
      WordsCons(ws[0], rest);
      WordsOfSpaced(ws[1..], gaps[1..]);
    }
  }

  /** sep occurs in s starting at index i. */
  predicate OccursAt(s: string, sep: string, i: nat) {
    i + |sep| <= |s| && s[i..i + |sep|] == sep
  }

  /** sep in s */
  predicate Contains(s: string, sep: string) {
    exists i: nat | i <= |s| :: OccursAt(s, sep, i)
  }

  /** s.find(sep): the index of the first occurrence of sep, or |s| when there is none. */
  function Find(s: string, sep: string): (k: nat)
    requires sep != []
    ensures k <= |s|
    ensures k < |s| ==> OccursAt(s, sep, k)
    ensures forall j: nat :: j < k ==> !OccursAt(s, sep, j)
    ensures k == |s| <==> !Contains(s, sep)
  {
    if |s| < |sep| then |s|
    else if s[..|sep|] == sep then 0
    else
      var k := 1 + Find(s[1..], sep);
      OccursTail(s, sep);
      k
  }

  /** An occurrence past the first character is an occurrence in the rest of the string. */
  lemma OccursTail(s: string, sep: string)
    requires s != []
    ensures forall j: nat :: 0 < j ==> (OccursAt(s, sep, j) <==> OccursAt(s[1..], sep, j - 1))
  {
    forall j: nat | 0 < j ensures OccursAt(s, sep, j) <==> OccursAt(s[1..], sep, j - 1) {
      if j + |sep| <= |s| {
        assert s[1..][j - 1..j - 1 + |sep|] == s[j..j + |sep|];
      }
    }
  }

  /** The text before the first occurrence does not contain the separator. */
  lemma BeforeFind(s: string, sep: string)
    requires sep != []
    ensures !Contains(s[..Find(s, sep)], sep)
  {
    var head := s[..Find(s, sep)];
    forall j: nat | j <= |head| && OccursAt(head, sep, j) ensures false {
      assert head[j..j + |sep|] == s[j..j + |sep|];
      assert OccursAt(s, sep, j);
    }
  }

  /** s.split(sep) for a non-empty separator. */
  function Split(s: string, sep: string): (parts: seq<string>)
    requires sep != []
    ensures parts != []
    ensures Join(parts, sep) == s
    ensures forall i :: 0 <= i < |parts| ==> !Contains(parts[i], sep)
    ensures parts[0] == s[..Find(s, sep)]
    decreases |s|
  {
    var k := Find(s, sep);
    if k == |s| then [s]
    else
      var head := s[..k];
      BeforeFind(s, sep);
      var tail := Split(s[k + |sep|..], sep);
      assert s == head + sep + s[k + |sep|..];
      assert ([head] + tail)[1..] == tail;
      [head] + tail
  }

  /** A string without the separator splits into itself alone. */
  lemma SplitWithout(s: string, sep: string)
    requires sep != [] && !Contains(s, sep)
    ensures Split(s, sep) == [s]
  {
  }

  /** With a one-character separator, the first piece of a + [c] + b is a when c is not in a. */
  lemma FindChar(a: string, c: char, b: string)
    requires c !in a
    ensures Find(a + [c] + b, [c]) == |a|
  {
    var s := a + [c] + b;
    assert OccursAt(s, [c], |a|) by { assert s[|a|..|a| + 1] == [c]; }
    forall j: nat | j < |a| ensures !OccursAt(s, [c], j) {
      assert s[j..j + 1] == [a[j]];
    }
  }

  /** Splitting on a one-character separator undoes joining pieces that do not contain it. */
  lemma {:induction false} SplitOfJoin(parts: seq<string>, c: char)
    requires parts != []
    requires forall i :: 0 <= i < |parts| ==> c !in parts[i]
    ensures Split(Join(parts, [c]), [c]) == parts
  {
    var s := Join(parts, [c]);
    if |parts| == 1 {
      assert !Contains(s, [c]) by {
        forall j: nat | j <= |s| ensures !OccursAt(s, [c], j) {
          if j < |s| {
            assert s[j..j + 1] == [s[j]];
          }
        }
      }
      SplitWithout(s, [c]);
    } else {
      var rest := Join(parts[1..], [c]);
      assert s == parts[0] + [c] + rest;
      FindChar(parts[0], c, rest);
      assert s[..|parts[0]|] == parts[0];
      assert s[|parts[0]| + 1..] == rest;
      SplitOfJoin(parts[1..], c);
    }
  }

  predicate IsDigit(c: char) {
    '0' as int <= c as int <= '9' as int
  }

  /** s.isdigit(), for the ASCII digits: non-empty, and every character a digit. */
  predicate IsDigits(s: string) {
    s != [] && forall i :: 0 <= i < |s| ==> IsDigit(s[i])
  }

  /** int(s) for a string of decimal digits. */
  function ParseNat(s: string): nat
    requires forall i :: 0 <= i < |s| ==> IsDigit(s[i])
  {
    if s == [] then 0
    else
      assert IsDigit(s[|s| - 1]);
      10 * ParseNat(s[..|s| - 1]) + (s[|s| - 1] as int - '0' as int)
  }

  function DigitChar(d: nat): (c: char)
    requires d < 10
    ensures IsDigit(c) && c as int - '0' as int == d
  {
    ('0' as int + d) as char
  }

  /** str(n) for a non-negative integer: decimal digits, no leading zero. */
  function NatToString(n: nat): (s: string)
    ensures IsDigits(s)
    ensures s[0] == '0' ==> s == "0"
  {
    if n < 10 then [DigitChar(n)] else NatToString(n / 10) + [DigitChar(n % 10)]
  }

  /** int(str(n)) == n */
  lemma {:induction false} ParseNatToString(n: nat)
    ensures ParseNat(NatToString(n)) == n
  {
    if n >= 10 {
      var p := NatToString(n / 10);
      var s := p + [DigitChar(n % 10)];
      assert s[..|s| - 1] == p;
      ParseNatToString(n / 10);
    }
  }

  /** The line boundaries str.splitlines() recognises. */
  predicate IsLineBreak(c: char) {
    c == '\n' || c == '\r' || c == '\U{B}' || c == '\U{C}' || c == '\U{1C}' || c == '\U{1D}' || c == '\U{1E}'
    || c == '\U{85}' || c == '\U{2028}' || c == '\U{2029}'
  }

  /** Index of the first line boundary of s, or |s|. */
  function LineEnd(s: string): (n: nat)
    ensures n <= |s| && (n == |s| || IsLineBreak(s[n]))
    ensures forall k :: 0 <= k < n ==> !IsLineBreak(s[k])
  {
    if s == [] || IsLineBreak(s[0]) then 0 else 1 + LineEnd(s[1..])
  }

  /** s.splitlines(): the lines of s without their boundaries; "\r\n" is one boundary and a final boundary opens no empty line. */
  function SplitLines(s: string): (lines: seq<string>)
    ensures forall i, k :: 0 <= i < |lines| && 0 <= k < |lines[i]| ==> !IsLineBreak(lines[i][k])
    ensures s == [] <==> lines == []
    decreases |s|
  {
    if s == [] then []
    else
      var n := LineEnd(s);
      if n == |s| then [s]
      else
        var width := if s[n] == '\r' && n + 1 < |s| && s[n + 1] == '\n' then 2 else 1;
        [s[..n]] + SplitLines(s[n + width..])
  }

  /** Lines each ended by "\n": the text a list of lines is written out as. */
  function JoinLines(lines: seq<string>): string {
    if lines == [] then [] else lines[0] + "\n" + JoinLines(lines[1..])
  }

  /** The first line boundary of a line followed by "\n" is that "\n". */
  lemma LineEndOfLine(line: string, rest: string)
    requires forall k :: 0 <= k < |line| ==> !IsLineBreak(line[k])
    ensures LineEnd(line + "\n" + rest) == |line|
  {
    var s := line + "\n" + rest;
    if line == [] {
      assert IsLineBreak(s[0]);
    } else {
      assert s[1..] == line[1..] + "\n" + rest;
      LineEndOfLine(line[1..], rest);
    }
  }

  /** splitlines() gives back the lines a text was written out from, when no line holds a boundary. */
  lemma {:induction false} SplitLinesOfJoin(lines: seq<string>)
    requires forall i, k :: 0 <= i < |lines| && 0 <= k < |lines[i]| ==> !IsLineBreak(lines[i][k])
    ensures SplitLines(JoinLines(lines)) == lines
  {
    if lines != [] {
      var s := JoinLines(lines);
      var line := lines[0];
      var rest := JoinLines(lines[1..]);
      LineEndOfLine(line, rest);
      assert s[|line|] == '\n';
      assert s[|line| + 1..] == rest;
      assert s[..|line|] == line;
      SplitLinesOfJoin(lines[1..]);
    }
  }
}
