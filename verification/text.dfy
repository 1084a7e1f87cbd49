/** The few operations on Python `str` values that the employee store relies on,
    restricted to ASCII: character classes, `strip()`, `lower()`, `split(sep)`,
    `sep.join(parts)` and the code-point order used by `sorted`. */
module Text {

  /** `str.isspace()` on ASCII: the space, \t \n \v \f \r (9-13) and the four
      separators 28-31. Both `strip()` and the regular expression class `\s`
      use this set. */
  predicate IsSpace(c: char) {
    c == ' ' || 9 <= c as int <= 13 || 28 <= c as int <= 31
  }

  predicate IsLetter(c: char) { 'a' <= c <= 'z' || 'A' <= c <= 'Z' }

  predicate IsDigit(c: char) { '0' <= c <= '9' }

  /** `str.isalnum()` on one ASCII character. */
  predicate IsAlnum(c: char) { IsLetter(c) || IsDigit(c) }

  /** Drops leading whitespace. */
  function TrimLeft(s: string): (r: string)
    ensures |r| <= |s|
    ensures r == [] || !IsSpace(r[0])
    ensures r != [] ==> r[|r| - 1] == s[|s| - 1]
  {
    if s != [] && IsSpace(s[0]) then TrimLeft(s[1..]) else s
  }

  /** Drops trailing whitespace. */
  function TrimRight(s: string): (r: string)
    ensures |r| <= |s|
    ensures r == [] || !IsSpace(r[|r| - 1])
    ensures r != [] ==> r[0] == s[0]
    ensures s != [] && !IsSpace(s[0]) ==> r != []
  {
    if s != [] && IsSpace(s[|s| - 1]) then
      assert (|s| > 1 && s[..|s| - 1][0] == s[0]) || IsSpace(s[0]);
      TrimRight(s[..|s| - 1])
    else s
  }

  /** `str.strip()` with no argument. */
  function Strip(s: string): (r: string)
    ensures |r| <= |s|
    ensures r == [] || (!IsSpace(r[0]) && !IsSpace(r[|r| - 1]))
  {
    TrimRight(TrimLeft(s))
  }

  /** Only whitespace is dropped from the front. */
  lemma {:induction false} TrimLeftBlank(s: string)
    ensures TrimLeft(s) == [] <==> forall i :: 0 <= i < |s| ==> IsSpace(s[i])
  {
    if s != [] && IsSpace(s[0]) {
      TrimLeftBlank(s[1..]);
      assert forall i :: 1 <= i < |s| ==> s[i] == s[1..][i - 1];
    }
  }

  /** The strip is empty exactly when every character is whitespace. */
  lemma StripBlank(s: string)
    ensures Strip(s) == [] <==> forall i :: 0 <= i < |s| ==> IsSpace(s[i])
  {
    TrimLeftBlank(s);
  }

  /** A string that neither starts nor ends with whitespace is its own strip. */
  lemma StripFixed(s: string)
    requires s == [] || (!IsSpace(s[0]) && !IsSpace(s[|s| - 1]))
    ensures Strip(s) == s
  {
    assert TrimLeft(s) == s;
  }

  lemma StripIdempotent(s: string)
    ensures Strip(Strip(s)) == Strip(s)
  {
    StripFixed(Strip(s));
  }

  /** A string without whitespace is its own strip. */
  lemma StripNoSpace(s: string)
    requires forall i :: 0 <= i < |s| ==> !IsSpace(s[i])
    ensures Strip(s) == s
  {
    StripFixed(s);
  }

  function LowerChar(c: char): (r: char)
    ensures !('A' <= r <= 'Z')
  {
    if 'A' <= c <= 'Z' then (c as int + 32) as char else c
  }

  /** `str.lower()` on ASCII. */
  function Lower(s: string): (r: string)
    ensures |r| == |s|
    ensures forall i :: 0 <= i < |s| ==> r[i] == LowerChar(s[i])
  {
    if s == [] then [] else [LowerChar(s[0])] + Lower(s[1..])
  }

  /** Index of the first occurrence of `c` at or after `from`, or `|s|` when
      there is none. */
  function FindChar(s: string, c: char, from: nat): (r: nat)
    requires from <= |s|
    ensures from <= r <= |s|
    ensures r < |s| ==> s[r] == c
    ensures forall k :: from <= k < r ==> s[k] != c
    decreases |s| - from
  {
    if from == |s| || s[from] == c then from else FindChar(s, c, from + 1)
  }

  /** `s.split(d)` for a one-character separator: every occurrence of `d` cuts,
      so adjacent separators give empty pieces, and the result is never empty. */
  function Split(s: string, d: char): (r: seq<string>)
    ensures |r| >= 1
    ensures forall i :: 0 <= i < |r| ==> d !in r[i]
  {
    if s == [] then [[]]
    else
      var rest := Split(s[1..], d);
      if s[0] == d then [[]] + rest
      else [[s[0]] + rest[0]] + rest[1..]
  }

  /** `d.join(parts)`. */
  function Join(parts: seq<string>, d: char): string
  {
    if |parts| == 0 then []
    else if |parts| == 1 then parts[0]
    else parts[0] + [d] + Join(parts[1..], d)
  }

  /** A join starts with the first character of its first piece. */
  lemma JoinFirst(parts: seq<string>, d: char)
    requires |parts| >= 1 && parts[0] != []
    ensures Join(parts, d) != [] && Join(parts, d)[0] == parts[0][0]
  {
  }

  /** A join ends with the last character of its last piece. */
  lemma {:induction false} JoinLast(parts: seq<string>, d: char)
    requires |parts| >= 1 && parts[|parts| - 1] != []
    ensures Join(parts, d) != []
    ensures Join(parts, d)[|Join(parts, d)| - 1] == parts[|parts| - 1][|parts[|parts| - 1]| - 1]
  {
    if |parts| > 1 {
      JoinLast(parts[1..], d);
      assert parts[1..][|parts[1..]| - 1] == parts[|parts| - 1];
    }
  }

  /** Joining the pieces of a split gives back the string. */
  lemma {:induction false} JoinSplit(s: string, d: char)
    ensures Join(Split(s, d), d) == s
  {
    if s != [] {
      var rest := Split(s[1..], d);
      JoinSplit(s[1..], d);
      if s[0] == d {
        assert Split(s, d) == [[]] + rest;
        assert s == [d] + s[1..];
      } else {
        var r := Split(s, d);
        assert r == [[s[0]] + rest[0]] + rest[1..];
        if |rest| == 1 {
          assert r == [[s[0]] + rest[0]];
          assert s == [s[0]] + s[1..];
        } else {
          assert r[1..] == rest[1..];
          assert Join(rest, d) == rest[0] + [d] + Join(rest[1..], d);
          assert s == [s[0]] + s[1..];
        }
      }
    }
  }

  /** Splitting a piece free of the separator that is followed by more text:
      the piece is glued to the first piece of the rest. */
  lemma {:induction false} SplitPrefix(p: string, tail: string, d: char)
    requires d !in p
    ensures Split(p + tail, d) == [p + Split(tail, d)[0]] + Split(tail, d)[1..]
  {
    if p != [] {
      assert (p + tail)[1..] == p[1..] + tail;
      SplitPrefix(p[1..], tail, d);
      assert [p[0]] + (p[1..] + Split(tail, d)[0]) == p + Split(tail, d)[0];
    } else {
      var r := Split(tail, d);
      assert p + tail == tail && p + r[0] == r[0];
      assert r == [r[0]] + r[1..];
    }
  }

  /** Splitting the join of pieces that do not contain the separator gives back
      the pieces: the round trip a delimited line relies on. */
  lemma {:induction false} SplitJoin(parts: seq<string>, d: char)
    requires |parts| >= 1
    requires forall i :: 0 <= i < |parts| ==> d !in parts[i]
    ensures Split(Join(parts, d), d) == parts
  {
    if |parts| == 1 {
      SplitPrefix(parts[0], [], d);
      assert parts[0] + [] == parts[0];
    } else {
      var j := Join(parts[1..], d);
      SplitJoin(parts[1..], d);
      SplitPrefix(parts[0], [d] + j, d);
      assert parts[0] + [d] + j == parts[0] + ([d] + j);
      assert Split([d] + j, d) == [[]] + Split(j, d) by {
        assert ([d] + j)[1..] == j;
      }
      assert parts[0] + [] == parts[0];
      assert parts == [parts[0]] + parts[1..];
    }
  }

  /** The number of occurrences of `c` in `s`. */
  function Count(s: string, c: char): nat {
    if s == [] then 0 else (if s[0] == c then 1 else 0) + Count(s[1..], c)
  }

  lemma {:induction false} CountAppend(a: string, b: string, c: char)
    ensures Count(a + b, c) == Count(a, c) + Count(b, c)
  {
    if a != [] {
      assert (a + b)[1..] == a[1..] + b;
      CountAppend(a[1..], b, c);
    } else {
      assert a + b == b;
    }
  }

  lemma {:induction false} CountPositive(s: string, c: char)
    requires c in s
    ensures Count(s, c) >= 1
  {
    if s[0] != c {
      CountPositive(s[1..], c);
    }
  }

  /** Every occurrence of the separator cuts: a split has one piece more
      than the separators in the string. */
  lemma {:induction false} SplitPieces(s: string, d: char)
    ensures |Split(s, d)| == Count(s, d) + 1
  {
    if s != [] {
      SplitPieces(s[1..], d);
    }
  }

  /** A join holds the separators it puts between the pieces, and those
      inside each piece. */
  lemma {:induction false} JoinCount(parts: seq<string>, d: char, i: nat)
    requires i < |parts|
    ensures Count(Join(parts, d), d) >= |parts| - 1 + Count(parts[i], d)
  {
    if |parts| > 1 {
      var rest := parts[1..];
      CountAppend(parts[0] + [d], Join(rest, d), d);
      CountAppend(parts[0], [d], d);
      assert Count([d], d) == 1 by {
        assert [d][1..] == [];
      }
      if i == 0 {
        JoinCount(rest, d, 0);
      } else {
        JoinCount(rest, d, i - 1);
        assert rest[i - 1] == parts[i];
      }
    }
  }

  /** A piece that contains the separator makes the split of the join
      longer than the list of pieces. */
  lemma SplitJoinTooMany(parts: seq<string>, d: char, i: nat)
    requires i < |parts| && d in parts[i]
    ensures |Split(Join(parts, d), d)| > |parts|
  {
    CountPositive(parts[i], d);
    JoinCount(parts, d, i);
    SplitPieces(Join(parts, d), d);
  }

  /** A character `strip()` removes nothing to, nor adds: one absent from
      the string is absent from its strip. */
  lemma {:induction false} StripOmits(s: string, c: char)
    requires c !in s
    ensures c !in Strip(s)
  {
    TrimLeftOmits(s, c);
    TrimRightOmits(TrimLeft(s), c);
  }

  lemma {:induction false} TrimLeftOmits(s: string, c: char)
    requires c !in s
    ensures c !in TrimLeft(s)
  {
    if s != [] && IsSpace(s[0]) {
      assert forall k :: 0 <= k < |s[1..]| ==> s[1..][k] == s[k + 1];
      TrimLeftOmits(s[1..], c);
    }
  }

  lemma {:induction false} TrimRightOmits(s: string, c: char)
    requires c !in s
    ensures c !in TrimRight(s)
  {
    if s != [] && IsSpace(s[|s| - 1]) {
      assert forall k :: 0 <= k < |s| - 1 ==> s[..|s| - 1][k] == s[k];
      TrimRightOmits(s[..|s| - 1], c);
    }
  }

  /** A character absent from a string is absent from every piece of its
      split. */
  lemma {:induction false} SplitOmits(s: string, d: char, c: char)
    requires c !in s
    ensures forall i :: 0 <= i < |Split(s, d)| ==> c !in Split(s, d)[i]
  {
    if s != [] {
      assert forall k :: 0 <= k < |s[1..]| ==> s[1..][k] == s[k + 1];
      SplitOmits(s[1..], d, c);
    }
  }

  /** A string without the separator splits into one piece. */
  lemma {:induction false} SplitWhole(s: string, d: char)
    requires d !in s
    ensures |Split(s, d)| == 1
  {
    if s != [] {
      assert forall k :: 0 <= k < |s[1..]| ==> s[1..][k] == s[k + 1];
      SplitWhole(s[1..], d);
    }
  }

  /** A character that is neither the separator nor in any piece is not in
      the join. */
  lemma {:induction false} JoinOmits(parts: seq<string>, d: char, c: char)
    requires c != d && forall i :: 0 <= i < |parts| ==> c !in parts[i]
    ensures c !in Join(parts, d)
  {
    if |parts| > 1 {
      JoinOmits(parts[1..], d, c);
    }
  }

  /** The two characters that end a line when a text file is read in
      universal-newline mode (`\r\n` ends one line too). */
  predicate IsLineBreak(c: char) { c == '\n' || c == '\r' }

  /** Neither line-break character occurs in `s`. */
  predicate Unbroken(s: string) { '\n' !in s && '\r' !in s }

  /** How many characters precede the first line break. */
  function LineEnd(t: string): (k: nat)
    ensures k <= |t|
    ensures forall j :: 0 <= j < k ==> !IsLineBreak(t[j])
    ensures k < |t| ==> IsLineBreak(t[k])
  {
    if t == [] || IsLineBreak(t[0]) then 0 else 1 + LineEnd(t[1..])
  }

  /** Iterating over a file opened for reading text: its lines, each without
      the `\n`, `\r` or `\r\n` that ends it; a last line needs no end. */
  function Lines(t: string): (r: seq<string>)
    ensures forall i :: 0 <= i < |r| ==> Unbroken(r[i])
    decreases |t|
  {
    if t == [] then []
    else
      var k := LineEnd(t);
      var line := t[..k];
      assert forall j :: 0 <= j < |line| ==> line[j] == t[j];
      if k == |t| then [line]
      else if t[k] == '\r' && k + 1 < |t| && t[k + 1] == '\n' then [line] + Lines(t[k + 2..])
      else [line] + Lines(t[k + 1..])
  }

  /** What writing `line + '\n'` for each line, with no newline translation,
      puts in a file. */
  function FileText(lines: seq<string>): string
  {
    if lines == [] then [] else lines[0] + "\n" + FileText(lines[1..])
  }

  /** Writing one more line appends it and its `\n`. */
  lemma {:induction false} FileTextAppend(lines: seq<string>, line: string)
    ensures FileText(lines + [line]) == FileText(lines) + line + "\n"
  {
    if lines != [] {
      assert (lines + [line])[1..] == lines[1..] + [line];
      FileTextAppend(lines[1..], line);
    }
  }

  /** The first line break of `a + b` is where `b` starts, when `a` has none
      and `b` starts with one. */
  lemma {:induction false} LineEndAt(a: string, b: string)
    requires Unbroken(a) && b != [] && IsLineBreak(b[0])
    ensures LineEnd(a + b) == |a|
  {
    if a != [] {
      assert (a + b)[1..] == a[1..] + b;
      assert forall k :: 0 <= k < |a[1..]| ==> a[1..][k] == a[k + 1];
      LineEndAt(a[1..], b);
    }
  }

  /** Reading back what was written line by line gives the lines, when none
      of them holds a line break. */
  lemma {:induction false} LinesFileText(lines: seq<string>)
    requires forall i :: 0 <= i < |lines| ==> Unbroken(lines[i])
    ensures Lines(FileText(lines)) == lines
  {
    if lines != [] {
      var rest := FileText(lines[1..]);
      var t := FileText(lines);
      assert t == lines[0] + ("\n" + rest);
      LineEndAt(lines[0], "\n" + rest);
      assert t[..|lines[0]|] == lines[0];
      assert t[|lines[0]| + 1..] == rest;
      LinesFileText(lines[1..]);
    }
  }

  /** Python's `a <= b` on strings: lexicographic by code point. */
  predicate Le(a: string, b: string)
    decreases |a|
  {
    a == [] || (b != [] && (a[0] < b[0] || (a[0] == b[0] && Le(a[1..], b[1..]))))
  }

  lemma {:induction false} LeTotal(a: string, b: string)
    ensures Le(a, b) || Le(b, a)
    decreases |a|
  {
    if a != [] && b != [] && a[0] == b[0] {
      LeTotal(a[1..], b[1..]);
    }
  }

  lemma {:induction false} LeTransitive(a: string, b: string, c: string)
    requires Le(a, b) && Le(b, c)
    ensures Le(a, c)
    decreases |a|
  {
    if a != [] && a[0] == b[0] && b[0] == c[0] {
      LeTransitive(a[1..], b[1..], c[1..]);
    }
  }

  lemma {:induction false} LeAntisymmetric(a: string, b: string)
    requires Le(a, b) && Le(b, a)
    ensures a == b
    decreases |a|
  {
    if a != [] {
      LeAntisymmetric(a[1..], b[1..]);
      assert a == [a[0]] + a[1..] && b == [b[0]] + b[1..];
    }
  }
}
