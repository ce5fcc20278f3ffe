/** `wrapText` (main.go): greedy word wrap of a description for the list
    command. */
module Cli {

  /** `unicode.IsSpace`, the separator `strings.Fields` splits on. */
  predicate IsSpace(c: char) {
    var u := c as int;
    (0x09 <= u <= 0x0D) || u == 0x20 || u == 0x85 || u == 0xA0 || u == 0x1680
    || (0x2000 <= u <= 0x200A) || u == 0x2028 || u == 0x2029 || u == 0x202F
    || u == 0x205F || u == 0x3000
  }

  /** A field of `strings.Fields`: non-empty and free of spaces. */
  predicate Word(w: string) {
    |w| > 0 && forall i :: 0 <= i < |w| ==> !IsSpace(w[i])
  }

  predicate Words(ws: seq<string>) {
    forall i :: 0 <= i < |ws| ==> Word(ws[i])
  }

  /** The length of the leading run of non-space characters. */
  function WordLen(s: string): (k: nat)
    ensures k <= |s|
    ensures forall i :: 0 <= i < k ==> !IsSpace(s[i])
    ensures k < |s| ==> IsSpace(s[k])
    decreases |s|
  {
    if s == [] || IsSpace(s[0]) then 0 else 1 + WordLen(s[1..])
  }

  /** Text made of spaces only. */
  predicate Blank(s: string) {
    forall i :: 0 <= i < |s| ==> IsSpace(s[i])
  }

  /** `strings.Fields`: the maximal runs of non-space characters. */
  function Fields(s: string): (ws: seq<string>)
    ensures Words(ws)
    decreases |s|
  {
    if s == [] then []
    else if IsSpace(s[0]) then Fields(s[1..])
    else
      var k := WordLen(s);
      assert s[..k][0] == s[0];
      [s[..k]] + Fields(s[k..])
  }

  /** `len` of the UTF-8 encoding. */
  function ByteLen(s: string): nat
    decreases |s|
  {
    if s == [] then 0
    else
      var c := s[0] as int;
      (if c < 0x80 then 1 else if c < 0x800 then 2 else if c < 0x10000 then 3 else 4) + ByteLen(s[1..])
  }

  /** `strings.Join(ws, " ")`. */
  function JoinSpaces(ws: seq<string>): string
    decreases |ws|
  {
    if ws == [] then "" else if |ws| == 1 then ws[0] else ws[0] + " " + JoinSpaces(ws[1..])
  }

  /** The lines the loop produces from the current line `cur` and the words
      still to place. */
  function WrapFrom(cur: string, rest: seq<string>, width: int): (lines: seq<string>)
    ensures 1 <= |lines| <= 1 + |rest|
    decreases |rest|
  {
    if rest == [] then [cur]
    else if ByteLen(cur) + 1 + ByteLen(rest[0]) <= width then WrapFrom(cur + " " + rest[0], rest[1..], width)
    else [cur] + WrapFrom(rest[0], rest[1..], width)
  }

  /** The wrapped lines: none for no words, and never more lines than
      words. */
  function Wrap(words: seq<string>, width: int): (lines: seq<string>)
    ensures lines == [] <==> words == []
    ensures |lines| <= |words|
  {
    if words == [] then [] else WrapFrom(words[0], words[1..], width)
  }

  /** `wrapText`. */
  method WrapText(text: string, width: int) returns (lines: seq<string>)
    ensures lines == Wrap(Fields(text), width)
  {
    var words := Fields(text);
    if |words| == 0 {
      return [];
    }
    ghost var all := Wrap(words, width);
    lines := [];
    var currentLine := words[0];
    var i := 1;
    while i < |words|
      invariant 1 <= i <= |words|
      invariant lines + WrapFrom(currentLine, words[i..], width) == all
    {
      var word := words[i];
      assert words[i..][1..] == words[i + 1..];
      if ByteLen(currentLine) + 1 + ByteLen(word) <= width {
        currentLine := currentLine + " " + word;
      } else {
        lines := lines + [currentLine];
        currentLine := word;
      }
      i := i + 1;
    }
    lines := lines + [currentLine];
  }

  // ---------------------------------------------------------------------
  // Properties of the wrap

  lemma {:induction false} WordLenIs(s: string, k: nat)
    requires k <= |s| && (forall i :: 0 <= i < k ==> !IsSpace(s[i]))
    requires k == |s| || IsSpace(s[k])
    ensures WordLen(s) == k
    decreases k
  {
    if k > 0 {
      WordLenIs(s[1..], k - 1);
    }
  }

  lemma WordFields(w: string)
    requires Word(w)
    ensures Fields(w) == [w]
  {
    WordLenIs(w, |w|);
    assert w[..|w|] == w && w[|w|..] == [];
  }

  /** A space between two texts only separates their fields. */
  lemma {:induction false} FieldsAroundSpace(a: string, b: string)
    ensures Fields(a + " " + b) == Fields(a) + Fields(b)
    decreases |a|
  {
    var s := a + " " + b;
    if a == [] {
      assert s[1..] == b;
    } else if IsSpace(a[0]) {
      assert s[0] == a[0] && s[1..] == a[1..] + " " + b;
      FieldsAroundSpace(a[1..], b);
    } else {
      var k := WordLen(a);
      WordLenIs(s, k);
      assert s[..k] == a[..k];
      assert s[k..] == a[k..] + " " + b;
      FieldsAroundSpace(a[k..], b);
    }
  }

  /** There are no fields exactly when the text is all space. */
  lemma {:induction false} FieldsNoneIffBlank(s: string)
    ensures Fields(s) == [] <==> Blank(s)
    decreases |s|
  {
    if s != [] && IsSpace(s[0]) {
      FieldsNoneIffBlank(s[1..]);
      assert forall i :: 1 <= i < |s| ==> s[i] == s[1..][i - 1];
    }
  }

  /** Words joined with single spaces split back into the same words. */
  lemma {:induction false} FieldsOfJoin(ws: seq<string>)
    requires Words(ws)
    ensures Fields(JoinSpaces(ws)) == ws
    decreases |ws|
  {
    if |ws| == 1 {
      WordFields(ws[0]);
    } else if |ws| > 1 {
      FieldsAroundSpace(ws[0], JoinSpaces(ws[1..]));
      WordFields(ws[0]);
      FieldsOfJoin(ws[1..]);
    }
  }

  lemma {:induction false} ByteLenAppend(a: string, b: string)
    ensures ByteLen(a + b) == ByteLen(a) + ByteLen(b)
    decreases |a|
  {
    if a == [] {
      assert a + b == b;
    } else {
      assert (a + b)[0] == a[0] && (a + b)[1..] == a[1..] + b;
      ByteLenAppend(a[1..], b);
    }
  }

  lemma JoinCons(a: string, xs: seq<string>)
    requires |xs| >= 1
    ensures JoinSpaces([a] + xs) == a + " " + JoinSpaces(xs)
  {
    assert ([a] + xs)[1..] == xs;
  }

  /** Appending a word to the current line does not change the joined text. */
  lemma JoinMerge(cur: string, rest: seq<string>)
    requires |rest| >= 1
    ensures JoinSpaces([cur + " " + rest[0]] + rest[1..]) == JoinSpaces([cur] + rest)
  {
    var r0, t := rest[0], rest[1..];
    assert rest == [r0] + t;
    if |t| == 0 {
      assert [cur + " " + r0] + t == [cur + " " + r0];
      assert [cur] + rest == [cur, r0];
    } else {
      JoinMergeMore(cur, r0, t);
    }
  }

  lemma JoinMergeMore(cur: string, r0: string, t: seq<string>)
    requires |t| >= 1
    ensures JoinSpaces([cur + " " + r0] + t) == JoinSpaces([cur] + ([r0] + t))
  {
    var c, j := cur + " ", JoinSpaces(t);
    assert JoinSpaces([cur] + ([r0] + t)) == c + (r0 + " " + j) by {
      JoinCons(cur, [r0] + t);
      JoinCons(r0, t);
    }
    assert JoinSpaces([c + r0] + t) == (c + r0) + " " + j by {
      JoinCons(c + r0, t);
    }
    assert (c + r0) + " " + j == c + (r0 + " " + j) by {
      Assoc3(c, r0, " ", j);
    }
  }

  /** `((a + b) + c) + d == a + ((b + c) + d)`. */
  lemma Assoc3(a: string, b: string, c: string, d: string)
    ensures ((a + b) + c) + d == a + ((b + c) + d)
  {
  }

  /** Closing the current line and starting one at the next word does not
      change the joined text either. */
  lemma JoinBreak(cur: string, rest: seq<string>, tail: seq<string>)
    requires |rest| >= 1 && |tail| >= 1
    requires JoinSpaces(tail) == JoinSpaces([rest[0]] + rest[1..])
    ensures JoinSpaces([cur] + tail) == JoinSpaces([cur] + rest)
  {
    JoinCons(cur, rest);
    JoinCons(cur, tail);
    assert rest == [rest[0]] + rest[1..];
  }

  /** The lines hold the current line and the remaining words, in order,
      separated by single spaces. */
  lemma {:induction false} WrapFromJoin(cur: string, rest: seq<string>, width: int)
    ensures JoinSpaces(WrapFrom(cur, rest, width)) == JoinSpaces([cur] + rest)
    decreases |rest|
  {
    if rest != [] {
      if ByteLen(cur) + 1 + ByteLen(rest[0]) <= width {
        WrapFromJoin(cur + " " + rest[0], rest[1..], width);
        JoinMerge(cur, rest);
      } else {
        var tail := WrapFrom(rest[0], rest[1..], width);
        WrapFromJoin(rest[0], rest[1..], width);
        JoinBreak(cur, rest, tail);
      }
    }
  }

  /** A line is never empty, and is a single word or fits the width. */
  predicate LineOk(line: string, width: int) {
    |line| > 0 && (Word(line) || ByteLen(line) <= width)
  }

  lemma {:induction false} WrapFromLines(cur: string, rest: seq<string>, width: int)
    requires LineOk(cur, width) && Words(rest)
    ensures forall i :: 0 <= i < |WrapFrom(cur, rest, width)| ==> LineOk(WrapFrom(cur, rest, width)[i], width)
    decreases |rest|
  {
    if rest != [] {
      var r0 := rest[0];
      if ByteLen(cur) + 1 + ByteLen(r0) <= width {
        ByteLenAppend(cur, " " + r0);
        ByteLenAppend(" ", r0);
        assert ByteLen(" ") == 1;
        assert cur + " " + r0 == cur + (" " + r0);
        assert LineOk(cur + " " + r0, width);
        assert Words(rest[1..]);
        WrapFromLines(cur + " " + r0, rest[1..], width);
        assert WrapFrom(cur, rest, width) == WrapFrom(cur + " " + r0, rest[1..], width);
      } else {
        assert Word(r0) && Words(rest[1..]);
        WrapFromLines(r0, rest[1..], width);
        var tail := WrapFrom(r0, rest[1..], width);
        assert WrapFrom(cur, rest, width) == [cur] + tail;
        forall i | 0 <= i < 1 + |tail| ensures LineOk(([cur] + tail)[i], width) {
          if i > 0 {
            assert ([cur] + tail)[i] == tail[i - 1];
          }
        }
      }
    }
  }

  /** The leading word of a line. */
  function FirstWord(line: string): string {
    line[..WordLen(line)]
  }

  /** The first line starts with the current line, followed by a space or
      nothing. */
  lemma {:induction false} FirstLineExtends(cur: string, rest: seq<string>, width: int)
    ensures var l := WrapFrom(cur, rest, width)[0];
      |l| >= |cur| && l[..|cur|] == cur && (|l| > |cur| ==> l[|cur|] == ' ')
    decreases |rest|
  {
    WrapFromJoin(cur, rest, width);
    if rest != [] && ByteLen(cur) + 1 + ByteLen(rest[0]) <= width {
      var c := cur + " " + rest[0];
      FirstLineExtends(c, rest[1..], width);
      var l := WrapFrom(cur, rest, width)[0];
      assert l[..|cur|] == l[..|c|][..|cur|];
      assert l[|cur|] == c[|cur|];
    }
  }

  lemma FirstWordOfWrap(w: string, rest: seq<string>, width: int)
    requires Word(w)
    ensures FirstWord(WrapFrom(w, rest, width)[0]) == w
  {
    WrapFromJoin(w, rest, width);
    FirstLineExtends(w, rest, width);
    var l := WrapFrom(w, rest, width)[0];
    WordLenIs(l, |w|);
  }

  /** A line ends only where the next word would not fit. */
  predicate Greedy(lines: seq<string>, width: int) {
    forall i :: 0 <= i < |lines| - 1 ==> ByteLen(lines[i]) + 1 + ByteLen(FirstWord(lines[i + 1])) > width
  }

  lemma {:induction false} WrapFromGreedy(cur: string, rest: seq<string>, width: int)
    requires Words(rest)
    ensures Greedy(WrapFrom(cur, rest, width), width)
    decreases |rest|
  {
    if rest != [] {
      var r0 := rest[0];
      if ByteLen(cur) + 1 + ByteLen(r0) <= width {
        WrapFromGreedy(cur + " " + r0, rest[1..], width);
      } else {
        var tail := WrapFrom(r0, rest[1..], width);
        WrapFromGreedy(r0, rest[1..], width);
        FirstWordOfWrap(r0, rest[1..], width);
        var lines := [cur] + tail;
        forall i | 0 <= i < |lines| - 1
          ensures ByteLen(lines[i]) + 1 + ByteLen(FirstWord(lines[i + 1])) > width
        {
          if i > 0 {
            assert lines[i] == tail[i - 1] && lines[i + 1] == tail[i];
          }
        }
      }
    }
  }

  /** What `wrapText` promises of its lines. No words give no lines.
      Otherwise there are between one line and one line per word; joined
      with single spaces they are the words joined the same way, so no word
      is lost, split or moved; every line is non-empty and is one word or
      fits the width; and a line ends only when the next word would not
      fit on it. */
  lemma WrapProperties(text: string, width: int)
    ensures var words := Fields(text); var lines := Wrap(words, width);
      && (words == [] ==> lines == [])
      && (words != [] ==> 1 <= |lines| <= |words|)
      && JoinSpaces(lines) == JoinSpaces(words)
      && Fields(JoinSpaces(lines)) == words
      && (forall i :: 0 <= i < |lines| ==> LineOk(lines[i], width))
      && Greedy(lines, width)
  {
    var words := Fields(text);
    FieldsOfJoin(words);
    if words != [] {
      assert words == [words[0]] + words[1..];
      WrapFromJoin(words[0], words[1..], width);
      WrapFromLines(words[0], words[1..], width);
      WrapFromGreedy(words[0], words[1..], width);
    }
  }
}
