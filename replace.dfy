/** What `regexp.MustCompile(regexp.QuoteMeta(p))` does with `Match` and
    `ReplaceAll`: the quoted pattern matches exactly the bytes of `p`, so a
    match is a literal occurrence, and `ReplaceAll` replaces the leftmost,
    non-overlapping occurrences from left to right. The replacement is a
    template in which `$` is special (`regexp.Regexp.Expand`). */
module Replace {
  import opened Types

  /** `p` occurs in `s` at offset `i`. */
  predicate OccursAt<T(==)>(s: seq<T>, p: seq<T>, i: nat) {
    i + |p| <= |s| && s[i..i + |p|] == p
  }

  lemma ShiftOccurs<T>(s: seq<T>, p: seq<T>, i: nat)
    requires |s| > 0
    ensures OccursAt(s, p, i + 1) <==> OccursAt(s[1..], p, i)
  {
    if i + 1 + |p| <= |s| {
      assert s[i + 1..i + 1 + |p|] == s[1..][i..i + |p|];
    }
  }

  /** `s` has an occurrence of `p` (what `Match` reports): the scan from
      the left finds one exactly when `p` occurs at some offset. */
  function Contains<T(==)>(s: seq<T>, p: seq<T>): (r: bool)
    ensures r <==> exists i: nat :: OccursAt(s, p, i)
    decreases |s|
  {
    if |s| < |p| then false
    else if s[..|p|] == p then
      assert OccursAt(s, p, 0);
      true
    else
      OccursLater(s, p);
      Contains(s[1..], p)
  }

  /** Without an occurrence at offset 0, `p` occurs in `s` exactly when it
      occurs in `s[1..]`. */
  lemma OccursLater<T>(s: seq<T>, p: seq<T>)
    requires |s| >= |p| && s[..|p|] != p
    ensures (exists i: nat :: OccursAt(s, p, i)) <==> (exists i: nat :: OccursAt(s[1..], p, i))
  {
    if exists i: nat :: OccursAt(s, p, i) {
      var i: nat :| OccursAt(s, p, i);
      assert i > 0;
      ShiftOccurs(s, p, i - 1);
    }
    if exists i: nat :: OccursAt(s[1..], p, i) {
      var i: nat :| OccursAt(s[1..], p, i);
      ShiftOccurs(s, p, i);
    }
  }

  /** Scan left to right; at an occurrence emit `r` and continue after it. */
  function ReplaceLiteral<T(==)>(s: seq<T>, p: seq<T>, r: seq<T>): seq<T>
    requires |p| > 0
    decreases |s|
  {
    if |s| < |p| then s
    else if s[..|p|] == p then r + ReplaceLiteral(s[|p|..], p, r)
    else [s[0]] + ReplaceLiteral(s[1..], p, r)
  }

  /** The text between the occurrences the same scan finds: there is one
      more piece than there are occurrences. */
  function Pieces<T(==)>(s: seq<T>, p: seq<T>): (ps: seq<seq<T>>)
    requires |p| > 0
    ensures |ps| >= 1
    decreases |s|
  {
    if |s| < |p| then [s]
    else if s[..|p|] == p then [[]] + Pieces(s[|p|..], p)
    else
      var t := Pieces(s[1..], p);
      [[s[0]] + t[0]] + t[1..]
  }

  /** `ps[0] + sep + ps[1] + sep + ... + ps[|ps|-1]`. */
  function JoinWith<T>(ps: seq<seq<T>>, sep: seq<T>): seq<T>
    decreases |ps|
  {
    if |ps| == 0 then []
    else if |ps| == 1 then ps[0]
    else ps[0] + sep + JoinWith(ps[1..], sep)
  }

  lemma JoinWithHead<T>(c: seq<T>, ps: seq<seq<T>>, sep: seq<T>)
    requires |ps| >= 1
    ensures JoinWith([c + ps[0]] + ps[1..], sep) == c + JoinWith(ps, sep)
  {
    var qs := [c + ps[0]] + ps[1..];
    if |ps| > 1 {
      assert qs[1..] == ps[1..];
    }
  }

  /** Replacing is splitting at the occurrences and joining the pieces
      with the replacement. */
  lemma {:induction false} ReplaceIsJoin<T>(s: seq<T>, p: seq<T>, r: seq<T>)
    requires |p| > 0
    ensures ReplaceLiteral(s, p, r) == JoinWith(Pieces(s, p), r)
    decreases |s|
  {
    if |s| < |p| {
    } else if s[..|p|] == p {
      ReplaceIsJoin(s[|p|..], p, r);
      var t := Pieces(s[|p|..], p);
      var ps := [[]] + t;
      assert ps[1..] == t;
      if |t| == 1 {
        assert JoinWith(ps, r) == [] + r + t[0];
      }
    } else {
      ReplaceIsJoin(s[1..], p, r);
      JoinWithHead([s[0]], Pieces(s[1..], p), r);
    }
  }

  /** Replacing every occurrence by itself gives the text back. */
  lemma {:induction false} ReplaceBySelf<T>(s: seq<T>, p: seq<T>)
    requires |p| > 0
    ensures ReplaceLiteral(s, p, p) == s
    decreases |s|
  {
    if |s| < |p| {
    } else if s[..|p|] == p {
      ReplaceBySelf(s[|p|..], p);
      assert s == s[..|p|] + s[|p|..];
    } else {
      ReplaceBySelf(s[1..], p);
      assert s == [s[0]] + s[1..];
    }
  }

  /** The pieces with the placeholder between them are the original text:
      replacement changes the occurrences and nothing else. */
  lemma PiecesRoundTrip<T>(s: seq<T>, p: seq<T>)
    requires |p| > 0
    ensures JoinWith(Pieces(s, p), p) == s
  {
    ReplaceIsJoin(s, p, p);
    ReplaceBySelf(s, p);
  }

  lemma {:induction false} FirstPieceIsPrefix<T>(s: seq<T>, p: seq<T>)
    requires |p| > 0
    ensures |Pieces(s, p)[0]| <= |s| && Pieces(s, p)[0] == s[..|Pieces(s, p)[0]|]
    decreases |s|
  {
    if |s| >= |p| && s[..|p|] != p {
      FirstPieceIsPrefix(s[1..], p);
    }
  }

  /** The first piece ends at the leftmost occurrence: no occurrence starts
      inside it, and when there is more than one piece an occurrence starts
      right after it. */
  lemma {:induction false} FirstPieceEndsAtLeftmost<T>(s: seq<T>, p: seq<T>)
    requires |p| > 0
    ensures forall j: nat :: j < |Pieces(s, p)[0]| ==> !OccursAt(s, p, j)
    ensures |Pieces(s, p)| > 1 ==> OccursAt(s, p, |Pieces(s, p)[0]|)
    decreases |s|
  {
    if |s| < |p| {
    } else if s[..|p|] == p {
      assert OccursAt(s, p, 0);
    } else {
      FirstPieceEndsAtLeftmost(s[1..], p);
      var t := Pieces(s[1..], p);
      assert |Pieces(s, p)[0]| == 1 + |t[0]|;
      forall j: nat | j < |Pieces(s, p)[0]| ensures !OccursAt(s, p, j) {
        if j > 0 { ShiftOccurs(s, p, j - 1); }
      }
      if |t| > 1 {
        ShiftOccurs(s, p, |t[0]|);
      }
    }
  }

  /** Occurrences that overlap are not all replaced: in `[1, 1, 1]` the
      placeholder `[1, 1]` is replaced once, at the left. */
  lemma OverlapLeftmost()
    ensures ReplaceLiteral([1, 1, 1], [1, 1], [2]) == [2, 1]
    ensures Pieces([1, 1, 1], [1, 1]) == [[], [1]]
  {
    var s: seq<int> := [1, 1, 1];
    var p: seq<int> := [1, 1];
    var one: seq<int> := [1];
    assert s[..2] == p && s[2..] == one;
    assert |one| < |p|;
    assert ReplaceLiteral(one, p, [2]) == one;
    assert Pieces(one, p) == [one];
  }

  /** No piece holds an occurrence: the scan found every one of them. */
  lemma {:induction false} PiecesHaveNoOccurrence<T>(s: seq<T>, p: seq<T>)
    requires |p| > 0
    ensures forall i :: 0 <= i < |Pieces(s, p)| ==> !Contains(Pieces(s, p)[i], p)
    decreases |s|
  {
    if |s| < |p| {
      assert !Contains(s, p);
    } else if s[..|p|] == p {
      PiecesHaveNoOccurrence(s[|p|..], p);
      var empty: seq<T> := [];
      assert !Contains(empty, p);
      var t := Pieces(s[|p|..], p);
      assert Pieces(s, p) == [[]] + t;
    } else {
      PiecesHaveNoOccurrence(s[1..], p);
      var t := Pieces(s[1..], p);
      var c := [s[0]] + t[0];
      FirstPieceIsPrefix(s[1..], p);
      assert Pieces(s, p) == [c] + t[1..];
    }
  }

  /** `Match` is true exactly when the scan finds an occurrence. */
  lemma {:induction false} ContainsIffSplit<T>(s: seq<T>, p: seq<T>)
    requires |p| > 0
    ensures Contains(s, p) <==> |Pieces(s, p)| > 1
    decreases |s|
  {
    if |s| >= |p| && s[..|p|] != p {
      ContainsIffSplit(s[1..], p);
    }
  }

  /** Without an occurrence the text is unchanged, whatever the
      replacement. */
  lemma NoOccurrenceUnchanged<T>(s: seq<T>, p: seq<T>, r: seq<T>)
    requires |p| > 0
    ensures !Contains(s, p) ==> ReplaceLiteral(s, p, r) == s
  {
    ContainsIffSplit(s, p);
    ReplaceIsJoin(s, p, r);
  }

  // ---------------------------------------------------------------------
  // The replacement template

  const Dollar: byte := 0x24
  const LeftBrace: byte := 0x7B
  const RightBrace: byte := 0x7D
  const Zero: byte := 0x30

  /** ASCII letters, digits and '_'. */
  predicate NameByte(b: byte) {
    (0x30 <= b <= 0x39) || (0x41 <= b <= 0x5A) || (0x61 <= b <= 0x7A) || b == 0x5F
  }

  /** The length of the leading run of name bytes. */
  function NameLen(s: seq<byte>): (k: nat)
    ensures k <= |s|
    ensures forall i :: 0 <= i < k ==> NameByte(s[i])
    ensures k < |s| ==> !NameByte(s[k])
    decreases |s|
  {
    if s == [] || !NameByte(s[0]) then 0 else 1 + NameLen(s[1..])
  }

  /** A reference after a `$`: a leading name, or a name in braces. `None`
      when the reference is malformed. The result is the name and the rest
      of the template. */
  function Extract(s: seq<byte>): (r: Option<(seq<byte>, seq<byte>)>)
    ensures r.Some? ==> |r.value.0| > 0 && |r.value.1| < |s|
  {
    if s == [] then None
    else if s[0] == LeftBrace then
      var k := NameLen(s[1..]);
      if k == 0 || k + 1 >= |s| || s[k + 1] != RightBrace then None
      else Some((s[1..k + 1], s[k + 2..]))
    else
      var k := NameLen(s);
      if k == 0 then None else Some((s[..k], s[k..]))
  }

  /** `Expand(template)` for a match `m` of a pattern without capture
      groups: `$$` is a `$`; `$0` and `${0}` are the match; every other
      name, a number of a missing group or a name of no group, is empty; a
      malformed reference leaves the `$` as text. A template without `$` is
      used as it is. */
  function Expand(t: seq<byte>, m: seq<byte>): (r: seq<byte>)
    ensures Dollar !in t ==> r == t
    decreases |t|
  {
    if t == [] then []
    else if t[0] != Dollar then
      assert Dollar in t ==> Dollar in t[1..];
      assert t == [t[0]] + t[1..];
      [t[0]] + Expand(t[1..], m)
    else if |t| >= 2 && t[1] == Dollar then [Dollar] + Expand(t[2..], m)
    else
      match Extract(t[1..])
      case None => [Dollar] + Expand(t[1..], m)
      case Some((name, rest)) => (if name == [Zero] then m else []) + Expand(rest, m)
  }

  /** How the well-formed references of the template come out. */
  lemma ExpandExamples(m: seq<byte>)
    ensures Expand([Dollar, Dollar], m) == [Dollar]
    ensures Expand([Dollar, Zero], m) == m
    ensures Expand([Dollar, LeftBrace, Zero, RightBrace], m) == m
    ensures Expand([Dollar, 0x31], m) == []
    ensures Expand([Dollar, Zero, 0x61], m) == []
  {
    var zero: seq<byte> := [Zero];
    var one: seq<byte> := [0x31];
    var zeroA: seq<byte> := [Zero, 0x61];
    var braced: seq<byte> := [LeftBrace, Zero, RightBrace];
    var none: seq<byte> := [];
    assert NameLen(zero) == 1 && zero[..1] == zero && zero[1..] == none;
    assert Extract(zero) == Some((zero, none));
    assert NameLen(one) == 1 && one[..1] == one && one[1..] == none;
    assert Extract(one) == Some((one, none));
    assert zeroA[1..] == [0x61];
    assert NameLen(zeroA) == 2 && zeroA[..2] == zeroA && zeroA[2..] == none;
    assert Extract(zeroA) == Some((zeroA, none));
    assert braced[1..] == [Zero, RightBrace] && [Zero, RightBrace][1..] == [RightBrace];
    assert NameLen(braced[1..]) == 1;
    assert braced[1..2] == zero && braced[3..] == none;
    assert Extract(braced) == Some((zero, none));
  }

  /** A lone `$` and an unclosed `${0` are kept as text. */
  lemma ExpandMalformed(m: seq<byte>)
    ensures Expand([Dollar], m) == [Dollar]
    ensures Expand([Dollar, LeftBrace, Zero], m) == [Dollar, LeftBrace, Zero]
  {
    assert NameLen([Zero]) == 1;
    assert Extract([LeftBrace, Zero]) == None;
    assert Expand([LeftBrace, Zero], m) == [LeftBrace] + Expand([Zero], m);
    assert Expand([Zero], m) == [Zero] + Expand([], m);
  }

  /** `pattern.ReplaceAll(content, repl)` for the quoted placeholder: the
      text between the occurrences joined by the expanded template, and
      content without an occurrence unchanged. */
  function ReplaceAll(content: seq<byte>, placeholder: seq<byte>, repl: seq<byte>): (r: seq<byte>)
    requires |placeholder| > 0
    ensures r == JoinWith(Pieces(content, placeholder), Expand(repl, placeholder))
    ensures !Contains(content, placeholder) ==> r == content
  {
    ReplaceIsJoin(content, placeholder, Expand(repl, placeholder));
    NoOccurrenceUnchanged(content, placeholder, Expand(repl, placeholder));
    ReplaceLiteral(content, placeholder, Expand(repl, placeholder))
  }

  /** With no `$` in the module name, `ReplaceAll` is plain literal
      replacement by the module name. */
  lemma ReplaceAllPlain(content: seq<byte>, placeholder: seq<byte>, repl: seq<byte>)
    requires |placeholder| > 0 && Dollar !in repl
    ensures ReplaceAll(content, placeholder, repl) == ReplaceLiteral(content, placeholder, repl)
    ensures ReplaceAll(content, placeholder, repl) == JoinWith(Pieces(content, placeholder), repl)
  {
    ReplaceIsJoin(content, placeholder, repl);
  }
}
