/** The lexical part of Go's `path/filepath` on a system whose separator is
    '/': `Clean`, `Join`, `Ext`, and `strings.HasPrefix`. Nothing here looks
    at a real filesystem; symbolic links play no part. */
module FilePath {

  /** `strings.HasPrefix(s, p)`. */
  predicate HasPrefix(s: string, p: string) {
    |p| <= |s| && s[..|p|] == p
  }

  /** The elements between separators: `strings.Split(p, "/")`. */
  function Split(s: string): (r: seq<string>)
    ensures |r| >= 1
  {
    if |s| == 0 then [""]
    else if s[0] == '/' then [""] + Split(s[1..])
    else
      var t := Split(s[1..]);
      [[s[0]] + t[0]] + t[1..]
  }

  /** `strings.Join(xs, "/")`. */
  function JoinSegs(xs: seq<string>): string {
    if |xs| == 0 then ""
    else if |xs| == 1 then xs[0]
    else xs[0] + "/" + JoinSegs(xs[1..])
  }

  /** A name element that survives cleaning unchanged. */
  predicate Normal(x: string) {
    x != "" && x != "." && x != ".." && '/' !in x
  }

  predicate AllNormal(xs: seq<string>) {
    forall i :: 0 <= i < |xs| ==> Normal(xs[i])
  }

  /** One element of `Clean`'s scan: empty and "." elements vanish, ".."
      removes the last kept element unless that is itself "..", is dropped at
      the root of a rooted path, and is kept otherwise. */
  function Step(rooted: bool, stack: seq<string>, seg: string): seq<string> {
    if seg == "" || seg == "." then stack
    else if seg == ".." then
      if |stack| > 0 && stack[|stack| - 1] != ".." then stack[..|stack| - 1]
      else if rooted then stack
      else stack + [".."]
    else stack + [seg]
  }

  function Resolve(rooted: bool, stack: seq<string>, segs: seq<string>): seq<string>
    decreases |segs|
  {
    if segs == [] then stack else Resolve(rooted, Step(rooted, stack, segs[0]), segs[1..])
  }

  /** `filepath.Clean`: the shortest lexically equivalent path. It is never
      empty, it is rooted exactly when the input is, and a rooted path
      cleans to one with the same components. */
  function Clean(p: string): (r: string)
    ensures r != ""
    ensures r[0] == '/' <==> p != "" && p[0] == '/'
    ensures p != "" && p[0] == '/' ==> Components(r) == Components(p)
  {
    if p == "" then "."
    else
      var rooted := p[0] == '/';
      var st := Resolve(rooted, [], Split(p));
      if rooted then
        SplitElementsSlashFree(p);
    ResolveRootedNormal([], Split(p));
        ComponentsOfRender(st);
        "/" + JoinSegs(st)
      else if st == [] then "."
      else
        SplitElementsSlashFree(p);
        ResolveKeepsElements(false, [], Split(p));
        JoinSegsHead(st);
        JoinSegs(st)
  }

  /** `filepath.Join(dir, name)`: empty elements are ignored and the result
      is cleaned. It is empty only when both are; joined onto a rooted
      directory it is rooted, with the components of `dir/name`. */
  function Join(dir: string, name: string): (r: string)
    ensures r == "" <==> dir == "" && name == ""
    ensures dir != "" && dir[0] == '/' ==>
      r != "" && r[0] == '/' && Components(r) == Components(dir + "/" + name)
  {
    if dir != "" then Clean(dir + "/" + name)
    else if name != "" then Clean(name)
    else ""
  }

  /** `filepath.Ext`: the suffix from the last '.' of the final element, or
      "" when that element has no '.'. */
  function Ext(p: string): (e: string)
    ensures |e| <= |p| && e == p[|p| - |e|..]
    ensures e != "" ==> e[0] == '.'
    ensures '/' !in e
  {
    if |p| == 0 || p[|p| - 1] == '/' then ""
    else if p[|p| - 1] == '.' then "."
    else
      var e := Ext(p[..|p| - 1]);
      if e == "" then "" else e + [p[|p| - 1]]
  }

  /** A final element ending in "." and a text without '.' or '/' has that
      text as its extension: the extension starts at the last '.'. */
  lemma {:induction false} ExtOfSuffix(p: string, x: string)
    requires '.' !in x && '/' !in x
    ensures Ext(p + "." + x) == "." + x
    decreases |x|
  {
    var s := p + "." + x;
    if x == [] {
      assert s[|s| - 1] == '.';
    } else {
      var y, c := x[..|x| - 1], x[|x| - 1];
      assert x == y + [c];
      assert c in x && '.' !in y && '/' !in y;
      ExtOfSuffix(p, y);
      assert s == (p + "." + y) + [c];
      ExtAppendChar(p + "." + y, c);
    }
  }

  /** Once there is an extension, a further character other than '.' and
      '/' extends it. */
  lemma ExtAppendChar(q: string, c: char)
    requires c != '.' && c != '/' && Ext(q) != ""
    ensures Ext(q + [c]) == Ext(q) + [c]
  {
    var s := q + [c];
    assert s[..|s| - 1] == q && s[|s| - 1] == c;
  }

  /** The components of an absolute path, as the filesystem resolves it. */
  function Components(p: string): seq<string> {
    Resolve(true, [], Split(p))
  }

  /** The rooted path string whose components are `ps`. */
  function Render(ps: seq<string>): string {
    "/" + JoinSegs(ps)
  }

  // ---------------------------------------------------------------------
  // Splitting and joining

  lemma {:induction false} SplitAppend(a: string, b: string)
    ensures Split(a + "/" + b) == Split(a) + Split(b)
    decreases |a|
  {
    if |a| == 0 {
      assert a + "/" + b == ['/'] + b;
      SplitSlashCons(b);
    } else {
      var c, r := a[0], a[1..];
      assert a == [c] + r;
      assert a + "/" + b == [c] + (r + "/" + b);
      SplitAppend(r, b);
      SplitConsStep(c, r, r + "/" + b, Split(b));
    }
  }

  /** The step of `SplitAppend`: a text `x` that splits into the elements of
      `r` followed by `tail` keeps doing so behind one more character. */
  lemma SplitConsStep(c: char, r: string, x: string, tail: seq<string>)
    requires Split(x) == Split(r) + tail
    ensures Split([c] + x) == Split([c] + r) + tail
  {
    if c == '/' {
      SplitSlashCons(x);
      SplitSlashCons(r);
      ConsAppend("", Split(r), tail);
    } else {
      SplitCharCons(c, x);
      SplitCharCons(c, r);
      HeadJoinAppend(c, Split(r), tail);
    }
  }

  lemma ConsAppend<T>(h: T, a: seq<T>, b: seq<T>)
    ensures [h] + (a + b) == ([h] + a) + b
  {
  }

  /** Prefixing the first element of `t + tail` only touches `t`. */
  lemma HeadJoinAppend(c: char, t: seq<string>, tail: seq<string>)
    requires |t| >= 1
    ensures [[c] + (t + tail)[0]] + (t + tail)[1..] == ([[c] + t[0]] + t[1..]) + tail
  {
    assert (t + tail)[0] == t[0];
    assert (t + tail)[1..] == t[1..] + tail;
  }

  /** A leading '/' ends an empty first element. */
  lemma SplitSlashCons(r: string)
    ensures Split(['/'] + r) == [""] + Split(r)
  {
    assert (['/'] + r)[1..] == r;
  }

  /** A leading character other than '/' joins the first element. */
  lemma SplitCharCons(c: char, r: string)
    requires c != '/'
    ensures Split([c] + r) == [[c] + Split(r)[0]] + Split(r)[1..]
  {
    assert ([c] + r)[1..] == r;
  }

  /** No element of a split contains the separator. */
  lemma {:induction false} SplitElementsSlashFree(s: string)
    ensures forall i :: 0 <= i < |Split(s)| ==> '/' !in Split(s)[i]
    decreases |s|
  {
    if |s| > 0 {
      SplitElementsSlashFree(s[1..]);
      if s[0] != '/' {
        var t := Split(s[1..]);
        assert forall c :: c in [s[0]] + t[0] ==> c == s[0] || c in t[0];
      }
    }
  }


  lemma {:induction false} SplitNoSlash(x: string)
    requires '/' !in x
    ensures Split(x) == [x]
  {
    if |x| > 0 {
      assert x[0] in x;
      assert forall c :: c in x[1..] ==> c in x;
      SplitNoSlash(x[1..]);
      assert [x[0]] + x[1..] == x;
    }
  }

  lemma {:induction false} SplitJoin(xs: seq<string>)
    requires |xs| >= 1
    requires forall i :: 0 <= i < |xs| ==> '/' !in xs[i]
    ensures Split(JoinSegs(xs)) == xs
  {
    if |xs| == 1 {
      SplitNoSlash(xs[0]);
    } else {
      SplitAppend(xs[0], JoinSegs(xs[1..]));
      SplitNoSlash(xs[0]);
      SplitJoin(xs[1..]);
      assert [xs[0]] + xs[1..] == xs;
    }
  }

  lemma {:induction false} JoinSegsAppend(xs: seq<string>, ys: seq<string>)
    requires |xs| >= 1 && |ys| >= 1
    ensures JoinSegs(xs + ys) == JoinSegs(xs) + "/" + JoinSegs(ys)
  {
    if |xs| == 1 {
      assert (xs + ys)[1..] == ys;
    } else {
      assert (xs + ys)[1..] == xs[1..] + ys;
      JoinSegsAppend(xs[1..], ys);
    }
  }

  // ---------------------------------------------------------------------
  // Cleaning

  lemma {:induction false} ResolveAppend(rooted: bool, st: seq<string>, a: seq<string>, b: seq<string>)
    ensures Resolve(rooted, st, a + b) == Resolve(rooted, Resolve(rooted, st, a), b)
    decreases |a|
  {
    if a != [] {
      assert (a + b)[0] == a[0];
      assert (a + b)[1..] == a[1..] + b;
      ResolveAppend(rooted, Step(rooted, st, a[0]), a[1..], b);
    } else {
      assert a + b == b;
    }
  }

  lemma {:induction false} ResolveNormal(rooted: bool, st: seq<string>, xs: seq<string>)
    requires AllNormal(xs)
    ensures Resolve(rooted, st, xs) == st + xs
    decreases |xs|
  {
    if xs != [] {
      ResolveNormal(rooted, st + [xs[0]], xs[1..]);
      assert st + [xs[0]] + xs[1..] == st + xs;
    }
  }

  /** On a rooted path, ".." never survives: every kept element is normal. */
  lemma {:induction false} ResolveRootedNormal(st: seq<string>, segs: seq<string>)
    requires AllNormal(st)
    requires forall i :: 0 <= i < |segs| ==> '/' !in segs[i]
    ensures AllNormal(Resolve(true, st, segs))
    decreases |segs|
  {
    if segs != [] {
      var st' := Step(true, st, segs[0]);
      assert AllNormal(st');
      ResolveRootedNormal(st', segs[1..]);
    }
  }

  lemma ComponentsNormal(p: string)
    ensures AllNormal(Components(p))
  {
    SplitElementsSlashFree(p);
    ResolveRootedNormal([], Split(p));
  }

  /** A rooted path cleans to the rendering of its components. */
  lemma CleanRooted(s: string)
    requires |s| > 0 && s[0] == '/'
    ensures Clean(s) == Render(Components(s))
  {
  }

  /** Rendering a normal component list and resolving it again is the
      identity. */
  lemma {:induction false} ComponentsOfRender(ps: seq<string>)
    requires AllNormal(ps)
    ensures Components(Render(ps)) == ps
  {
    var x := JoinSegs(ps);
    assert Render(ps) == "" + "/" + x;
    SplitAppend("", x);
    if |ps| == 0 {
      assert Split(x) == [""];
      assert Split(Render(ps)) == ["", ""];
      assert Step(true, [], "") == [];
      assert Resolve(true, [], [""]) == [];
      assert Resolve(true, [], ["", ""]) == Resolve(true, [], [""]);
    } else {
      SplitJoin(ps);
      assert Split(Render(ps)) == [""] + ps;
      ResolveAppend(true, [], [""], ps);
      assert Resolve(true, [], [""]) == [];
      ResolveNormal(true, [], ps);
    }
  }

  /** Rendering a normal component list and resolving it again is the
      identity, and the rendered path is already clean. */
  lemma RenderRoundTrip(ps: seq<string>)
    requires AllNormal(ps)
    ensures Components(Render(ps)) == ps
    ensures Clean(Render(ps)) == Render(ps)
  {
    ComponentsOfRender(ps);
    CleanRooted(Render(ps));
  }

  /** Elements that are non-empty and free of '/' stay so under `Resolve`. */
  lemma {:induction false} ResolveKeepsElements(rooted: bool, st: seq<string>, segs: seq<string>)
    requires forall i :: 0 <= i < |st| ==> st[i] != "" && '/' !in st[i]
    requires forall i :: 0 <= i < |segs| ==> '/' !in segs[i]
    ensures forall i :: 0 <= i < |Resolve(rooted, st, segs)| ==>
      Resolve(rooted, st, segs)[i] != "" && '/' !in Resolve(rooted, st, segs)[i]
    decreases |segs|
  {
    if segs != [] {
      var st' := Step(rooted, st, segs[0]);
      assert forall i :: 0 <= i < |st'| ==> st'[i] != "" && '/' !in st'[i];
      ResolveKeepsElements(rooted, st', segs[1..]);
    }
  }

  lemma JoinSegsHead(xs: seq<string>)
    requires |xs| >= 1 && xs[0] != "" && '/' !in xs[0]
    ensures |JoinSegs(xs)| > 0 && JoinSegs(xs)[0] != '/'
  {
    assert xs[0][0] in xs[0];
  }

  lemma SplitRendered(ds: seq<string>, name: string)
    requires |ds| >= 1 && AllNormal(ds)
    ensures Split(Render(ds) + "/" + name) == [""] + ds + Split(name)
  {
    var x := JoinSegs(ds);
    assert Render(ds) + "/" + name == "" + "/" + (x + "/" + name);
    SplitAppend("", x + "/" + name);
    SplitAppend(x, name);
    SplitJoin(ds);
  }

  /** Joining a clean absolute directory with a name and cleaning is the
      same as resolving the name's elements on top of the directory's. */
  lemma JoinResolves(ds: seq<string>, name: string)
    requires |ds| >= 1 && AllNormal(ds)
    ensures Join(Render(ds), name) == Render(Resolve(true, ds, Split(name)))
  {
    var s := Render(ds) + "/" + name;
    var segs := Split(name);
    var head := [""] + ds;
    assert Resolve(true, [], head) == ds by {
      ResolveAppend(true, [], [""], ds);
      assert Resolve(true, [], [""]) == [];
      ResolveNormal(true, [], ds);
    }
    assert Components(s) == Resolve(true, ds, segs) by {
      SplitRendered(ds, name);
      assert Split(s) == head + segs;
      ResolveAppend(true, [], head, segs);
    }
    assert Join(Render(ds), name) == Clean(s);
    CleanRooted(s);
  }

  // ---------------------------------------------------------------------
  // Prefixes of rendered paths

  lemma FirstElement(a: string, b: string, s: string)
    requires '/' !in a && '/' !in b
    requires HasPrefix(s, a + "/") && HasPrefix(s, b + "/")
    ensures a == b
  {
    assert s[|a|] == '/' && s[|b|] == '/';
    if |a| < |b| {
      assert false;
    } else if |b| < |a| {
      assert false;
    }
    assert a == s[..|a|];
  }

  lemma NoSlashNoPrefix(x: string, a: string)
    requires '/' !in x
    ensures !HasPrefix(x, a + "/")
  {
    assert |a| < |x| ==> x[|a|] in x && (a + "/")[|a|] == '/';
  }

  /** The string prefix "ds/" of a joined component list means exactly a
      strictly longer component list that starts with `ds`. */
  lemma {:induction false} JoinPrefix(ds: seq<string>, rs: seq<string>)
    requires |ds| >= 1
    requires forall i :: 0 <= i < |ds| ==> '/' !in ds[i]
    requires forall i :: 0 <= i < |rs| ==> '/' !in rs[i]
    ensures HasPrefix(JoinSegs(rs), JoinSegs(ds) + "/") <==> |rs| > |ds| && rs[..|ds|] == ds
  {
    var p := JoinSegs(ds) + "/";
    if |rs| > |ds| && rs[..|ds|] == ds {
      assert rs == ds + rs[|ds|..];
      JoinSegsAppend(ds, rs[|ds|..]);
      assert JoinSegs(rs)[..|p|] == p;
    }
    if HasPrefix(JoinSegs(rs), p) {
      var j := JoinSegs(rs);
      assert |rs| != 0;
      var rest := if |ds| == 1 then "" else JoinSegs(ds[1..]) + "/";
      assert p == ds[0] + "/" + rest;
      assert HasPrefix(j, ds[0] + "/") by {
        assert j[..|ds[0] + "/"|] == p[..|ds[0] + "/"|];
      }
      assert |rs| != 1 by {
        if |rs| == 1 { NoSlashNoPrefix(rs[0], ds[0]); }
      }
      assert j == rs[0] + "/" + JoinSegs(rs[1..]);
      assert HasPrefix(j, rs[0] + "/");
      FirstElement(ds[0], rs[0], j);
      if |ds| > 1 {
        var off := |ds[0]| + 1;
        assert JoinSegs(rs[1..]) == j[off..];
        assert JoinSegs(ds[1..]) + "/" == p[off..];
        assert HasPrefix(JoinSegs(rs[1..]), JoinSegs(ds[1..]) + "/");
        JoinPrefix(ds[1..], rs[1..]);
        assert rs[..|ds|] == [rs[0]] + rs[1..][..|ds| - 1];
        assert ds == [ds[0]] + ds[1..];
      }
    }
  }
}
