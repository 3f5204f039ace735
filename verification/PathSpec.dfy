/**
 What normalising a path means: its components run over a stack, "." does nothing, ".." pops, the
 root absorbs "..". The laws a shell user relies on are proved here.
 */
module PathSpec {

  predicate HasNo(s: string, c: char) { forall i :: 0 <= i < |s| ==> s[i] != c }

  /** The characters up to the first '/'. */
  function Word(s: string): (w: string)
    ensures |w| <= |s| && w == s[..|w|] && HasNo(w, '/') && (|w| < |s| ==> s[|w|] == '/')
  {
    if s == "" || s[0] == '/' then "" else [s[0]] + Word(s[1..])
  }

  /** The non-empty components of a path, in order. */
  function Comps(s: string): seq<string>
    decreases |s|
  {
    if s == "" then []
    else if s[0] == '/' then Comps(s[1..])
    else [Word(s)] + Comps(s[|Word(s)|..])
  }

  function Push(st: seq<string>, c: string): seq<string> {
    if c == ".." then (if st == [] then [] else st[..|st| - 1])
    else if c == "." then st
    else st + [c]
  }

  function Norm(st: seq<string>, cs: seq<string>): seq<string>
    decreases |cs|
  {
    if cs == [] then st else Norm(Push(st, cs[0]), cs[1..])
  }

  /** "/a/b" for [a, b], "" for the empty stack. */
  function Joined(st: seq<string>): string {
    if st == [] then "" else Joined(st[..|st| - 1]) + "/" + st[|st| - 1]
  }

  function Render(st: seq<string>): string { if st == [] then "/" else Joined(st) }

  /** The normal form of an absolute path. */
  function Wash(p: string): string { Render(Norm([], Comps(p))) }

  // ------------------------------------------------------------------- stacks

  predicate IsComp(c: string) { c != "" && HasNo(c, '/') }

  predicate IsPlain(c: string) { IsComp(c) && c != "." && c != ".." }

  predicate AllComps(cs: seq<string>) { forall i :: 0 <= i < |cs| ==> IsComp(cs[i]) }

  predicate AllPlain(st: seq<string>) { forall i :: 0 <= i < |st| ==> IsPlain(st[i]) }

  lemma {:induction false} CompsAreComps(s: string)
    ensures AllComps(Comps(s))
    decreases |s|
  {
    if s == "" {
    } else if s[0] == '/' {
      CompsAreComps(s[1..]);
    } else {
      CompsAreComps(s[|Word(s)|..]);
    }
  }

  lemma {:induction false} NormIsPlain(st: seq<string>, cs: seq<string>)
    requires AllPlain(st) && AllComps(cs)
    ensures AllPlain(Norm(st, cs))
    decreases |cs|
  {
    if cs != [] {
      NormIsPlain(Push(st, cs[0]), cs[1..]);
    }
  }

  /** Plain components just pile up. */
  lemma {:induction false} NormPlain(st: seq<string>, cs: seq<string>)
    requires AllPlain(cs)
    ensures Norm(st, cs) == st + cs
    decreases |cs|
  {
    if cs != [] {
      NormPlain(st + [cs[0]], cs[1..]);
      assert st + [cs[0]] + cs[1..] == st + cs;
    }
  }

  lemma {:induction false} NormConcat(st: seq<string>, a: seq<string>, b: seq<string>)
    ensures Norm(st, a + b) == Norm(Norm(st, a), b)
    decreases |a|
  {
    if a == [] {
      assert a + b == b;
    } else {
      assert (a + b)[1..] == a[1..] + b;
      NormConcat(Push(st, a[0]), a[1..], b);
    }
  }

  // --------------------------------------------------------------- components

  lemma {:induction false} WordStops(w: string, rest: string)
    requires HasNo(w, '/') && (rest == "" || rest[0] == '/')
    ensures Word(w + rest) == w
  {
    if w == "" {
      assert w + rest == rest;
    } else {
      assert (w + rest)[1..] == w[1..] + rest;
      WordStops(w[1..], rest);
    }
  }

  lemma {:induction false} WordUnchanged(s: string, rest: string)
    requires rest == "" || rest[0] == '/'
    ensures Word(s + rest) == Word(s)
  {
    if s != "" && s[0] != '/' {
      assert (s + rest)[1..] == s[1..] + rest;
      WordUnchanged(s[1..], rest);
    } else if s == "" {
      assert s + rest == rest;
    }
  }

  /** A slash separates the components before it from those after it. */
  lemma {:induction false} CompsConcat(a: string, b: string)
    requires b == "" || b[0] == '/'
    ensures Comps(a + b) == Comps(a) + Comps(b)
    decreases |a|
  {
    if a == "" {
      assert a + b == b;
    } else if a[0] == '/' {
      assert (a + b)[1..] == a[1..] + b;
      CompsConcat(a[1..], b);
    } else {
      WordUnchanged(a, b);
      var n := |Word(a)|;
      assert (a + b)[n..] == a[n..] + b;
      CompsConcat(a[n..], b);
    }
  }

  lemma CompsSlash(w: string)
    requires IsComp(w)
    ensures Comps("/" + w) == [w]
  {
    WordStops(w, "");
    assert w + "" == w;
    calc {
      Comps("/" + w);
      { assert ("/" + w)[1..] == w; }
      Comps(w);
      [w] + Comps(w[|w|..]);
      { assert w[|w|..] == ""; }
      [w];
    }
  }

  lemma CompsSnoc(a: string, c: string)
    requires IsComp(c)
    ensures Comps(a + "/" + c) == Comps(a) + [c]
  {
    assert a + "/" + c == a + ("/" + c);
    CompsConcat(a, "/" + c);
    CompsSlash(c);
  }

  lemma {:induction false} CompsJoined(st: seq<string>)
    requires AllComps(st)
    ensures Comps(Joined(st)) == st
  {
    if st != [] {
      var n := |st| - 1;
      CompsJoined(st[..n]);
      CompsSnoc(Joined(st[..n]), st[n]);
      assert st == st[..n] + [st[n]];
    }
  }

  /** The components of the normal form are the final stack. */
  lemma CompsRender(st: seq<string>)
    requires AllComps(st)
    ensures Comps(Render(st)) == st
  {
    CompsJoined(st);
  }

  lemma WashComps(p: string)
    ensures AllPlain(Norm([], Comps(p))) && Comps(Wash(p)) == Norm([], Comps(p))
  {
    CompsAreComps(p);
    NormIsPlain([], Comps(p));
    CompsRender(Norm([], Comps(p)));
  }

  // --------------------------------------------------------------------- laws

  ghost predicate NoDoubleSlash(s: string) { forall i :: 0 <= i < |s| - 1 ==> !(s[i] == '/' && s[i + 1] == '/') }

  lemma {:induction false} JoinedShape(st: seq<string>)
    requires AllComps(st)
    ensures NoDoubleSlash(Joined(st)) && (st != [] ==> Joined(st)[0] == '/' && Joined(st)[|Joined(st)| - 1] != '/')
    ensures st == [] <==> Joined(st) == ""
  {
    if st != [] {
      var n := |st| - 1;
      JoinedShape(st[..n]);
      var a, c := Joined(st[..n]), st[n];
      var s := a + "/" + c;
      forall i | 0 <= i < |s| - 1
        ensures !(s[i] == '/' && s[i + 1] == '/')
      {
        if i >= |a| {
          assert s[i + 1] == c[i - |a|];
        }
      }
      assert s[|s| - 1] == c[|c| - 1];
    }
  }

  /** The normal form starts with '/', has no "//", does not end in '/' unless it is "/", and none of
      its components is "." or "..". */
  lemma WashIsClean(p: string)
    ensures var w := Wash(p);
            w != "" && w[0] == '/' && NoDoubleSlash(w) && (w != "/" ==> w[|w| - 1] != '/') &&
            forall c :: c in Comps(w) ==> c != "." && c != ".." && c != ""
  {
    WashComps(p);
    JoinedShape(Norm([], Comps(p)));
  }

  /** Normalising twice is normalising once. */
  lemma WashIdempotent(p: string)
    ensures Wash(Wash(p)) == Wash(p)
  {
    WashComps(p);
    PlainIsFixed(Norm([], Comps(p)));
  }

  lemma PlainIsFixed(st: seq<string>)
    requires AllPlain(st)
    ensures Norm([], st) == st
  {
    NormPlain([], st);
    assert [] + st == st;
  }

  /** A relative path is walked from where the current directory's components end. */
  lemma WashRelative(cwd: string, rel: string)
    ensures Wash(cwd + "/" + rel) == Render(Norm(Norm([], Comps(cwd)), Comps(rel)))
    ensures Wash(cwd + "/" + rel) == Wash(Wash(cwd) + "/" + rel)
  {
    WalkFrom(cwd, rel);
    WalkFrom(Wash(cwd), rel);
    WashComps(cwd);
    PlainIsFixed(Norm([], Comps(cwd)));
  }

  lemma WalkFrom(a: string, rel: string)
    ensures Wash(a + "/" + rel) == Render(Norm(Norm([], Comps(a)), Comps(rel)))
  {
    RelativeComps(a, rel);
    NormConcat([], Comps(a), Comps(rel));
  }

  lemma RelativeComps(a: string, rel: string)
    ensures Comps(a + "/" + rel) == Comps(a) + Comps(rel)
  {
    CompsConcat(a, "/" + rel);
    assert a + ("/" + rel) == a + "/" + rel;
    assert ("/" + rel)[1..] == rel;
  }

  // ------------------------------------------------------------------- length

  function Weight(cs: seq<string>): nat {
    if cs == [] then 0 else Weight(cs[..|cs| - 1]) + 1 + |cs[|cs| - 1]|
  }

  lemma {:induction false} JoinedLength(st: seq<string>)
    ensures |Joined(st)| == Weight(st)
  {
    if st != [] {
      JoinedLength(st[..|st| - 1]);
    }
  }

  lemma {:induction false} WeightCons(c: string, cs: seq<string>)
    ensures Weight([c] + cs) == 1 + |c| + Weight(cs)
  {
    if cs == [] {
      assert [c] + cs == [c];
      assert [c][..0] == [];
    } else {
      var n := |cs| - 1;
      assert ([c] + cs)[..|cs|] == [c] + cs[..n];
      WeightCons(c, cs[..n]);
    }
  }

  lemma PushWeight(st: seq<string>, c: string)
    ensures Weight(Push(st, c)) <= Weight(st) + 1 + |c|
  {
    if c != ".." && c != "." {
      assert (st + [c])[..|st|] == st;
    }
  }

  lemma {:induction false} NormWeight(st: seq<string>, cs: seq<string>)
    ensures Weight(Norm(st, cs)) <= Weight(st) + Weight(cs)
    decreases |cs|
  {
    if cs != [] {
      NormWeight(Push(st, cs[0]), cs[1..]);
      PushWeight(st, cs[0]);
      WeightCons(cs[0], cs[1..]);
      assert [cs[0]] + cs[1..] == cs;
    }
  }

  /** Every component of an absolute path has a slash of its own in front. */
  lemma {:induction false} CompsWeight(s: string)
    ensures Weight(Comps(s)) <= |s| + if s != "" && s[0] != '/' then 1 else 0
    decreases |s|
  {
    if s != "" {
      if s[0] == '/' {
        CompsWeight(s[1..]);
      } else {
        var n := |Word(s)|;
        CompsWeight(s[n..]);
        WeightCons(Word(s), Comps(s[n..]));
      }
    }
  }

  /** The normal form of an absolute path is never longer than the path. */
  lemma WashNotLonger(p: string)
    requires p != "" && p[0] == '/'
    ensures |Wash(p)| <= |p|
  {
    CompsWeight(p);
    NormWeight([], Comps(p));
    JoinedLength(Norm([], Comps(p)));
  }

  // ---------------------------------------------- what each component does to a path

  /** A clean path with its last component cut off; "/" stays. */
  function Up(w: string): string { if CutLast(w) == "" then "/" else CutLast(w) }

  /** The characters before the last '/'. */
  function CutLast(w: string): string {
    if w == "" then "" else if w[|w| - 1] == '/' then w[..|w| - 1] else CutLast(w[..|w| - 1])
  }

  /** A clean path with one more component. */
  function Below(w: string, c: string): string { if w == "/" then "/" + c else w + "/" + c }

  lemma {:induction false} CutSlash(a: string, c: string)
    requires HasNo(c, '/')
    ensures CutLast(a + "/" + c) == a
  {
    var w := a + "/" + c;
    if c == "" {
      assert w[..|w| - 1] == a;
    } else {
      assert w[|w| - 1] == c[|c| - 1];
      assert w[..|w| - 1] == a + "/" + c[..|c| - 1];
      CutSlash(a, c[..|c| - 1]);
    }
  }

  lemma RenderUp(st: seq<string>)
    requires AllComps(st)
    ensures Render(Push(st, "..")) == Up(Render(st))
  {
    if st != [] {
      CutSlash(Joined(st[..|st| - 1]), st[|st| - 1]);
      JoinedShape(st[..|st| - 1]);
    }
  }

  lemma RenderBelow(st: seq<string>, c: string)
    requires AllComps(st) && IsPlain(c)
    ensures Render(Push(st, c)) == Below(Render(st), c)
  {
    assert (st + [c])[..|st|] == st;
    JoinedShape(st);
    assert Joined([]) == "";
    assert "" + "/" + c == "/" + c;
  }

  lemma UpBelow(w: string, c: string)
    requires IsComp(c) && w != ""
    ensures Up(Below(w, c)) == w
  {
    CutSlash(if w == "/" then "" else w, c);
    assert "" + "/" + c == "/" + c;
  }

  lemma WashPush(p: string, c: string)
    requires IsComp(c)
    ensures Wash(p + "/" + c) == Render(Push(Norm([], Comps(p)), c)) && AllComps(Norm([], Comps(p)))
  {
    CompsSnoc(p, c);
    NormConcat([], Comps(p), [c]);
    WashComps(p);
    var st := Norm([], Comps(p));
    assert Norm(st, [c]) == Norm(Push(st, c), []);
  }

  /** What "/", "/.", "/.." and "/c" do at the end of any path; with the root, these determine every
      normal form. */
  lemma WashByComponent(p: string, c: string)
    requires IsPlain(c)
    ensures Wash("/") == "/" && Wash(p + "/") == Wash(p)
    ensures Wash(p + "/" + ".") == Wash(p)
    ensures Wash(p + "/" + "..") == Up(Wash(p))
    ensures Wash(p + "/" + c) == Below(Wash(p), c)
  {
    WashSlash("");
    WashSlash(p);
    WashPush(p, ".");
    WashPush(p, "..");
    WashPush(p, c);
    RenderUp(Norm([], Comps(p)));
    RenderBelow(Norm([], Comps(p)), c);
  }

  lemma WashSlash(p: string)
    ensures Wash(p + "/") == Wash(p) && Wash("") == "/" && "" + "/" == "/"
  {
    CompsConcat(p, "/");
    assert "/"[1..] == "";
    assert Comps("/") == [];
    assert Comps(p) + [] == Comps(p);
  }

  /** ".." undoes the component before it, and at the root it does nothing. */
  lemma UpUndoesDown(p: string, c: string)
    requires IsPlain(c)
    ensures Wash(p + "/" + c + "/" + "..") == Wash(p) && Wash("/..") == "/"
  {
    WashByComponent(p, c);
    WashByComponent(p + "/" + c, c);
    WashIsClean(p);
    UpBelow(Wash(p), c);
    WashByComponent("", c);
    WashSlash("");
    assert "" + "/" + ".." == "/..";
    assert CutLast("/") == "";
  }

  /** The four equations, of any reading `w` of paths. */
  ghost predicate ReadsByComponent(w: string -> string) {
    w("") == "/" && (forall p :: w(p + "/") == w(p)) && (forall p :: w(p + "/" + ".") == w(p)) &&
    (forall p :: w(p + "/" + "..") == Up(w(p))) &&
    forall p, c :: IsPlain(c) ==> w(p + "/" + c) == Below(w(p), c)
  }

  /** The normal form is the only reading of absolute paths that treats components this way. */
  lemma {:induction false} WashDetermined(w: string -> string, p: string)
    requires ReadsByComponent(w) && (p == "" || p[0] == '/')
    ensures w(p) == Wash(p)
    decreases |p|
  {
    if p == "" {
      WashSlash("");
    } else {
      var q, c := LastComponent(p);
      WashDetermined(w, q);
      WashSlash(q);
      if c == "" {
        assert q + "/" + c == q + "/";
      } else {
        WashByComponent(q, if IsPlain(c) then c else "a");
      }
    }
  }

  lemma {:induction false} LastComponent(p: string) returns (q: string, c: string)
    requires p != "" && p[0] == '/'
    ensures p == q + "/" + c && HasNo(c, '/') && (q == "" || q[0] == '/') && |q| < |p|
  {
    var n := |p| - 1;
    if p[n] == '/' {
      q, c := p[..n], "";
    } else {
      q, c := LastComponent(p[..n]);
      c := c + [p[n]];
    }
    assert p == q + "/" + c;
  }
}
