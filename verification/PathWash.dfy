/**
 wash_path and make_clear_abs_path of shell/buildin_cmd.c: the in-place edits of the result buffer,
 with path_parse, refine the normal form of the path.
 */
module PathWash {
  import opened Common
  import opened PathSpec
  import opened CStrings

  const PATH_LEN: nat := 512   // MAX_PATH_LEN

  /** The paths the code can take: name[] has room for every component. */
  predicate ShortComps(p: string) { forall c :: c in Comps(p) ==> |c| < NAME_LEN }

  datatype Cursor = Null | Rest(pos: nat)

  // --------------------------------------------------------------- path_parse

  lemma {:induction false} CompsAt(p: string, pos: nat, k: nat)
    requires pos <= k <= |p| && (forall j :: pos <= j < k ==> p[j] == '/') && (k < |p| ==> p[k] != '/')
    ensures k == |p| ==> Comps(p[pos..]) == []
    ensures k < |p| ==> var w := Word(p[k..]); w != "" && Comps(p[pos..]) == [w] + Comps(p[k + |w|..])
    decreases k - pos
  {
    if pos < k {
      assert p[pos..][1..] == p[pos + 1..];
      CompsAt(p, pos + 1, k);
    } else if k < |p| {
      var w := Word(p[k..]);
      assert p[k..][|w|..] == p[k + |w|..];
    }
  }

  method SkipSlashes(path: array<char>, pos: nat, ghost p: string) returns (k: nat)
    requires Holds(path, p) && pos <= |p|
    ensures pos + Lead(p, pos) <= k <= |p| && (forall j :: pos <= j < k ==> p[j] == '/') && (k < |p| ==> p[k] != '/')
  {
    k := pos;
    if path[k] == '/' {
      k := k + 1;
      while path[k] == '/'
        invariant pos < k <= |p| && forall j :: pos <= j < k ==> p[j] == '/'
        decreases |p| - k
      {
        k := k + 1;
      }
    }
  }

  function Lead(p: string, pos: nat): nat { if pos < |p| && p[pos] == '/' then 1 else 0 }

  /** Copies the characters up to the next '/' or the end. */
  method CopyWord(path: array<char>, k: nat, name: array<char>, ghost p: string) returns (i: nat)
    requires path != name && Holds(path, p) && k <= |p| && |Word(p[k..])| < NAME_LEN
    requires name.Length == NAME_LEN && forall j :: 0 <= j < NAME_LEN ==> name[j] == '\0'
    modifies name
    ensures i == k + |Word(p[k..])| && i <= |p| && Holds(name, Word(p[k..]))
  {
    ghost var w := Word(p[k..]);
    assert forall j :: 0 <= j < |w| ==> w[j] == p[k + j];
    i := k;
    var n := 0;
    while path[i] != '/' && path[i] != '\0'
      invariant i == k + n && n <= |w| && i <= |p| && Holds(path, p)
      invariant forall j :: 0 <= j < n ==> name[j] == w[j]
      invariant forall j :: n <= j < NAME_LEN ==> name[j] == '\0'
      decreases |p| - i
    {
      name[n] := path[i];
      n, i := n + 1, i + 1;
    }
  }

  /** The next component from `pos` on goes to the zeroed `name`; the rest of the path, or NULL at
      its end, is returned. */
  method PathParse(path: array<char>, pos: nat, name: array<char>, ghost p: string) returns (rest: Cursor, ghost w: string)
    requires path != name && Holds(path, p) && pos <= |p| && ShortComps(p[pos..])
    requires name.Length == NAME_LEN && forall i :: 0 <= i < NAME_LEN ==> name[i] == '\0'
    modifies name
    ensures Holds(name, w) && Parsed(w, p, pos, rest)
  {
    var k := SkipSlashes(path, pos, p);
    w := Word(p[k..]);
    ParsedAt(p, pos, k);
    var i := CopyWord(path, k, name, p);
    rest := if path[i] == '\0' then Null else Rest(i);
  }

  lemma ParsedAt(p: string, pos: nat, k: nat)
    requires pos + Lead(p, pos) <= k <= |p| && ShortComps(p[pos..])
    requires (forall j :: pos <= j < k ==> p[j] == '/') && (k < |p| ==> p[k] != '/')
    ensures var w := Word(p[k..]);
            |w| < NAME_LEN && k + |w| <= |p| && Parsed(w, p, pos, if k + |w| == |p| then Null else Rest(k + |w|))
  {
    WordAt(p, pos, k);
    assert Comps(p[|p|..]) == [];
  }

  lemma WordAt(p: string, pos: nat, k: nat)
    requires pos <= k <= |p| && (forall j :: pos <= j < k ==> p[j] == '/') && (k < |p| ==> p[k] != '/') && ShortComps(p[pos..])
    ensures var w := Word(p[k..]);
            |w| < NAME_LEN && (w == "" <==> k == |p|) && (w == "" ==> Comps(p[pos..]) == []) &&
            (k + |w| < |p| ==> p[k + |w|] == '/') &&
            (w != "" ==> IsComp(w) && Comps(p[pos..]) == [w] + Comps(p[k + |w|..]))
  {
    CompsAt(p, pos, k);
    if k < |p| {
      var w := Word(p[k..]);
      assert w in [w] + Comps(p[k + |w|..]);
      assert k + |w| < |p| ==> p[k..][|w|] == '/';
    }
  }

  /** `w` is the first component after `pos` ("" if there is none) and `rest` is behind it. */
  ghost predicate Parsed(w: string, p: string, pos: nat, rest: Cursor)
    requires pos <= |p|
  {
    (w == "" ==> Comps(p[pos..]) == [] && rest.Null?) && (w != "" ==> IsComp(w)) &&
    (rest.Rest? ==> pos + Lead(p, pos) + |w| <= rest.pos < |p| && p[rest.pos] == '/') &&
    (w != "" ==> pos + Lead(p, pos) + |w| <= |p| && Comps(p[pos..]) == [w] + Remaining(p, rest))
  }

  /** The components still to come. */
  ghost function Remaining(p: string, rest: Cursor): seq<string> {
    if rest.Rest? && rest.pos <= |p| then Comps(p[rest.pos..]) else []
  }

  // ---------------------------------------------------------- the three edits

  /** The last slash of a rendered stack is where its last component begins. */
  lemma RenderLastSlash(st: seq<string>)
    requires AllComps(st)
    ensures st == [] ==> LastAt(Render(st), '/', At(0))
    ensures st != [] ==> LastAt(Render(st), '/', At(|Joined(st[..|st| - 1])|))
  {
    if st != [] {
      var n := |st| - 1;
      var a, c := Joined(st[..n]), st[n];
      var s := a + "/" + c;
      assert Render(st) == s && s[|a|] == '/';
      forall i | |a| < i < |s|
        ensures s[i] != '/'
      {
        assert s[i] == c[i - |a| - 1];
      }
    }
  }

  lemma LastAtUnique(s: string, c: char, p: Place, q: Place)
    requires LastAt(s, c, p) && LastAt(s, c, q)
    ensures p == q
  {
  }

  /** "..": cut at the last slash, or right behind it if it is the first character. */
  method Ascend(out: array<char>, ghost st: seq<string>)
    requires AllComps(st) && Holds(out, Render(st)) && out.Length >= 2
    modifies out
    ensures Holds(out, Up(Render(st))) && Up(Render(st)) == Render(Push(st, ".."))
  {
    RenderUp(st);
    var slash := Strrchr(out, '/', Render(st));
    RenderLastSlash(st);
    LastAtUnique(Render(st), '/', slash, At(if st == [] then 0 else |Joined(st[..|st| - 1])|));
    if slash.i != 0 {
      out[slash.i] := '\0';
    } else {
      out[slash.i + 1] := '\0';
    }
    if |st| > 1 {
      var a := Joined(st[..|st| - 1]);
      JoinedShape(st[..|st| - 1]);
      assert forall i :: 0 <= i < |a| ==> a[i] == Render(st)[i];
    }
  }

  /** A plain component: "/" unless the buffer is just "/", then the name. */
  method Descend(out: array<char>, name: array<char>, ghost st: seq<string>, ghost c: string)
    requires out != name && AllComps(st) && Holds(out, Render(st)) && Holds(name, c) && IsPlain(c)
    requires Weight(st) + 1 + |c| < out.Length
    modifies out
    ensures Holds(out, Below(Render(st), c)) && Below(Render(st), c) == Render(Push(st, c))
  {
    var slash := Literal("/");
    var cmp := Strcmp(out, slash, Render(st), "/");
    RenderBelow(st, c);
    JoinedLength(st);
    if cmp != 0 {
      assert st != [];
      Strcat(out, slash, Render(st), "/");
      Strcat(out, name, Render(st) + "/", c);
    } else {
      RootOnly(st);
      Strcat(out, name, "/", c);
    }
  }

  lemma RootOnly(st: seq<string>)
    requires AllComps(st) && Render(st) == "/"
    ensures st == []
  {
    JoinedShape(st);
  }

  /** One round of the loop in wash_path. */
  method Apply(out: array<char>, name: array<char>, ghost st: seq<string>, ghost c: string)
    requires out != name && AllComps(st) && Holds(out, Render(st)) && Holds(name, c) && IsComp(c)
    requires Weight(st) + 1 + |c| < out.Length
    modifies out
    ensures Holds(out, Render(Push(st, c)))
  {
    var dots := Literal("..");
    var cmp := Strcmp(dots, name, "..", c);
    if cmp == 0 {
      Ascend(out, st);
    } else {
      var dot := Literal(".");
      cmp := Strcmp(dot, name, ".", c);
      if cmp != 0 {
        Descend(out, name, st, c);
      }
    }
  }

  // ---------------------------------------------------------------- wash_path

  lemma CompsTail(p: string, k: nat)
    requires k < |p| && p[k] == '/' && ShortComps(p)
    ensures ShortComps(p[k..])
  {
    assert p == p[..k] + p[k..];
    CompsConcat(p[..k], p[k..]);
  }

  lemma NormStep(st: seq<string>, c: string, rest: seq<string>)
    ensures Norm(st, [c] + rest) == Norm(Push(st, c), rest)
  {
    assert ([c] + rest)[1..] == rest;
  }

  /** The result buffer ends up with the normal form; it never needs more room than the path had. */
  method WashPath(path: array<char>, out: array<char>, ghost p: string)
    requires path != out && Holds(path, p) && p != "" && p[0] == '/' && ShortComps(p)
    requires out.Length > |p| && out.Length >= 2
    modifies out
    ensures Holds(out, Wash(p))
  {
    var name := new char[NAME_LEN](i => '\0');
    assert p[0..] == p;
    var sub, w := PathParse(path, 0, name, p);
    if name[0] == '\0' {
      out[0], out[1] := '/', '\0';
      return;
    }
    out[0] := '\0';
    var slash := Literal("/");
    Strcat(out, slash, "", "/");
    assert "" + "/" == "/";
    ghost var st: seq<string> := [];
    while name[0] != '\0'
      invariant Holds(path, p) && Holds(name, w) && Holds(out, Render(st)) && Progress(p, st, w, sub)
      decreases if sub.Rest? then |p| - sub.pos + 1 else 0, |w|
    {
      Apply(out, name, st, w);
      Clear(name);
      if sub.Rest? {
        CompsTail(p, sub.pos);
        ghost var c, pos := w, sub.pos;
        sub, w := PathParse(path, sub.pos, name, p);
        ProgressOn(p, st, c, pos, w, sub);
        st := Push(st, c);
      } else {
        ProgressEnd(p, st, w);
        st, w := Push(st, w), "";
      }
    }
  }

  /** What is on the stack, the component in hand and the rest of the path still make up the whole,
      and they fit in the room the path takes. */
  ghost predicate Progress(p: string, st: seq<string>, w: string, sub: Cursor) {
    AllComps(st) && (w != "" ==> IsComp(w)) && (w == "" ==> sub.Null?) &&
    Norm(st, (if w == "" then [] else [w]) + Remaining(p, sub)) == Norm([], Comps(p)) &&
    (sub.Rest? ==> sub.pos < |p| && p[sub.pos] == '/') &&
    Weight(st) + (if w == "" then 0 else 1 + |w|) <= if sub.Rest? then sub.pos else |p|
  }

  lemma ProgressOn(p: string, st: seq<string>, c: string, pos: nat, w: string, sub: Cursor)
    requires Progress(p, st, c, Rest(pos)) && c != "" && Parsed(w, p, pos, sub)
    ensures Progress(p, Push(st, c), w, sub)
  {
    assert Lead(p, pos) == 1 && Remaining(p, Rest(pos)) == Comps(p[pos..]);
    NormStep(st, c, Comps(p[pos..]));
    PushWeight(st, c);
    assert AllComps(Push(st, c));
    if w == "" {
      assert [] + Remaining(p, sub) == [];
    }
  }

  lemma ProgressEnd(p: string, st: seq<string>, c: string)
    requires Progress(p, st, c, Null) && c != ""
    ensures Progress(p, Push(st, c), "", Null)
  {
    NormStep(st, c, []);
    PushWeight(st, c);
  }

  /** getcwd's answer and a relative path, or an absolute path by itself. */
  function AbsPath(cwd: string, path: string): string {
    if path != "" && path[0] == '/' then path
    else if cwd == "/" then cwd + path
    else cwd + "/" + path
  }

  /** make_clear_abs_path, with the current directory as getcwd reports it, or null if it fails: then
      a relative path stays one, and the assertion of wash_path stops the call. */
  method MakeClearAbsPath(path: array<char>, cwd: array?<char>, final: array<char>, ghost p: string, ghost d: string)
    returns (ok: bool)
    requires Holds(path, p) && final != path && final != cwd && final.Length == PATH_LEN
    requires cwd != null ==> Holds(cwd, d) && d != "" && d[0] == '/'
    requires cwd != null || IsAbs(p) ==> ShortComps(AbsPath(d, p)) && |AbsPath(d, p)| < PATH_LEN
    requires |p| < PATH_LEN
    modifies final
    ensures ok <==> cwd != null || IsAbs(p)
    ensures if ok then Holds(final, Wash(AbsPath(d, p))) else final[..] == old(final[..])
  {
    var abs := new char[PATH_LEN](i => '\0');
    ghost var a := "";
    if path[0] != '/' && cwd != null {
      a := Strcwd(abs, cwd, d);
    }
    Strcat(abs, path, a, p);
    assert "" + p == p;
    if abs[0] != '/' {
      return false;
    }
    WashPath(abs, final, a + p);
    return true;
  }

  predicate IsAbs(p: string) { p != "" && p[0] == '/' }

  /** The current directory with one slash behind it. */
  method Strcwd(abs: array<char>, cwd: array<char>, ghost d: string) returns (ghost a: string)
    requires abs != cwd && Holds(cwd, d) && d != "" && d[0] == '/' && abs.Length > |d| + 1
    modifies abs
    ensures a == (if d == "/" then d else d + "/") && Holds(abs, a)
  {
    a := d;
    Strcpy(abs, cwd, d);
    if !(abs[0] == '/' && abs[1] == '\0') {
      var slash := Literal("/");
      Strcat(abs, slash, d, "/");
      a := d + "/";
    }
  }

  /** A relative path is resolved from the current directory, an absolute one ignores it. */
  lemma ClearPathMeaning(cwd: string, path: string)
    requires cwd != "" && cwd[0] == '/'
    ensures Wash(AbsPath(cwd, path)) ==
              if path != "" && path[0] == '/' then Wash(path) else Render(Norm(Norm([], Comps(cwd)), Comps(path)))
  {
    if path == "" || path[0] != '/' {
      if cwd == "/" {
        assert (cwd + path)[1..] == path;
        assert Comps("/") == [] by { assert "/"[1..] == ""; }
      } else {
        WashRelative(cwd, path);
      }
    }
  }
}
