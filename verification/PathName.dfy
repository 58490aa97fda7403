/** `nameclean` of src/fs/name.c:50-89: path names are cleaned in place by a backward scan.  The
  specification keeps a stack of components. */
module PathName {
  import opened Basics

  // ------------------------------------------------------------ the specification

  /** The length of the first component. */
  function Span(s: string): (n: nat)
    ensures n <= |s| && '/' !in s[..n] && (n < |s| ==> s[n] == '/')
  {
    if s == "" || s[0] == '/' then 0 else
    var n := 1 + Span(s[1..]);
    assert s[..n] == [s[0]] + s[1..][..n - 1];
    n
  }

  predicate Name(c: string) {
    c != "" && c != "." && c != ".." && '/' !in c && NUL !in c
  }

  ghost predicate Names(st: seq<string>) {
    forall i :: 0 <= i < |st| ==> Name(st[i])
  }

  /** One component: empty and "." are dropped, ".." pops, and the root absorbs it. */
  function Apply(st: seq<string>, c: string): seq<string> {
    if c == "" || c == "." then st
    else if c == ".." then if st == [] then [] else st[..|st| - 1]
    else st + [c]
  }

  /** The components as a directory name. */
  function Render(st: seq<string>): (r: string)
    ensures |r| >= 1 && r[0] == '/' && r[|r| - 1] == '/'
  {
    if st == [] then "/" else Render(st[..|st| - 1]) + (st[|st| - 1] + "/")
  }

  /** The rest of a path, resolved against a stack; a last component without a slash keeps none. */
  function Resolve(st: seq<string>, s: string): string
    decreases |s|
  {
    var n := Span(s);
    if n < |s| then Resolve(Apply(st, s[..n]), s[n + 1..])
    else if s == "" || s == "." || s == ".." then Render(Apply(st, s))
    else Render(st) + s
  }

  function Clean(name: string): string
    requires name != ""
  {
    Resolve([], name[1..])
  }

  // ------------------------------------------------------------ what a cleaned name is

  ghost predicate Spells(s: string, st: seq<string>, last: string) {
    Names(st) && (last == "" || Name(last)) && s == Render(st) + last
  }

  /** Absolute, and made of proper components only. */
  ghost predicate Canonical(s: string) {
    exists st, last :: Spells(s, st, last)
  }

  predicate EndsInSlash(s: string) {
    s != "" && s[|s| - 1] == '/'
  }

  lemma SlashMeansNoLast(s: string, st: seq<string>, last: string)
    requires Spells(s, st, last)
    ensures EndsInSlash(s) <==> last == ""
  {
    if last != "" {
      assert s[|s| - 1] == last[|last| - 1];
      assert last[|last| - 1] in last;
    }
  }

  lemma {:induction false} ResolveIsCanonical(st: seq<string>, s: string)
    requires Names(st) && CString(s)
    ensures Canonical(Resolve(st, s))
    decreases |s|
  {
    var n := Span(s);
    assert s[..n] + s[n..] == s;
    if n < |s| {
      ApplyNames(st, s[..n]);
      ResolveIsCanonical(Apply(st, s[..n]), s[n + 1..]);
    } else if s == "" || s == "." || s == ".." {
      ApplyNames(st, s);
      WitnessCanonical(Apply(st, s), "");
      assert Resolve(st, s) == Render(Apply(st, s)) + "";
    } else {
      assert s[..n] == s;
      WitnessCanonical(st, s);
    }
  }

  lemma WitnessCanonical(st: seq<string>, last: string)
    requires Names(st) && (last == "" || Name(last))
    ensures Canonical(Render(st) + last)
  {
    assert Spells(Render(st) + last, st, last);
  }

  /** A component that may be empty, as two slashes in a row leave one. */
  predicate Part(c: string) {
    c == "" || Name(c)
  }

  ghost predicate Parts(st: seq<string>) {
    forall i :: 0 <= i < |st| ==> Part(st[i])
  }

  lemma ApplyParts(st: seq<string>, c: string)
    requires Parts(st) && '/' !in c && CString(c)
    ensures Parts(Apply(st, c))
  {
  }

  lemma ApplyNames(st: seq<string>, c: string)
    requires Names(st) && '/' !in c && CString(c)
    ensures Names(Apply(st, c))
  {
  }

  lemma {:induction false} SpanUnique(s: string, n: nat)
    requires n <= |s| && '/' !in s[..n] && (n < |s| ==> s[n] == '/')
    ensures Span(s) == n
  {
    if n > 0 {
      assert s[0] == s[..n][0];
      assert s[1..][..n - 1] == s[..n][1..];
      SpanUnique(s[1..], n - 1);
    }
  }

  lemma SpanIs(c: string, s: string)
    requires '/' !in c
    ensures Span(c + "/" + s) == |c| && (c + "/" + s)[..|c|] == c && (c + "/" + s)[|c| + 1..] == s
    ensures Span(c) == |c|
  {
    var t := c + "/" + s;
    assert t[..|c|] == c && t[|c| + 1..] == s;
    SpanUnique(t, |c|);
    assert c[..|c|] == c;
    SpanUnique(c, |c|);
  }

  lemma ResolveName(st: seq<string>, c: string, s: string)
    requires Name(c)
    ensures Resolve(st, c + "/" + s) == Resolve(st + [c], s)
  {
    SpanIs(c, s);
  }

  /** Resolving a rendered directory name gives its components back. */
  lemma {:induction false} ResolveRender(st: seq<string>, s: string)
    requires Names(st)
    ensures Resolve([], (Render(st) + s)[1..]) == Resolve(st, s)
    decreases |st|
  {
    hide Resolve;
    if st == [] {
      assert ("/" + s)[1..] == s;
    } else {
      var front, c := st[..|st| - 1], st[|st| - 1];
      Regroup(Render(front), c + "/", s);
      ResolveRender(front, c + "/" + s);
      assert Name(c);
      ResolveName(front, c, s);
      assert front + [c] == st;
    }
  }

  /** A canonical name is clean already. */
  lemma CanonicalIsFixed(s: string)
    requires Canonical(s)
    ensures s != "" && Clean(s) == s
  {
    var st, last :| Spells(s, st, last);
    ResolveRender(st, last);
    if last != "" {
      SpanIs(last, "");
    }
  }

  /** Cleaning leaves no empty, "." or ".." component, and cleaning again changes nothing. */
  lemma CleanTwice(name: string)
    requires name != "" && CString(name)
    ensures Canonical(Clean(name)) && Clean(name) != "" && Clean(Clean(name)) == Clean(name)
  {
    ResolveIsCanonical([], name[1..]);
    CanonicalIsFixed(Clean(name));
  }

  // ------------------------------------------------------------ the scan over the buffer

  /** Where the write position goes on "..", `i` being where the backward scan stands. */
  function ScanBack(buf: string, i: int): int
    requires i < |buf|
    decreases i
  {
    if i > 0 && buf[i] != '/' then ScanBack(buf, i - 1) else if i + 1 <= 0 then i + 2 else i + 1
  }

  /** What one turn of the loop does with a component: the text, its slash if it has one, and the buffer. */
  function Turn(buf: string, c: string, slash: string): (r: string)
    requires buf != ""
    ensures r != ""
  {
    if c == "" || c == "." then buf
    else if c == ".." then BackRange(buf); buf[..ScanBack(buf, |buf| - 2)]
    else buf + c + slash
  }

  lemma BackRange(buf: string)
    requires buf != ""
    ensures 1 <= ScanBack(buf, |buf| - 2) <= |buf|
  {
    if |buf| > 1 { BackFrom(buf, |buf| - 2); }
  }

  lemma {:induction false} BackFrom(buf: string, i: int)
    requires 0 <= i < |buf|
    ensures 1 <= ScanBack(buf, i) <= i + 1
    decreases i
  {
    if i > 0 { BackFrom(buf, i - 1); }
  }

  /** The loop of `nameclean` from a buffer that holds `buf`, with `s` still to be read. */
  function Scan(buf: string, s: string): (r: string)
    requires buf != ""
    decreases |s|
  {
    var n := Span(s);
    if n < |s| then Scan(Turn(buf, s[..n], "/"), s[n + 1..]) else Turn(buf, s, "")
  }

  function Cleaned(name: string, cwd: string): string {
    if Ch(name, 0) == '/' then Scan("/", name[1..]) else Scan(cwd + "/", name)
  }

  lemma {:induction false} BackOver(buf: string, c: string, i: nat)
    requires '/' !in c && i <= |c| && buf != "" && buf[|buf| - 1] == '/'
    ensures ScanBack(buf + (c + "/"), |buf| + i - 1) == |buf|
    decreases i
  {
    var t := buf + (c + "/");
    if i > 0 {
      assert t[|buf| + i - 1] == c[i - 1];
      BackOver(buf, c, i - 1);
    } else {
      assert t[|buf| - 1] == '/';
    }
  }

  lemma PopText(text: string, c: string, buf: string)
    requires '/' !in c && text != "" && text[|text| - 1] == '/' && buf == text + (c + "/")
    ensures Turn(buf, "..", "/") == text
  {
    hide ScanBack;
    BackOver(text, c, |c|);
    assert |buf| - 2 == |text| + |c| - 1;
    assert buf[..|text|] == text;
  }

  lemma PopTurn(st: seq<string>)
    requires Parts(st) && st != []
    ensures Turn(Render(st), "..", "/") == Render(st[..|st| - 1])
  {
    hide Turn;
    var front, last := st[..|st| - 1], st[|st| - 1];
    assert Part(last);
    PopText(Render(front), last, Render(st));
  }

  /** On the rendering of a stack, one turn is one step of the specification; an empty component is popped like any
      other. */
  lemma TurnApplies(st: seq<string>, c: string)
    requires Parts(st) && '/' !in c
    ensures Turn(Render(st), c, "/") == Render(Apply(st, c))
  {
    if c == ".." && st != [] {
      PopTurn(st);
    } else if c != "" && c != "." && c != ".." {
      assert (st + [c])[..|st|] == st;
    }
  }

  lemma LastTurn(st: seq<string>, s: string)
    requires Parts(st) && '/' !in s
    ensures Turn(Render(st), s, "") == if s == "" || s == "." || s == ".." then Render(Apply(st, s)) else Render(st) + s
  {
    if s == "" || s == "." || s == ".." {
      TurnApplies(st, s);
    } else {
      assert Render(st) + s + "" == Render(st) + s;
    }
  }

  /** The backward scan refines the component stack. */
  lemma {:induction false} ScanResolves(st: seq<string>, s: string)
    requires Parts(st) && CString(s)
    ensures Scan(Render(st), s) == Resolve(st, s)
    decreases |s|
  {
    hide Turn, Apply, Render, Parts;
    var n := Span(s);
    assert s[..n] + s[n..] == s;
    if n < |s| {
      TurnApplies(st, s[..n]);
      ApplyParts(st, s[..n]);
      ScanResolves(Apply(st, s[..n]), s[n + 1..]);
    } else {
      assert s[..n] == s;
      LastTurn(st, s);
    }
  }

  /** Absolute names are cleaned as the specification says. */
  lemma AbsoluteIsClean(name: string, cwd: string)
    requires CString(name) && Ch(name, 0) == '/'
    ensures Cleaned(name, cwd) == Clean(name)
  {
    ScanResolves([], name[1..]);
  }

  // ------------------------------------------------------------ relative names

  predicate Absolute(s: string) {
    CString(s) && s != "" && s[0] == '/'
  }

  /** The components of a text, empty ones included. */
  function Comps(s: string): (st: seq<string>)
    ensures st != []
    decreases |s|
  {
    var n := Span(s);
    if n < |s| then [s[..n]] + Comps(s[n + 1..]) else [s]
  }

  /** The components of a directory name. */
  function Dirs(cwd: string): seq<string> {
    if cwd == "" then [] else Comps(cwd[1..])
  }

  lemma {:induction false} RenderMore(st: seq<string>, s: string)
    ensures Render(st + Comps(s)) == Render(st) + (s + "/")
    decreases |s|
  {
    hide Render;
    var n := Span(s);
    RenderPush(st, s[..n]);
    if n < |s| {
      RenderMore(st + [s[..n]], s[n + 1..]);
      Regroup(st, [s[..n]], Comps(s[n + 1..]));
      Regroup(Render(st), s[..n] + "/", s[n + 1..] + "/");
      Rejoin(s, n);
    } else {
      assert s[..n] == s;
    }
  }

  lemma Rejoin(s: string, n: nat)
    requires n < |s| && s[n] == '/'
    ensures s[..n] + "/" + (s[n + 1..] + "/") == s + "/"
  {
  }

  lemma RenderPush(st: seq<string>, c: string)
    ensures Render(st + [c]) == Render(st) + (c + "/")
  {
    assert (st + [c])[..|st|] == st;
  }

  lemma RenderDirs(cwd: string)
    requires Absolute(cwd)
    ensures Render(Dirs(cwd)) == cwd + "/"
  {
    RenderMore([], cwd[1..]);
    assert [] + Comps(cwd[1..]) == Comps(cwd[1..]);
    assert "/" + (cwd[1..] + "/") == cwd + "/";
  }

  /** A directory name without "." and ".." among its components: what a process can have. */
  ghost predicate Directory(cwd: string) {
    Absolute(cwd) && Parts(Dirs(cwd))
  }

  /** Relative names are resolved against the components of the working directory as they stand: an empty one counts as
      a directory of its own. */
  lemma RelativeResolves(name: string, cwd: string)
    requires CString(name) && Ch(name, 0) != '/' && Directory(cwd)
    ensures Cleaned(name, cwd) == Resolve(Dirs(cwd), name)
  {
    RenderDirs(cwd);
    ScanResolves(Dirs(cwd), name);
  }

  lemma RelativeIsClean(name: string, cwd: string)
    requires CString(name) && Ch(name, 0) != '/' && Canonical(cwd) && !EndsInSlash(cwd)
    ensures Cleaned(name, cwd) == Clean(cwd + "/" + name)
  {
    var st, last :| Spells(cwd, st, last);
    SlashMeansNoLast(cwd, st, last);
    var all := st + [last];
    assert all[..|st|] == st;
    assert cwd + "/" == Render(all);
    ScanResolves(all, name);
    ResolveRender(all, name);
    assert Render(all) + name == cwd + "/" + name;
  }

  /** The exact condition on the working directory: relative names are resolved as the specification says, all of
      them, iff it is canonical and does not end in a slash; otherwise an empty component stays in the result. */
  lemma RelativeIff(cwd: string)
    requires Absolute(cwd)
    ensures Canonical(cwd) && !EndsInSlash(cwd) <==>
              forall name :: CString(name) && Ch(name, 0) != '/' ==> Cleaned(name, cwd) == Clean(cwd + "/" + name)
  {
    if Canonical(cwd) && !EndsInSlash(cwd) {
      forall name | CString(name) && Ch(name, 0) != '/' ensures Cleaned(name, cwd) == Clean(cwd + "/" + name) {
        RelativeIsClean(name, cwd);
      }
    } else {
      XStays(cwd);
      assert CString("x") && Ch("x", 0) != '/';
    }
  }

  /** The name "x" shows it: the code appends, and a result of the specification is canonical. */
  lemma XStays(cwd: string)
    requires Absolute(cwd)
    ensures Cleaned("x", cwd) == cwd + "/" + "x"
    ensures Cleaned("x", cwd) == Clean(cwd + "/" + "x") ==> Canonical(cwd) && !EndsInSlash(cwd)
  {
    SpanUnique("x", 1);
    assert Cleaned("x", cwd) == cwd + "/" + "x" + "";
    var s := cwd + "/" + "x";
    ResolveIsCanonical([], s[1..]);
    if s == Clean(s) {
      var st, last :| Spells(s, st, last);
      LastIsX(cwd, st, last);
    }
  }

  lemma LastIsX(cwd: string, st: seq<string>, last: string)
    requires Absolute(cwd) && Spells(cwd + "/" + "x", st, last)
    ensures Canonical(cwd) && !EndsInSlash(cwd)
  {
    var s := cwd + "/" + "x";
    SlashMeansNoLast(s, st, last);
    assert s[|s| - 2] == '/' && s[|s| - 1] == 'x';
    assert forall j :: 0 <= j < |last| ==> last[j] == s[|s| - |last| + j] && last[j] in last;
    assert |last| == 1;
    assert Render(st) == s[..|s| - 1] == cwd + "/";
    WithoutSlash(cwd, st);
  }

  lemma WithoutSlash(cwd: string, st: seq<string>)
    requires Absolute(cwd) && Render(st) == cwd + "/" && Names(st)
    ensures Canonical(cwd) && !EndsInSlash(cwd)
  {
    assert st == [] ==> |Render(st)| == 1;
    var front, c := st[..|st| - 1], st[|st| - 1];
    assert Name(c);
    assert Render(st) == Render(front) + (c + "/");
    BeforeSlash(cwd, Render(front), c);
    assert Spells(cwd, front, c);
    SlashMeansNoLast(cwd, front, c);
  }

  lemma BeforeSlash(s: string, front: string, last: string)
    requires s + "/" == front + (last + "/")
    ensures s == front + last
  {
    assert s == (s + "/")[..|s|];
    assert front + last == (front + (last + "/"))[..|front| + |last|];
  }

  // ------------------------------------------------------------ runs of chdir

  /** `vfschdir` stores what `nameclean` gives, whatever is there. */
  function Chdirs(cwd: string, names: seq<string>): string
    decreases |names|
  {
    if names == [] then cwd else Chdirs(Cleaned(names[0], cwd), names[1..])
  }

  /** The directory that a name with empty components names: they add nothing. */
  function Real(st: seq<string>): seq<string> {
    if st == [] then [] else Real(st[..|st| - 1]) + if st[|st| - 1] == "" then [] else [st[|st| - 1]]
  }

  function Where(cwd: string): seq<string> {
    Real(Dirs(cwd))
  }

  /** Where a name leads from a directory. */
  function Goto(dir: seq<string>, s: string): seq<string>
    decreases |s|
  {
    var n := Span(s);
    if n < |s| then Goto(Apply(dir, s[..n]), s[n + 1..]) else Apply(dir, s)
  }

  function GotoName(dir: seq<string>, name: string): seq<string> {
    if Ch(name, 0) == '/' then Goto([], name[1..]) else Goto(dir, name)
  }

  /** No component of the name climbs. */
  predicate NoClimb(s: string) {
    ".." !in Comps(s)
  }

  lemma RealPush(st: seq<string>, c: string)
    ensures Real(st + [c]) == Real(st) + if c == "" then [] else [c]
  {
    assert (st + [c])[..|st|] == st;
  }

  lemma {:induction false} RealNames(st: seq<string>)
    requires Names(st)
    ensures Real(st) == st
  {
    if st != [] {
      RealNames(st[..|st| - 1]);
      assert Name(st[|st| - 1]);
    }
  }

  /** The components of a rendered stack with a last component behind it. */
  lemma {:induction false} CompsRender(st: seq<string>, s: string)
    requires Parts(st)
    ensures Comps((Render(st) + s)[1..]) == st + Comps(s)
    decreases |st|
  {
    hide Comps;
    if st == [] {
      assert ("/" + s)[1..] == s && [] + Comps(s) == Comps(s);
    } else {
      var front, c := st[..|st| - 1], st[|st| - 1];
      Regroup(Render(front), c + "/", s);
      CompsRender(front, c + "/" + s);
      assert Part(c);
      CompsFirst(c, s);
      Regroup(front, [c], Comps(s));
      assert front + [c] == st;
    }
  }

  lemma CompsFirst(c: string, s: string)
    requires '/' !in c
    ensures Comps(c + "/" + s) == [c] + Comps(s)
  {
    SpanIs(c, s);
  }

  lemma OneComp(c: string)
    requires '/' !in c
    ensures Comps(c) == [c]
  {
    SpanIs(c, "");
  }

  /** The name that a resolution ends with, as components. */
  lemma DirsOf(st: seq<string>, last: string)
    requires Parts(st) && Part(last)
    ensures Dirs(Render(st) + last) == st + [last] && Directory(Render(st) + last)
    ensures Where(Render(st) + last) == Real(st) + if last == "" then [] else [last]
  {
    CompsRender(st, last);
    OneComp(last);
    RealPush(st, last);
    RenderIsCString(st);
  }

  lemma {:induction false} RenderIsCString(st: seq<string>)
    requires Parts(st)
    ensures CString(Render(st))
  {
    if st != [] {
      RenderIsCString(st[..|st| - 1]);
      assert Part(st[|st| - 1]);
    }
  }

  /** Resolving keeps directories directories; if nothing climbs, or no component is empty, it leads where it should. */
  lemma {:induction false} ResolveGoes(st: seq<string>, s: string)
    requires Parts(st) && CString(s)
    ensures Directory(Resolve(st, s))
    ensures NoClimb(s) || Names(st) ==> Where(Resolve(st, s)) == Goto(Real(st), s)
    decreases |s|
  {
    hide Where, Directory, Real, Render;
    var n := Span(s);
    assert s[..n] + s[n..] == s;
    var c := s[..n];
    ApplyParts(st, c);
    if Names(st) { ApplyNames(st, c); }
    if c != ".." || Names(st) { RealApply(st, c); }
    if n < |s| {
      ResolveGoes(Apply(st, c), s[n + 1..]);
      assert NoClimb(s) ==> c != ".." && NoClimb(s[n + 1..]);
    } else {
      assert c == s;
      if s == "" || s == "." || s == ".." {
        DirsOf(Apply(st, s), "");
        assert Render(Apply(st, s)) + "" == Render(Apply(st, s));
        assert Real(Apply(st, s)) + [] == Real(Apply(st, s));
      } else {
        DirsOf(st, s);
      }
    }
  }

  lemma RealApply(st: seq<string>, c: string)
    requires c != ".." || Names(st)
    ensures Real(Apply(st, c)) == Apply(Real(st), c)
  {
    if c == ".." {
      RealNames(st);
      RealNames(Apply(st, c));
    } else if c != "" && c != "." {
      RealPush(st, c);
    }
  }

  /** One chdir from a directory: an absolute name, or a relative one that does not climb, leads where it should. */
  lemma ChdirGoes(cwd: string, name: string)
    requires Directory(cwd) && CString(name)
    ensures Directory(Cleaned(name, cwd))
    ensures Ch(name, 0) == '/' || NoClimb(name) ==> Where(Cleaned(name, cwd)) == GotoName(Where(cwd), name)
  {
    hide Directory, Cleaned;
    if Ch(name, 0) == '/' {
      AbsoluteIsClean(name, cwd);
      ResolveGoes([], name[1..]);
    } else {
      RelativeResolves(name, cwd);
      DirectoryParts(cwd);
      ResolveGoes(Dirs(cwd), name);
    }
  }

  lemma DirectoryParts(cwd: string)
    requires Directory(cwd)
    ensures Parts(Dirs(cwd))
  {
  }

  function GotoAll(dir: seq<string>, names: seq<string>): seq<string>
    decreases |names|
  {
    if names == [] then dir else GotoAll(GotoName(dir, names[0]), names[1..])
  }

  /** Any run of chdir leaves a directory name without "." and "..", and if its relative names do not climb, the
      directory it should. */
  lemma {:induction false} ChdirsGo(cwd: string, names: seq<string>)
    requires Directory(cwd) && forall i :: 0 <= i < |names| ==> CString(names[i])
    ensures Directory(Chdirs(cwd, names))
    ensures (forall i :: 0 <= i < |names| ==> Ch(names[i], 0) == '/' || NoClimb(names[i])) ==>
              Where(Chdirs(cwd, names)) == GotoAll(Where(cwd), names)
    decreases |names|
  {
    hide Directory, Cleaned, Where, NoClimb, GotoName;
    if names != [] {
      ChdirGoes(cwd, names[0]);
      ChdirsGo(Cleaned(names[0], cwd), names[1..]);
    }
  }

  /** Climbing pops the empty component behind a last slash instead of a directory: ".." leads to the parent iff the
      working directory does not end in a slash, or is the root anyway. */
  lemma ParentIff(cwd: string)
    requires Directory(cwd)
    ensures Where(Cleaned("..", cwd)) == Goto(Where(cwd), "..") <==> !EndsInSlash(cwd) || Where(cwd) == []
  {
    hide Cleaned, Render, Comps, Real, Resolve;
    var st := Dirs(cwd);
    HasDirs(cwd);
    var front, last := st[..|st| - 1], st[|st| - 1];
    RelativeResolves("..", cwd);
    ResolveUp(st);
    DirsOf(front, "");
    assert Render(front) + "" == Render(front);
    RealPush(front, last);
    assert st == front + [last];
    LastDir(cwd);
    GotoUp(Where(cwd));
    assert Real(front) + [] == Real(front) && (Real(front) + [last])[..|Real(front)|] == Real(front);
  }

  lemma HasDirs(cwd: string)
    requires Absolute(cwd)
    ensures Dirs(cwd) != []
  {
  }

  lemma ResolveUp(st: seq<string>)
    requires st != []
    ensures Resolve(st, "..") == Render(st[..|st| - 1])
  {
    SpanUnique("..", 2);
  }

  lemma GotoUp(dir: seq<string>)
    ensures Goto(dir, "..") == if dir == [] then [] else dir[..|dir| - 1]
  {
    SpanUnique("..", 2);
  }

  lemma LastDir(cwd: string)
    requires Absolute(cwd)
    ensures EndsInSlash(cwd) <==> Dirs(cwd)[|Dirs(cwd)| - 1] == ""
  {
    RenderDirs(cwd);
    var st := Dirs(cwd);
    var front, last := st[..|st| - 1], st[|st| - 1];
    assert cwd + "/" == Render(front) + (last + "/");
    BeforeSlash(cwd, Render(front), last);
    CompsNoSlash(cwd[1..]);
  }

  lemma {:induction false} CompsNoSlash(s: string)
    ensures forall i :: 0 <= i < |Comps(s)| ==> '/' !in Comps(s)[i]
    decreases |s|
  {
    var n := Span(s);
    if n < |s| {
      CompsNoSlash(s[n + 1..]);
    } else {
      assert s[..n] == s;
    }
  }

  /** From the root, where every process starts: "x" leaves "//x", behind which relative names are misspelled. */
  lemma FromTheRoot()
    ensures Directory("/") && Chdirs("/", ["x"]) == "//x" && !Canonical("//x") && !EndsInSlash("//x")
  {
    OneComp("");
    assert "/"[1..] == "" && Comps("") == [""];
    assert Parts([""]);
    XStays("/");
    assert Chdirs("/", ["x"]) == Chdirs(Cleaned("x", "/"), []) == "//x";
    SpanUnique("/x", 0);
    SpanUnique("x", 1);
    assert "//x"[1..] == "/x" && "/x"[1..] == "x" && "/x"[..0] == "";
    assert Clean("//x") == Resolve([], "x") == "/x";
    if Canonical("//x") {
      CanonicalIsFixed("//x");
    }
  }

  // ------------------------------------------------------------ the buffer itself

  /** Skip a component and its slash without writing. */
  method Skip(name: string, at: nat) returns (next: nat)
    requires at <= |name| && CString(name)
    ensures next == After(name, at)
  {
    next := at;
    while Ch(name, next) != NUL && Ch(name, next) != '/'
      invariant at <= next <= |name| && '/' !in name[at..next]
      decreases |name| - next
    {
      next := next + 1;
    }
    SpanUnique(name[at..], next - at);
    if Ch(name, next) != NUL {
      next := next + 1;
    }
  }

  /** Where the component at `at` ends, and where the next one begins. */
  function End(name: string, at: nat): (n: nat)
    requires at <= |name|
    ensures at <= n <= |name|
  {
    at + Span(name[at..])
  }

  function After(name: string, at: nat): (n: nat)
    requires at <= |name|
    ensures at <= n <= |name| && (at < |name| ==> at < n)
  {
    if End(name, at) < |name| then End(name, at) + 1 else |name|
  }

  function Comp(name: string, at: nat): string
    requires at <= |name|
  {
    name[at..End(name, at)]
  }

  /** One turn of the loop, at index `at` of the name. */
  lemma OneTurn(buf: string, name: string, at: nat)
    requires at < |name| && buf != ""
    ensures Scan(buf, name[at..])
            == Scan(Turn(buf, Comp(name, at), name[End(name, at)..After(name, at)]), name[After(name, at)..])
  {
    var s := name[at..];
    var n := Span(s);
    assert Comp(name, at) == s[..n];
    if n < |s| {
      assert name[End(name, at)..After(name, at)] == "/";
      assert s[n + 1..] == name[After(name, at)..];
    } else {
      assert s[..n] == s && name[After(name, at)..] == "" && name[End(name, at)..After(name, at)] == "";
    }
  }

  /** The two tests at the head of the loop look at the component and at nothing behind it. */
  lemma HeadTests(name: string, at: nat)
    requires at < |name| && CString(name)
    ensures var c := Comp(name, at);
            && (c == "" || c == "." <==>
                  name[at] == '/' || (name[at] == '.' && (Ch(name, at + 1) == '/' || Ch(name, at + 1) == NUL)))
            && (c == ".." <==>
                  name[at] == '.' && Ch(name, at + 1) == '.' && (Ch(name, at + 2) == '/' || Ch(name, at + 2) == NUL))
  {
    var s, n := name[at..], Span(name[at..]);
    assert forall i :: 0 <= i < |s| ==> s[i] == name[at + i];
    var c := Comp(name, at);
    assert c == s[..n];
    assert forall i :: 0 <= i < n ==> c[i] == name[at + i] && c[i] in s[..n];
    assert Ch(name, at + n) == '/' || Ch(name, at + n) == NUL;
    assert |c| == 1 && c[0] == '.' <==> c == ".";
    assert |c| == 2 && c[0] == '.' && c[1] == '.' <==> c == "..";
  }

  /** The backward scan for the slash before the last component. */
  method Back(buf: array<char>, curn: nat) returns (r: nat)
    requires 1 <= curn <= buf.Length
    ensures 1 <= r <= curn && r == ScanBack(buf[..curn], curn - 2)
  {
    BackRange(buf[..curn]);
    var i := curn - 2;
    while i > 0 && buf[i] != '/'
      invariant i < curn && ScanBack(buf[..curn], i) == ScanBack(buf[..curn], curn - 2)
    {
      i := i - 1;
    }
    i := i + 1;
    if i <= 0 {
      i := i + 1;
    }
    r := i;
  }

  /** Copy a component and its slash. */
  method Copy(name: string, at: nat, buf: array<char>, curn: nat) returns (next: nat, r: nat)
    requires at < |name| && CString(name) && curn + (|name| - at) <= buf.Length
    modifies buf
    ensures next == After(name, at) && r == curn + (next - at)
    ensures buf[..r] == old(buf[..curn]) + name[at..next]
  {
    ghost var was := buf[..curn];
    next, r := at, curn;
    while Ch(name, next) != NUL && Ch(name, next) != '/'
      invariant at <= next <= |name| && r == curn + (next - at) && '/' !in name[at..next]
      invariant buf[..r] == was + name[at..next]
      decreases |name| - next
    {
      next, r := PutChar(name, at, next, buf, r, was);
    }
    SpanUnique(name[at..], next - at);
    if Ch(name, next) != NUL {
      next, r := PutChar(name, at, next, buf, r, was);
    }
  }

  method PutChar(name: string, ghost at: nat, at': nat, buf: array<char>, r: nat, ghost was: string)
      returns (next: nat, r': nat)
    requires at <= at' < |name| && r < buf.Length && buf[..r] == was + name[at..at']
    modifies buf
    ensures next == at' + 1 && r' == r + 1 && buf[..r'] == was + name[at..next]
  {
    buf[r] := name[at'];
    next, r' := at' + 1, r + 1;
    assert name[at..next] == name[at..at'] + [name[at']];
    assert buf[..r'] == buf[..r] + [name[at']];
  }

  /** The buffer `nameclean` starts with. */
  method Begin(name: string, cwd: string) returns (buf: array<char>, curn: nat, at: nat)
    requires CString(name)
    ensures fresh(buf) && buf.Length == if Ch(name, 0) == '/' then |name| + 1 else |name| + |cwd| + 2
    ensures at <= |name| && 1 <= curn && curn + (|name| - at) < buf.Length
    ensures Scan(buf[..curn], name[at..]) == Cleaned(name, cwd)
  {
    if Ch(name, 0) == '/' {
      buf := new char[|name| + 1];
      buf[0] := Ch(name, 0);
      curn, at := 1, 1;
      assert buf[..1] == "/";
    } else {
      buf := new char[|name| + |cwd| + 2];
      var i := 0;
      while i < |cwd|
        invariant 0 <= i <= |cwd| && buf[..i] == cwd[..i]
      {
        buf[i] := cwd[i];
        i := i + 1;
      }
      buf[|cwd|] := '/';
      curn, at := |cwd| + 1, 0;
      assert buf[..curn] == cwd + "/";
      assert name[0..] == name;
    }
  }

  /** `nameclean`: the buffer that is returned holds the cleaned name and its terminator, and is never written
      outside of what was reserved. */
  method NameClean(name: string, cwd: string) returns (buf: array<char>)
    requires CString(name)
    ensures fresh(buf) && buf.Length == if Ch(name, 0) == '/' then |name| + 1 else |name| + |cwd| + 2
    ensures var r := Cleaned(name, cwd); |r| < buf.Length && buf[..|r|] == r && buf[|r|] == NUL
  {
    hide Scan, Turn, ScanBack, Span;
    var curn, at;
    buf, curn, at := Begin(name, cwd);
    while at < |name|
      invariant at <= |name| && 1 <= curn && curn + (|name| - at) < buf.Length && fresh(buf)
      invariant Scan(buf[..curn], name[at..]) == Cleaned(name, cwd)
      decreases |name| - at
    {
      OneTurn(buf[..curn], name, at);
      HeadTests(name, at);
      TurnIs(buf[..curn], Comp(name, at), name[End(name, at)..After(name, at)]);
      if name[at] == '/' || (name[at] == '.' && (Ch(name, at + 1) == '/' || Ch(name, at + 1) == NUL)) {
        at := Skip(name, at);
      } else if name[at] == '.' && Ch(name, at + 1) == '.' && (Ch(name, at + 2) == '/' || Ch(name, at + 2) == NUL) {
        at := Skip(name, at);
        ghost var was := buf[..curn];
        curn := Back(buf, curn);
        assert was[..curn] == buf[..curn];
      } else {
        assert name[at..After(name, at)] == Comp(name, at) + name[End(name, at)..After(name, at)];
        at, curn := Copy(name, at, buf, curn);
      }
    }
    NothingLeft(buf[..curn], name[at..]);
    buf[curn] := NUL;
  }

  lemma TurnIs(buf: string, c: string, slash: string)
    requires buf != ""
    ensures c == "" || c == "." ==> Turn(buf, c, slash) == buf
    ensures 1 <= ScanBack(buf, |buf| - 2) <= |buf|
    ensures c == ".." ==> Turn(buf, c, slash) == buf[..ScanBack(buf, |buf| - 2)]
    ensures c != "" && c != "." && c != ".." ==> Turn(buf, c, slash) == buf + (c + slash)
  {
    BackRange(buf);
  }

  lemma NothingLeft(buf: string, s: string)
    requires buf != "" && s == ""
    ensures Scan(buf, s) == buf
  {
  }
}
