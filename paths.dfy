/** The `pathlib` operations the modelled code uses, on '/'-separated
    strings: `base / name`, `.name` and `.stem`. */
module Paths {
  import opened Errors
  import Text

  /** A component as pathlib keeps it: non-empty, not ".", and free of
      separators. */
  predicate IsComponent(x: string) {
    x != "" && x != "." && '/' !in x
  }

  /** The pieces of a split that pathlib keeps: empty pieces (from
      repeated or trailing separators) and "." pieces are dropped. */
  function Components(pieces: seq<string>): (r: seq<string>)
    requires forall k :: 0 <= k < |pieces| ==> '/' !in pieces[k]
    ensures forall k :: 0 <= k < |r| ==> IsComponent(r[k])
  {
    if pieces == [] then []
    else
      var rest := Components(pieces[1..]);
      if pieces[0] == "" || pieces[0] == "." then rest else [pieces[0]] + rest
  }

  /** The anchor of a POSIX path: "//" for exactly two leading separators,
      which POSIX leaves implementation-defined and pathlib keeps, "/" for
      one or three or more, and "" for a relative path. */
  function Root(s: string): (r: string)
    ensures r == "" || r == "/" || r == "//"
  {
    if s == [] || s[0] != '/' then ""
    else if |s| >= 2 && s[1] == '/' && (|s| == 2 || s[2] != '/') then "//"
    else "/"
  }

  /** `PurePosixPath(s).parts` after the anchor. */
  function Parts(s: string): (ps: seq<string>)
    ensures forall k :: 0 <= k < |ps| ==> IsComponent(ps[k])
  {
    Components(Text.SplitChar(s, '/'))
  }

  /** The text of a path with anchor `root` and components `parts`: "."
      for the empty relative path. */
  function Render(root: string, parts: seq<string>): string {
    if parts == [] then (if root == "" then "." else root)
    else root + Text.JoinChar(parts, '/')
  }

  /** `str(PurePosixPath(s))`: the anchor, then the kept components joined
      by single separators. */
  function Normal(s: string): string {
    Render(Root(s), Parts(s))
  }

  /** `str(Path(base) / name)`: an absolute `name` replaces the base;
      otherwise the components of both are joined under the base's
      anchor. */
  function Join(base: string, name: string): string {
    if Root(name) != "" then Normal(name) else Render(Root(base), Parts(base) + Parts(name))
  }

  /** The text in front of one more component under anchor `root` after
      `parts`: the anchor, or the anchor and the joined parts followed by
      one separator. */
  function Prefix(root: string, parts: seq<string>): string {
    if parts == [] then root else root + Text.JoinChar(parts, '/') + "/"
  }

  /** What `Path(base) / name` puts in front of a single component `name`:
      the normalised base and a separator, or nothing for an empty base. */
  function Lead(base: string): string {
    Prefix(Root(base), Parts(base))
  }

  /** Joining a single component appends it to the base's lead. */
  lemma JoinPlain(base: string, name: string)
    requires IsComponent(name)
    ensures Join(base, name) == Lead(base) + name
  {
    ComponentAlone(name);
    JoinRelative(base, name);
    RenderSnoc(Root(base), Parts(base), name);
  }

  lemma JoinRelative(base: string, name: string)
    requires Root(name) == ""
    ensures Join(base, name) == Render(Root(base), Parts(base) + Parts(name))
  {
  }

  lemma RenderSnoc(root: string, parts: seq<string>, name: string)
    ensures Render(root, parts + [name]) == Prefix(root, parts) + name
  {
    if parts == [] {
      assert parts + [name] == [name];
    } else {
      var j := Text.JoinChar(parts, '/');
      assert Text.JoinChar(parts + [name], '/') == j + "/" + name by {
        JoinCharSnoc(parts, name);
      }
      assert root + (j + "/" + name) == root + j + "/" + name;
    }
  }

  lemma PrefixSnoc(root: string, parts: seq<string>, name: string)
    ensures Prefix(root, parts + [name]) == Prefix(root, parts) + name + "/"
  {
    RenderSnoc(root, parts, name);
    assert Prefix(root, parts + [name]) == Render(root, parts + [name]) + "/";
  }

  /** The lead is empty exactly when the base normalises to ".", and is
      otherwise the normalised base followed by one separator, or just the
      anchor. */
  lemma LeadOfNormal(base: string)
    ensures Lead(base) == "" <==> Normal(base) == "."
    ensures Parts(base) != [] ==> Lead(base) == Normal(base) + "/"
    ensures Parts(base) == [] ==> Lead(base) == Root(base)
  {
    var parts := Parts(base);
    if parts != [] && Root(base) == "" && Text.JoinChar(parts, '/') == "." {
      SplitOfJoin(parts);
      SeparatorFree(".");
      assert false;
    }
  }

  /** Joining a component onto a joined path extends its lead by that
      component. */
  lemma LeadOfJoin(base: string, name: string)
    requires IsComponent(name)
    ensures Lead(Join(base, name)) == Lead(base) + name + "/"
  {
    var root, qs := Root(base), Parts(base) + [name];
    JoinPlain(base, name);
    assert Join(base, name) == Render(root, qs) by {
      RenderSnoc(root, Parts(base), name);
    }
    PartsOfRender(root, qs);
    PrefixSnoc(root, Parts(base), name);
  }

  /** Normalising twice changes nothing. */
  lemma NormalIdempotent(s: string)
    ensures Normal(Normal(s)) == Normal(s)
  {
    PartsOfRender(Root(s), Parts(s));
  }

  /** A base and its normalised text give the same joined path. */
  lemma JoinNormalBase(base: string, name: string)
    ensures Join(Normal(base), name) == Join(base, name)
  {
    PartsOfRender(Root(base), Parts(base));
  }

  /** `Path(base) / names[0] / names[1] / …`, joined left to right. */
  function JoinAll(base: string, names: seq<string>): string
    decreases |names|
  {
    if names == [] then Normal(base) else Join(JoinAll(base, names[..|names| - 1]), names[|names| - 1])
  }

  /** Joining several components appends them, separated, to the base's
      lead; the lead of the result is extended by all of them. */
  lemma {:induction false} JoinAllPlain(base: string, names: seq<string>)
    requires |names| >= 1 && forall k :: 0 <= k < |names| ==> IsComponent(names[k])
    decreases |names|
    ensures JoinAll(base, names) == Lead(base) + Text.JoinChar(names, '/')
    ensures Lead(JoinAll(base, names)) == Lead(base) + Text.JoinChar(names, '/') + "/"
  {
    var init, x := names[..|names| - 1], names[|names| - 1];
    var prev, lb := JoinAll(base, init), Lead(base);
    assert JoinAll(base, names) == Join(prev, x);
    if init == [] {
      assert names == [x] by {
        SplitLast(names);
      }
      assert Join(prev, x) == Join(base, x) by {
        JoinNormalBase(base, x);
      }
      JoinPlain(base, x);
      LeadOfJoin(base, x);
    } else {
      var j := Text.JoinChar(init, '/');
      assert Text.JoinChar(names, '/') == j + "/" + x by {
        SplitLast(names);
        JoinCharSnoc(init, x);
      }
      assert Lead(prev) == lb + j + "/" by {
        JoinAllPlain(base, init);
      }
      assert Join(prev, x) == lb + (j + "/" + x) by {
        JoinPlain(prev, x);
        RegroupLast(lb, j, x);
      }
      assert Lead(Join(prev, x)) == lb + (j + "/" + x) + "/" by {
        LeadOfJoin(prev, x);
        Regroup(lb, j, x, "/");
      }
    }
  }

  lemma SplitLast(s: seq<string>)
    requires |s| >= 1
    ensures s == s[..|s| - 1] + [s[|s| - 1]]
  {
  }

  lemma RegroupLast(a: string, b: string, c: string)
    ensures a + b + "/" + c == a + (b + "/" + c)
  {
  }

  lemma Regroup(a: string, b: string, c: string, d: string)
    ensures a + b + "/" + c + d == a + (b + "/" + c) + d
  {
  }

  /** The name of a multi-component join is the last component. */
  lemma NameOfJoinAll(base: string, names: seq<string>)
    requires |names| >= 1 && IsComponent(names[|names| - 1])
    ensures Name(JoinAll(base, names)) == names[|names| - 1]
  {
    NameOfJoin(JoinAll(base, names[..|names| - 1]), names[|names| - 1]);
  }

  /** A trailing separator in the base vanishes. */
  lemma JoinTrailingSeparator(a: string, b: string)
    requires IsComponent(a) && IsComponent(b)
    ensures Join(a + "/", b) == a + "/" + b
  {
    assert Parts(a + "/") == [a] by {
      assert a + "/" == a + "/" + "";
      PartsCons(a, "");
      PartsEmpty();
    }
    assert Root(a + "/") == "" by {
      assert a[0] in a;
    }
    JoinPlain(a + "/", b);
  }

  /** A leading "./" in the base vanishes. */
  lemma JoinDotPrefix(a: string, b: string)
    requires IsComponent(a) && IsComponent(b)
    ensures Join("./" + a, b) == a + "/" + b
  {
    assert Parts("./" + a) == [a] by {
      assert "./" + a == "." + "/" + a;
      PartsCons(".", a);
      ComponentAlone(a);
    }
    JoinPlain("./" + a, b);
  }

  /** Repeated separators in the base count as one. */
  lemma JoinRepeatedSeparator(a: string, m: string, b: string)
    requires IsComponent(a) && IsComponent(m) && IsComponent(b)
    ensures Join(a + "//" + m, b) == a + "/" + m + "/" + b
  {
    var base := a + "//" + m;
    assert Parts(base) == [a, m] by {
      assert base == a + "/" + ("" + "/" + m);
      PartsCons(a, "" + "/" + m);
      PartsCons("", m);
      ComponentAlone(m);
    }
    assert Root(base) == "" by {
      assert a[0] in a;
    }
    assert Text.JoinChar([a, m], '/') == a + "/" + m by {
      assert [a, m][1..] == [m];
    }
    JoinPlain(base, b);
  }

  /** A piece before the first separator: kept unless it is empty or ".". */
  lemma PartsCons(a: string, rest: string)
    requires '/' !in a
    ensures Parts(a + "/" + rest) == (if a == "" || a == "." then [] else [a]) + Parts(rest)
  {
    SplitAfterSeparator(a, rest);
    var pieces := Text.SplitChar(rest, '/');
    assert ([a] + pieces)[0] == a && ([a] + pieces)[1..] == pieces;
  }

  lemma PartsEmpty()
    ensures Parts("") == []
  {
    SeparatorFree("");
    assert [""][1..] == [];
  }

  lemma SplitExample(pieces: seq<string>, s: string)
    requires |pieces| >= 1 && Text.JoinChar(pieces, '/') == s
    requires forall k :: 0 <= k < |pieces| ==> '/' !in pieces[k]
    ensures Text.SplitChar(s, '/') == pieces
  {
    SplitOfJoin(pieces);
  }

  lemma SeparatorFree(x: string)
    requires '/' !in x
    ensures Text.SplitChar(x, '/') == [x]
  {
    forall i ensures !Text.OccursAt(x, "/", i) {
      if 0 <= i && i + 1 <= |x| {
        assert x[i..i + 1][0] == x[i];
      }
    }
    assert Text.Find(x, "/").None?;
  }

  lemma ComponentAlone(x: string)
    requires IsComponent(x)
    ensures Root(x) == "" && Parts(x) == [x]
  {
    SeparatorFree(x);
    assert x[0] in x;
    assert Components([x]) == [x] + Components([x][1..]);
    assert [x][1..] == [];
  }

  lemma {:induction false} JoinCharSnoc(ps: seq<string>, x: string)
    requires |ps| >= 1
    decreases |ps|
    ensures Text.JoinChar(ps + [x], '/') == Text.JoinChar(ps, '/') + "/" + x
  {
    var qs := ps + [x];
    assert qs[0] == ps[0];
    if |ps| == 1 {
      assert qs[1..] == [x];
    } else {
      assert qs[1..] == ps[1..] + [x];
      JoinCharSnoc(ps[1..], x);
    }
  }

  lemma JoinCharTwo(a: string, b: string)
    ensures Text.JoinChar([a, b], '/') == a + "/" + b
  {
    assert [a, b] == [a] + [b];
    JoinCharSnoc([a], b);
  }

  lemma JoinCharFour(a: string, b: string, c: string, d: string)
    ensures Text.JoinChar([a, b, c, d], '/') == a + "/" + b + "/" + c + "/" + d
  {
    JoinCharTwo(a, b);
    assert [a, b, c] == [a, b] + [c];
    JoinCharSnoc([a, b], c);
    assert [a, b, c, d] == [a, b, c] + [d];
    JoinCharSnoc([a, b, c], d);
  }

  /** Appending a joined list of four components to `l`, regrouped. */
  lemma AppendFour(l: string, a: string, b: string, c: string, d: string)
    ensures l + (a + "/" + b + "/" + c + "/" + d) == l + a + "/" + b + "/" + c + "/" + d
  {
  }

  /** The first separator of `a + "/" + b` is the one after `a`. */
  lemma FirstSeparator(a: string, b: string)
    requires '/' !in a
    ensures Text.Find(a + "/" + b, "/") == Some(|a|)
  {
    var s := a + "/" + b;
    assert Text.OccursAt(s, "/", |a|) by { assert s[|a|..|a| + 1] == "/"; }
    forall j | 0 <= j < |a| ensures !Text.OccursAt(s, "/", j) {
      assert s[j..j + 1][0] == a[j];
    }
  }

  lemma SplitAfterSeparator(a: string, b: string)
    requires '/' !in a
    ensures Text.SplitChar(a + "/" + b, '/') == [a] + Text.SplitChar(b, '/')
  {
    FirstSeparator(a, b);
    var s := a + "/" + b;
    assert s[..|a|] == a && s[|a| + 1..] == b;
  }

  /** Splitting a separator-joined list gives the list back. */
  lemma {:induction false} SplitOfJoin(ps: seq<string>)
    requires |ps| >= 1 && forall k :: 0 <= k < |ps| ==> '/' !in ps[k]
    decreases |ps|
    ensures Text.SplitChar(Text.JoinChar(ps, '/'), '/') == ps
  {
    if |ps| == 1 {
      SeparatorFree(ps[0]);
    } else {
      SplitAfterSeparator(ps[0], Text.JoinChar(ps[1..], '/'));
      SplitOfJoin(ps[1..]);
      assert ps == [ps[0]] + ps[1..];
    }
  }

  lemma {:induction false} ComponentsKeep(ps: seq<string>)
    requires forall k :: 0 <= k < |ps| ==> ps[k] != "" && ps[k] != "." && '/' !in ps[k]
    decreases |ps|
    ensures Components(ps) == ps
  {
    if ps != [] {
      ComponentsKeep(ps[1..]);
      assert ps == [ps[0]] + ps[1..];
    }
  }

  lemma JoinCharStart(ps: seq<string>)
    requires |ps| >= 1 && ps[0] != ""
    ensures Text.JoinChar(ps, '/')[0] == ps[0][0]
  {
  }

  /** Rendering a normalised anchor and components and parsing the text
      again gives them back. */
  lemma PartsOfRender(root: string, ps: seq<string>)
    requires root == "" || root == "/" || root == "//"
    requires forall k :: 0 <= k < |ps| ==> IsComponent(ps[k])
    ensures Parts(Render(root, ps)) == ps && Root(Render(root, ps)) == root
  {
    if ps == [] {
      RenderEmpty(root);
    } else {
      var j := Text.JoinChar(ps, '/');
      SplitOfJoin(ps);
      ComponentsKeep(ps);
      JoinCharStart(ps);
      assert ps[0][0] in ps[0];
      assert j[0] != '/';
      if root == "" {
        assert Render(root, ps) == j;
      } else if root == "/" {
        RenderRooted(j, ps);
      } else {
        RenderDoubleRooted(j, ps);
      }
    }
  }

  lemma RenderEmpty(root: string)
    requires root == "" || root == "/" || root == "//"
    ensures Parts(Render(root, [])) == [] && Root(Render(root, [])) == root
  {
    if root == "" {
      SeparatorFree(".");
      assert Components(["."]) == Components([])  by { assert ["."][1..] == []; }
    } else if root == "/" {
      SplitExample(["", ""], "/");
      assert Components(["", ""]) == Components([""]) by { assert ["", ""][1..] == [""]; }
      assert Components([""]) == Components([]) by { assert [""][1..] == []; }
    } else {
      SplitExample(["", "", ""], "//");
      assert Components(["", "", ""]) == Components(["", ""]) by { assert ["", "", ""][1..] == ["", ""]; }
      assert Components(["", ""]) == Components([""]) by { assert ["", ""][1..] == [""]; }
      assert Components([""]) == Components([]) by { assert [""][1..] == []; }
    }
  }

  lemma ComponentsDropEmpty(ps: seq<string>)
    requires forall k :: 0 <= k < |ps| ==> '/' !in ps[k]
    ensures Components([""] + ps) == Components(ps)
  {
    assert ([""] + ps)[1..] == ps;
  }

  lemma RenderRooted(j: string, ps: seq<string>)
    requires j != "" && j[0] != '/'
    requires Text.SplitChar(j, '/') == ps && Components(ps) == ps
    ensures Parts("/" + j) == ps && Root("/" + j) == "/"
  {
    SplitAfterSeparator("", j);
    assert "" + "/" + j == "/" + j;
    assert ([""] + ps)[1..] == ps;
  }

  lemma RenderDoubleRooted(j: string, ps: seq<string>)
    requires j != "" && j[0] != '/'
    requires Text.SplitChar(j, '/') == ps && Components(ps) == ps
    ensures Parts("//" + j) == ps && Root("//" + j) == "//"
  {
    var k := "/" + j;
    RenderRooted(j, ps);
    SplitAfterSeparator("", k);
    assert "" + "/" + k == "//" + j;
    ComponentsDropEmpty(Text.SplitChar(k, '/'));
    assert "//" + j != [] && ("//" + j)[0] == '/' && ("//" + j)[1] == '/' && ("//" + j)[2] == j[0];
  }

  /** `os.path.join(base, name)` for a relative `name`: a separator is added
      unless `base` is empty or already ends in one. */
  function OsJoin(base: string, name: string): (p: string)
    ensures |p| >= |name| && p[|p| - |name|..] == name
    ensures |p| >= |base| + |name| && p[..|base|] == base
  {
    if base == "" || base[|base| - 1] == '/' then base + name else base + "/" + name
  }

  /** Joining onto the same base keeps different names apart. */
  lemma OsJoinInjective(base: string, a: string, b: string)
    requires OsJoin(base, a) == OsJoin(base, b)
    ensures a == b
  {
    var k := |OsJoin(base, a)| - |a|;
    assert |a| == |b|;
    assert a == OsJoin(base, a)[k..] == b;
  }

  /** `PurePath(p).name`: the text after the last separator. */
  function Name(p: string): (n: string)
    ensures '/' !in n
  {
    var n := Text.LastPiece(p, "/");
    assert '/' !in n by {
      forall i | 0 <= i < |n| ensures n[i] != '/' {
        assert !Text.OccursAt(n, "/", i);
        assert n[i..i + 1] == [n[i]];
      }
    }
    n
  }

  /** The index of the last `c` in `s` (`str.rfind`). */
  function RFind(s: string, c: char): (r: Option<nat>)
    ensures r.Some? ==> r.value < |s| && s[r.value] == c
    ensures r.Some? ==> forall j :: r.value < j < |s| ==> s[j] != c
    ensures r.None? ==> c !in s
  {
    if s == [] then None
    else if s[|s| - 1] == c then Some(|s| - 1)
    else
      var r := RFind(s[..|s| - 1], c);
      assert r.None? ==> c !in s by {
        if r.None? {
          assert s == s[..|s| - 1] + [s[|s| - 1]];
        }
      }
      r
  }

  /** `PurePath(name).stem`: the name without its final suffix, where a dot
      at the start or at the very end does not begin a suffix. */
  function Stem(name: string): (r: string)
    ensures |r| <= |name| && r == name[..|r|]
  {
    match RFind(name, '.')
    case Some(i) => if 0 < i < |name| - 1 then name[..i] else name
    case None => name
  }

  /** The last component of a joined path is the component that was joined. */
  lemma NameOfJoin(base: string, name: string)
    requires IsComponent(name)
    ensures Name(Join(base, name)) == name
  {
    JoinPlain(base, name);
    var lead := Lead(base);
    if lead == "" {
      assert Join(base, name) == name;
      NoSlashLastPiece(name);
    } else {
      var a := lead[..|lead| - 1];
      assert lead == a + "/";
      LastPieceAfterSlash(a, name);
    }
  }

  /** The name of an `os.path.join` result is the name that was joined. */
  lemma NameOfOsJoin(base: string, name: string)
    requires '/' !in name
    ensures Name(OsJoin(base, name)) == name
  {
    if base == "" {
      NoSlashLastPiece(name);
    } else if base[|base| - 1] == '/' {
      var a := base[..|base| - 1];
      assert OsJoin(base, name) == a + "/" + name;
      LastPieceAfterSlash(a, name);
    } else {
      LastPieceAfterSlash(base, name);
    }
  }

  lemma NoSlashLastPiece(s: string)
    requires '/' !in s
    ensures Text.LastPiece(s, "/") == s
  {
    forall j | 0 <= j ensures !Text.OccursAt(s, "/", j) {
      if j + 1 <= |s| {
        assert s[j..j + 1][0] == s[j];
      }
    }
  }

  /** The piece after the last separator of `a + "/" + b` is `b`. */
  lemma {:induction false} LastPieceAfterSlash(a: string, b: string)
    requires '/' !in b
    decreases |a|
    ensures Text.LastPiece(a + "/" + b, "/") == b
  {
    var s := a + "/" + b;
    assert Text.OccursAt(s, "/", |a|) by { assert s[|a|..|a| + 1] == "/"; }
    var i := Text.Find(s, "/").value;
    assert i <= |a|;
    assert s[i..i + 1] == "/";
    if i == |a| {
      assert s[i + 1..] == b;
      NoSlashLastPiece(b);
    } else {
      assert s[i] == a[i];
      assert s[i + 1..] == a[i + 1..] + "/" + b;
      LastPieceAfterSlash(a[i + 1..], b);
    }
  }

  /** The stem of "<s>.mp4" is s for every non-empty s. */
  lemma StemOfMp4(s: string)
    requires s != ""
    ensures Stem(s + ".mp4") == s
  {
    var name := s + ".mp4";
    assert name[|s|] == '.';
    var r := RFind(name, '.');
    assert r == Some(|s|) by {
      assert name[|name| - 1] == '4' && name[|name| - 2] == 'p' && name[|name| - 3] == 'm';
      assert name[..|name| - 1][..|name| - 2][..|name| - 3] == name[..|s| + 1];
    }
    assert name[..|s|] == s;
  }
}
