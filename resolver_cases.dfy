/**
 * Worked cases of the resolver: concrete paths and what `ex_abspath`
 * leaves in its argument for each. Each case first runs the stack pass
 * over the pieces, then reads the outcome off `ResolveJoined`.
 */
module ResolverCases {
  import opened Wrappers
  import opened WideStr
  import opened Resolver

  // ---------------------------------------------------------------------
  // Steps of the stack pass

  /** A `..` pops the top of a non-empty stack. */
  lemma PassParent(st: seq<Piece>, rest: seq<Piece>)
    requires st != []
    ensures Pass(st, [".."] + rest) == Pass(st[..|st| - 1], rest)
  {
    assert ([".."] + rest)[1..] == rest;
  }

  /** A `.` leaves the stack alone. */
  lemma PassDot(st: seq<Piece>, rest: seq<Piece>)
    ensures Pass(st, ["."] + rest) == Pass(st, rest)
  {
    assert (["."] + rest)[1..] == rest;
  }

  /** Ordinary pieces, then the rest. */
  lemma PassFrom(xs: seq<Piece>, ys: seq<Piece>)
    requires AllNormal(xs)
    ensures Pass([], xs + ys) == Pass(xs, ys)
  {
    PassNormalPrefix([], xs, ys);
    assert [] + xs == xs;
  }

  // ---------------------------------------------------------------------
  // Reading an outcome off the stack pass

  /** The pass succeeds and the root check holds: the path resolves to the rejoined pieces. */
  lemma ResolvesTo(p: Platform, ps: seq<Piece>, r: seq<Piece>, s: seq<char>, t: seq<char>)
    requires Plain(ps) && s == JoinSep(ps, '/')
    requires Pass([], ps) == Some(r) && RootOk(p, r) && t == JoinSep(r, Sep(p))
    ensures Resolve(p, s) == Some(t)
  {
    ResolveJoined(p, ps, s);
  }

  /** As `ResolvesTo`, with a separator after the path. */
  lemma ResolvesWithSlashTo(p: Platform, ps: seq<Piece>, r: seq<Piece>, s: seq<char>, u: seq<char>, t: seq<char>)
    requires Plain(ps) && ps != [] && s == JoinSep(ps, '/') && u == s + "/"
    requires Pass([], ps) == Some(r) && RootOk(p, r) && t == JoinSep(r, Sep(p))
    ensures Resolve(p, u) == Some(t)
  {
    ResolvesTo(p, ps, r, s, t);
    TrailingSeparatorIgnored(p, ps, s);
  }

  /** The pass fails: the argument keeps its value. */
  lemma CancelFails(p: Platform, ps: seq<Piece>, s: seq<char>)
    requires Plain(ps) && s == JoinSep(ps, '/') && Pass([], ps) == None
    ensures AbsPathOutcome(p, s) == (false, s)
  {
    ResolveJoined(p, ps, s);
  }

  /** The pass succeeds but the Windows root check does not: the argument is cleared. */
  lemma RootFails(ps: seq<Piece>, r: seq<Piece>, s: seq<char>)
    requires Plain(ps) && s == JoinSep(ps, '/')
    requires Pass([], ps) == Some(r) && !RootOk(Windows, r)
    ensures AbsPathOutcome(Windows, s) == (false, [])
  {
    ResolveJoined(Windows, ps, s);
  }

  // ---------------------------------------------------------------------
  // A `..` with nothing to cancel

  lemma PassLeadingParent()
    ensures Pass([], ["..", "a"]) == None
  {
  }

  /** `../a` fails and the argument keeps its value. */
  lemma LeadingParentFails(p: Platform)
    ensures AbsPathOutcome(p, "../a") == (false, "../a")
  {
    PassLeadingParent();
    assert Plain(["..", "a"]);
    CancelFails(p, ["..", "a"], "../a");
  }

  lemma PassOverCancelled()
    ensures Pass([], ["a", "..", ".."]) == None
  {
    PassFrom(["a"], ["..", ".."]);
    assert ["a"] + ["..", ".."] == ["a", "..", ".."];
    PassParent(["a"], [".."]);
    assert [".."] + [".."] == ["..", ".."];
  }

  /** `a/../..` fails: the second `..` has nothing left to cancel. */
  lemma OverCancelledFails(p: Platform)
    ensures AbsPathOutcome(p, "a/../..") == (false, "a/../..")
  {
    PassOverCancelled();
    assert Plain(["a", "..", ".."]);
    CancelFails(p, ["a", "..", ".."], "a/../..");
  }

  // ---------------------------------------------------------------------
  // `..` and `.` in a path

  lemma PassTrailingParent()
    ensures Pass([], ["", "a", "b", ".."]) == Some(["", "a"])
  {
    var st: seq<Piece> := ["", "a", "b"];
    PassFrom(st, [".."]);
    assert st + [".."] == ["", "a", "b", ".."];
    PassParent(st, []);
    assert [".."] + [] == [".."];
    assert st[..2] == ["", "a"];
  }

  /** `/a/b/..` resolves to `/a`. */
  lemma TrailingParentCancels()
    ensures Resolve(Posix, "/a/b/..") == Some("/a")
  {
    PassTrailingParent();
    assert Plain(["", "a", "b", ".."]);
    ResolvesTo(Posix, ["", "a", "b", ".."], ["", "a"], "/a/b/..", "/a");
  }

  /** A `..` between two ordinary pieces cancels the one before it. */
  lemma PassInnerParent(a: Piece, x: Piece, y: Piece)
    requires Normal(a) && Normal(x) && Normal(y)
    ensures Pass([], [a, x, "..", y]) == Some([a, y])
  {
    var st: seq<Piece> := [a, x];
    PassFrom(st, ["..", y]);
    assert st + ["..", y] == [a, x, "..", y];
    PassParent(st, [y]);
    assert [".."] + [y] == ["..", y];
    assert st[..1] == [a];
    PassNormalPrefix([a], [y], []);
    assert [a] + [y] == [a, y] && [y] + [] == [y];
  }

  /** `/a/../b` resolves to `/b`. */
  lemma InnerParentCancels()
    ensures Resolve(Posix, "/a/../b") == Some("/b")
  {
    PassInnerParent("", "a", "b");
    assert Plain(["", "a", "..", "b"]);
    ResolvesTo(Posix, ["", "a", "..", "b"], ["", "b"], "/a/../b", "/b");
  }

  lemma PassInnerDot()
    ensures Pass([], ["", "a", ".", "b"]) == Some(["", "a", "b"])
  {
    var st: seq<Piece> := ["", "a"];
    PassFrom(st, [".", "b"]);
    assert st + [".", "b"] == ["", "a", ".", "b"];
    PassDot(st, ["b"]);
    assert ["."] + ["b"] == [".", "b"];
    PassNormalPrefix(st, ["b"], []);
    assert st + ["b"] == ["", "a", "b"] && ["b"] + [] == ["b"];
  }

  /** `/a/./b` resolves to `/a/b`. */
  lemma DotDropped()
    ensures Resolve(Posix, "/a/./b") == Some("/a/b")
  {
    PassInnerDot();
    assert Plain(["", "a", ".", "b"]);
    ResolvesTo(Posix, ["", "a", ".", "b"], ["", "a", "b"], "/a/./b", "/a/b");
  }

  lemma PassRelativeDot()
    ensures Pass([], ["a", ".", "b"]) == Some(["a", "b"])
  {
    var st: seq<Piece> := ["a"];
    PassFrom(st, [".", "b"]);
    assert st + [".", "b"] == ["a", ".", "b"];
    PassDot(st, ["b"]);
    assert ["."] + ["b"] == [".", "b"];
    PassNormalPrefix(st, ["b"], []);
    assert st + ["b"] == ["a", "b"] && ["b"] + [] == ["b"];
  }

  /** On POSIX a relative path stays relative: `a/./b` resolves to `a/b`. */
  lemma RelativeStaysRelative()
    ensures Resolve(Posix, "a/./b") == Some("a/b")
  {
    PassRelativeDot();
    assert Plain(["a", ".", "b"]);
    ResolvesTo(Posix, ["a", ".", "b"], ["a", "b"], "a/./b", "a/b");
  }

  // ---------------------------------------------------------------------
  // The empty leading piece is a piece like any other

  lemma PassRootParent()
    ensures Pass([], ["", ".."]) == Some([])
  {
    PassFrom([""], [".."]);
    assert [""] + [".."] == ["", ".."];
    PassParent([""], []);
    assert [".."] + [] == [".."];
  }

  /** `/..` resolves to the empty path on both platforms. */
  lemma RootParentEmpty(p: Platform)
    ensures Resolve(p, "/..") == Some([])
  {
    PassRootParent();
    assert Plain(["", ".."]);
    ResolvesTo(p, ["", ".."], [], "/..", "");
  }

  lemma PassRootOnly()
    ensures Pass([], ["", "a", ".."]) == Some([""])
  {
    var st: seq<Piece> := ["", "a"];
    PassFrom(st, [".."]);
    assert st + [".."] == ["", "a", ".."];
    PassParent(st, []);
    assert [".."] + [] == [".."];
    assert st[..1] == [""];
  }

  /** On POSIX `/a/..` resolves to the empty path, not to `/`. */
  lemma SingleParentEmpty()
    ensures Resolve(Posix, "/a/..") == Some([])
  {
    PassRootOnly();
    assert Plain(["", "a", ".."]);
    ResolvesTo(Posix, ["", "a", ".."], [""], "/a/..", "");
  }

  /** On Windows `/a/..` keeps only the empty root piece, which has no drive: the argument is cleared. */
  lemma SingleParentFailsOnWindows()
    ensures AbsPathOutcome(Windows, "/a/..") == (false, [])
  {
    PassRootOnly();
    assert Plain(["", "a", ".."]);
    RootFails(["", "a", ".."], [""], "/a/..");
  }

  lemma PassRootCancelled()
    ensures Pass([], ["", "..", "a"]) == Some(["a"])
  {
    PassFrom([""], ["..", "a"]);
    assert [""] + ["..", "a"] == ["", "..", "a"];
    PassParent([""], ["a"]);
    assert [".."] + ["a"] == ["..", "a"];
    PassAllNormal(["a"]);
  }

  /** `/../a` resolves to the relative `a`: the `..` cancels the root. */
  lemma RootCancelled()
    ensures Resolve(Posix, "/../a") == Some("a")
  {
    PassRootCancelled();
    assert Plain(["", "..", "a"]);
    ResolvesTo(Posix, ["", "..", "a"], ["a"], "/../a", "a");
  }

  // ---------------------------------------------------------------------
  // The Windows root check

  /** `C:/x/../y` resolves to `C:\y` on Windows. */
  lemma DriveKept()
    ensures Resolve(Windows, "C:/x/../y") == Some("C:\\y")
  {
    PassInnerParent("C:", "x", "y");
    assert Plain(["C:", "x", "..", "y"]);
    ResolvesTo(Windows, ["C:", "x", "..", "y"], ["C:", "y"], "C:/x/../y", "C:\\y");
  }

  /** A relative path fails on Windows, after the argument has been cleared. */
  lemma NoDriveFails()
    ensures AbsPathOutcome(Windows, "noroot/a") == (false, [])
  {
    PassAllNormal(["noroot", "a"]);
    assert Plain(["noroot", "a"]);
    RootFails(["noroot", "a"], ["noroot", "a"], "noroot/a");
  }

  // ---------------------------------------------------------------------
  // A trailing separator

  /** `/a/b/` resolves to `/a/b`, as `/a/b` does. */
  lemma TrailingSeparator()
    ensures Resolve(Posix, "/a/b/") == Some("/a/b")
  {
    var ps: seq<Piece> := ["", "a", "b"];
    assert Plain(ps);
    PassAllNormal(ps);
    ResolvesWithSlashTo(Posix, ps, ps, "/a/b", "/a/b/", "/a/b");
  }

}
