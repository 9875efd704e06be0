/**
 * The joiner: `ex_path_join` in its two overloads and `ex_abspath_to`
 * (common/libex/src/ex_path.cpp, lines 323-394). Pieces are appended to an
 * accumulator with one separator between them, unless the accumulator is
 * empty or already ends in the separator; the result may then be resolved.
 * The NULL-terminated argument list becomes a sequence of C strings.
 */
module Joiner {
  import opened Wrappers
  import opened WideStr
  import opened Resolver

  /** One step of the append loop. */
  function Append(c: char, acc: seq<char>, part: seq<char>): seq<char>
  {
    if acc != [] && acc[|acc| - 1] != c then acc + [c] + part else acc + part
  }

  /** The accumulator after every part has been appended, left to right. */
  function JoinAll(c: char, acc: seq<char>, parts: seq<seq<char>>): seq<char>
    decreases |parts|
  {
    if parts == [] then acc else Append(c, JoinAll(c, acc, parts[..|parts| - 1]), parts[|parts| - 1])
  }

  /**
   * `ex_path_join(ex_wstr&, bool, ...)`: `out` is the value `inout_path`
   * has afterwards. Without resolution the join always succeeds; with it,
   * a failed resolution leaves `inout_path` as it was, since only a local
   * copy was touched.
   */
  method PathJoin(p: Platform, inout: seq<char>, autoAbs: bool, parts: seq<CString>) returns (ok: bool, out: seq<char>)
    ensures !autoAbs ==> ok && out == JoinAll(Sep(p), inout, parts)
    ensures autoAbs ==> match Resolve(p, JoinAll(Sep(p), inout, parts))
      case None => !ok && out == inout
      case Some(r) => ok && out == r
  {
    var path := inout;
    var i := 0;
    while i < |parts|
      invariant i <= |parts|
      invariant path == JoinAll(Sep(p), inout, parts[..i])
    {
      if |path| > 0 {
        if path[|path| - 1] != Sep(p) {
          path := path + [Sep(p)];
        }
      }
      path := path + parts[i];
      assert parts[..i + 1][..i] == parts[..i];
      i := i + 1;
    }
    assert parts[..i] == parts;
    if autoAbs {
      var resolved, value := AbsPath(p, path);
      if !resolved {
        return false, inout;
      }
      path := value;
    }
    return true, path;
  }

  /**
   * `ex_path_join(const wchar_t*, EX_BOOL, ...)`: the same join, returning
   * a copy of the result, or NULL when resolution fails.
   */
  method PathJoinNew(p: Platform, inPath: CString, autoAbs: bool, parts: seq<CString>) returns (r: Option<seq<char>>)
    ensures !autoAbs ==> r == Some(JoinAll(Sep(p), inPath, parts))
    ensures autoAbs ==> r == Resolve(p, JoinAll(Sep(p), inPath, parts))
  {
    var ok, out := PathJoin(p, inPath, autoAbs, parts);
    if ok {
      JoinAllNoNul(Sep(p), inPath, parts);
      if autoAbs {
        ResolveShape(p, JoinAll(Sep(p), inPath, parts));
      }
      r := Some(CStr(out));
    } else {
      r := None;
    }
  }

  /**
   * `ex_abspath_to`: the base, a separator and the relative path,
   * resolved in place; `out` is the value `out_path` has afterwards.
   */
  method AbsPathTo(p: Platform, base: seq<char>, rel: seq<char>) returns (ok: bool, out: seq<char>)
    ensures (ok, out) == AbsPathOutcome(p, base + [Sep(p)] + rel)
  {
    out := base + [Sep(p)] + rel;
    ok, out := AbsPath(p, out);
  }

  // ---------------------------------------------------------------------
  // Properties of the join

  /** A join of C strings holds no terminator. */
  lemma {:induction false} JoinAllNoNul(c: char, acc: seq<char>, parts: seq<seq<char>>)
    requires c != NUL && NUL !in acc
    requires forall i :: 0 <= i < |parts| ==> NUL !in parts[i]
    ensures NUL !in JoinAll(c, acc, parts)
    decreases |parts|
  {
    if parts != [] {
      JoinAllNoNul(c, acc, parts[..|parts| - 1]);
    }
  }

  /** The accumulator is never rewritten: the join extends it. */
  lemma {:induction false} JoinAllExtends(c: char, acc: seq<char>, parts: seq<seq<char>>)
    ensures |acc| <= |JoinAll(c, acc, parts)| && JoinAll(c, acc, parts)[..|acc|] == acc
    decreases |parts|
  {
    if parts != [] {
      var j := JoinAll(c, acc, parts[..|parts| - 1]);
      JoinAllExtends(c, acc, parts[..|parts| - 1]);
      var j' := JoinAll(c, acc, parts);
      assert j'[..|j|] == j;
      assert j'[..|acc|] == j[..|j|][..|acc|];
    }
  }

  /**
   * For non-empty parts without a separator, appended to an accumulator
   * that does not end in one, the join is the parts with exactly one
   * separator between neighbours.
   */
  lemma {:induction false} JoinAllIsJoinSep(c: char, acc: seq<char>, parts: seq<seq<char>>)
    requires acc == [] || acc[|acc| - 1] != c
    requires forall i :: 0 <= i < |parts| ==> parts[i] != [] && c !in parts[i]
    ensures JoinAll(c, acc, parts) == JoinSep(JoinedPieces(acc, parts), c)
    decreases |parts|
  {
    if parts != [] {
      var init, last := parts[..|parts| - 1], parts[|parts| - 1];
      JoinAllIsJoinSep(c, acc, parts[..|parts| - 1]);
      JoinedStep(c, acc, parts, JoinAll(c, acc, parts[..|parts| - 1]));
    }
  }

  /** The inductive step of `JoinAllIsJoinSep`: appending the last part to the join of the others. */
  lemma JoinedStep(c: char, acc: seq<char>, parts: seq<seq<char>>, j: seq<char>)
    requires parts != []
    requires acc == [] || acc[|acc| - 1] != c
    requires forall i :: 0 <= i < |parts| ==> parts[i] != [] && c !in parts[i]
    requires j == JoinSep(JoinedPieces(acc, parts[..|parts| - 1]), c)
    ensures Append(c, j, parts[|parts| - 1]) == JoinSep(JoinedPieces(acc, parts), c)
  {
    var init, last := parts[..|parts| - 1], parts[|parts| - 1];
    var ps := JoinedPieces(acc, init);
    assert init + [last] == parts;
    assert JoinedPieces(acc, parts) == ps + [last];
    if ps != [] {
      JoinedEnd(c, acc, init);
    }
    AppendJoinSep(c, j, ps, last);
  }

  /** The pieces the join puts a separator between: the accumulator only if it is not empty. */
  function JoinedPieces(acc: seq<char>, parts: seq<seq<char>>): seq<seq<char>>
  {
    if acc == [] then parts else [acc] + parts
  }

  /** Appending a part to a join that does not end in `c` adds one more piece. */
  lemma AppendJoinSep(c: char, j: seq<char>, ps: seq<Piece>, last: Piece)
    requires j == JoinSep(ps, c)
    requires ps == [] ==> j == []
    requires ps != [] ==> j != [] && j[|j| - 1] != c
    ensures Append(c, j, last) == JoinSep(ps + [last], c)
  {
    if ps == [] {
      assert ps + [last] == [last];
    } else {
      JoinSepSnoc(ps, last, c);
    }
  }

  /** A join of non-empty pieces that do not end in `c` does not end in `c` either. */
  lemma JoinedEnd(c: char, acc: seq<char>, init: seq<seq<char>>)
    requires acc == [] || acc[|acc| - 1] != c
    requires forall i :: 0 <= i < |init| ==> init[i] != [] && c !in init[i]
    requires JoinedPieces(acc, init) != []
    ensures var j := JoinSep(JoinedPieces(acc, init), c); j != [] && j[|j| - 1] != c
  {
    var ps := JoinedPieces(acc, init);
    var x := ps[|ps| - 1];
    if init == [] {
      assert ps == [acc];
    } else {
      assert x == init[|init| - 1] && x[|x| - 1] in x;
    }
    JoinSepLast(ps, c);
  }

  /** The join of pieces whose last one is non-empty ends as that piece ends. */
  lemma {:induction false} JoinSepLast(ps: seq<Piece>, c: char)
    requires ps != [] && ps[|ps| - 1] != []
    ensures JoinSep(ps, c) != [] && JoinSep(ps, c)[|JoinSep(ps, c)| - 1] == ps[|ps| - 1][|ps[|ps| - 1]| - 1]
    decreases |ps|
  {
    if |ps| > 1 {
      assert ps[1..][|ps[1..]| - 1] == ps[|ps| - 1];
      JoinSepLast(ps[1..], c);
    }
  }

  /** `ex_abspath_to(b, r)` resolves what joining `r` onto `b` resolves, when `b` does not end in a separator. */
  lemma AbsPathToIsJoin(p: Platform, base: seq<char>, rel: seq<char>)
    requires base != [] && base[|base| - 1] != Sep(p)
    ensures Resolve(p, JoinAll(Sep(p), base, [rel])) == Resolve(p, base + [Sep(p)] + rel)
  {
    JoinOne(Sep(p), base, rel);
  }

  lemma JoinOne(c: char, acc: seq<char>, part: seq<char>)
    ensures JoinAll(c, acc, [part]) == Append(c, acc, part)
  {
    assert [part][..0] == [];
  }

  // ---------------------------------------------------------------------
  // Worked cases

  /** `("/a", "b", "c")` joins to `/a/b/c`. */
  lemma JoinTwo()
    ensures JoinAll('/', "/a", ["b", "c"]) == "/a/b/c"
  {
    assert ["b", "c"][..1] == ["b"] && ["b"][..0] == [];
  }

  /** `("/a/", "b")` joins to `/a/b`: no second separator. */
  lemma JoinAfterSeparator()
    ensures JoinAll('/', "/a/", ["b"]) == "/a/b"
  {
    assert ["b"][..0] == [];
  }

  /** `("", "b")` joins to `b`: no separator in front. */
  lemma JoinOntoEmpty()
    ensures JoinAll('/', "", ["b"]) == "b"
  {
    assert ["b"][..0] == [];
  }

  /** A part that starts with a separator keeps it: `("/a/", "/b")` joins to `/a//b`. */
  lemma JoinKeepsPartSeparator()
    ensures JoinAll('/', "/a/", ["/b"]) == "/a//b"
  {
    assert ["/b"][..0] == [];
  }

  // ---------------------------------------------------------------------
  // The parent by join and resolve

  /**
   * Joining `..` onto a non-empty resolved path and resolving again drops
   * its last piece. A path of one piece after the empty root piece, such
   * as `/a`, therefore has the empty path as its parent.
   */
  lemma ParentOfResolved(p: Platform, s: seq<char>)
    requires Resolve(p, s).Some? && Resolve(p, s).value != []
    ensures var r, c := Resolve(p, s).value, Sep(p);
      && Split(r, c) != []
      && Resolve(p, JoinAll(c, r, [".."])) == Some(JoinSep(Split(r, c)[..|Split(r, c)| - 1], c))
  {
    var r, c := Resolve(p, s).value, Sep(p);
    var ps := Pass([], Pieces(p, s)).value;
    assert r == JoinSep(ps, c) && RootOk(p, ps);
    KeptPieces(p, s);
    ResolveShape(p, s);
    assert ps != [] && ps != [[]];
    SplitJoin(ps, c);
    var t := JoinAll(c, r, [".."]);
    JoinOne(c, r, "..");
    assert t == r + [c] + "..";
    ResolveDropLast(p, ps, t);
  }

  /** The empty path has no parent: joining `..` onto it fails to resolve. */
  lemma ParentOfEmpty(p: Platform)
    ensures Resolve(p, JoinAll(Sep(p), [], [".."])) == None
  {
    JoinOne(Sep(p), [], "..");
    assert Append(Sep(p), [], "..") == "..";
    assert Plain([".."]) && JoinSep([".."], '/') == "..";
    ResolveJoined(p, [".."], "..");
  }

}
