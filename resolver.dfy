/**
 * The resolver `ex_abspath(ex_wstr&)` (common/libex/src/ex_path.cpp,
 * lines 242-321): normalise the separators, split the text into pieces,
 * erase `.` and `..` pieces, and join what is left with the separator.
 */
module Resolver {
  import opened Wrappers
  import opened WideStr
  import opened Normalizer

  /** The text between two separators; only the first piece of a path can be empty. */
  type Piece = seq<char>

  /**
   * The pieces the pointer walk pushes: the text before every separator,
   * so a leading separator gives an empty first piece, then the text after
   * the last separator when it is not empty.
   */
  function Split(s: seq<char>, c: char): seq<Piece>
    decreases |s|
  {
    match IndexOf(s, c)
    case None => if |s| > 0 then [s] else []
    case Some(k) => [s[..k]] + Split(s[k + 1..], c)
  }

  /** The pieces joined with `c` between them. */
  function JoinSep(ps: seq<Piece>, c: char): seq<char>
    decreases |ps|
  {
    if ps == [] then []
    else if |ps| == 1 then ps[0]
    else ps[0] + [c] + JoinSep(ps[1..], c)
  }

  /** A piece the elimination keeps as it is. */
  predicate Normal(x: Piece)
  {
    x != "." && x != ".."
  }

  predicate AllNormal(xs: seq<Piece>)
  {
    forall i :: 0 <= i < |xs| ==> Normal(xs[i])
  }

  /** Every piece but the first is non-empty. */
  predicate TailNonEmpty(xs: seq<Piece>)
  {
    forall i :: 0 < i < |xs| ==> xs[i] != []
  }

  /**
   * The one-pass reading of the elimination: left to right over `rest`,
   * skip `.`, pop on `..` (fail when nothing is left to pop), push
   * anything else.
   */
  function Pass(stack: seq<Piece>, rest: seq<Piece>): Option<seq<Piece>>
    decreases |rest|
  {
    if rest == [] then Some(stack)
    else if rest[0] == ".." then
      if stack == [] then None else Pass(stack[..|stack| - 1], rest[1..])
    else if rest[0] == "." then Pass(stack, rest[1..])
    else Pass(stack + [rest[0]], rest[1..])
  }

  /**
   * The Windows test on the first remaining piece: the character at index
   * 1 is `:`. A one-character piece reads its terminator there; an empty
   * piece would be read out of bounds, and is taken as a failure too.
   */
  predicate HasDrive(x: Piece)
  {
    |x| >= 2 && x[1] == ':'
  }

  /** The root check of the rejoin: there is none on POSIX. */
  predicate RootOk(p: Platform, ps: seq<Piece>)
  {
    p == Posix || ps == [] || HasDrive(ps[0])
  }

  /** The pieces of a path after normalisation of the text `c_str()` gives. */
  function Pieces(p: Platform, s: seq<char>): seq<Piece>
  {
    Split(Fixed(p, CStr(s)), Sep(p))
  }

  /**
   * The verdict of `ex_abspath` and the value its in/out argument has
   * afterwards: unchanged when a `..` cancels nothing, since that return
   * comes before the argument is cleared; empty when the Windows root check
   * fails, since it comes after.
   */
  function AbsPathOutcome(p: Platform, s: seq<char>): (bool, seq<char>)
  {
    match Pass([], Pieces(p, s))
    case None => (false, s)
    case Some(ps) => if RootOk(p, ps) then (true, JoinSep(ps, Sep(p))) else (false, [])
  }

  /** The resolved path, when resolution succeeds. */
  function Resolve(p: Platform, s: seq<char>): Option<seq<char>>
  {
    var (ok, out) := AbsPathOutcome(p, s);
    if ok then Some(out) else None
  }

  // ---------------------------------------------------------------------
  // The three phases of ex_abspath

  /** The split phase: `_str` walks the text from separator to separator. */
  method SplitPath(s: seq<char>, c: char) returns (pieces: seq<Piece>)
    ensures pieces == Split(s, c)
    ensures forall x :: x in pieces ==> c !in x
    ensures JoinSep(pieces, c) == DropTrailing(s, c)
  {
    pieces := [];
    var rest := s;
    var hit := IndexOf(rest, c);
    while hit.Some?
      invariant hit == IndexOf(rest, c)
      invariant pieces + Split(rest, c) == Split(s, c)
      decreases |rest|
    {
      var k := hit.value;
      assert Split(rest, c) == [rest[..k]] + Split(rest[k + 1..], c);
      assert pieces + [rest[..k]] + Split(rest[k + 1..], c) == pieces + Split(rest, c);
      pieces := pieces + [rest[..k]];
      rest := rest[k + 1..];
      hit := IndexOf(rest, c);
    }
    if |rest| > 0 {
      assert Split(rest, c) == [rest];
      pieces := pieces + [rest];
    } else {
      assert pieces + [] == pieces;
    }
    SplitPieces(s, c);
    JoinSplit(s, c);
  }

  /**
   * The elimination phase: erase a `.`, or a `..` with the piece before it,
   * and start again from the head; a `..` at the head fails. It computes
   * exactly the one-pass stack reading.
   */
  method Eliminate(pieces: seq<Piece>) returns (r: Option<seq<Piece>>)
    ensures r == Pass([], pieces)
  {
    var paths := pieces;
    var it := 0;
    while it < |paths|
      invariant it <= |paths|
      invariant AllNormal(paths[..it])
      invariant Pass([], paths) == Pass([], pieces)
      decreases |paths|, |paths| - it
    {
      if paths[it] == ".." {
        if it == 0 {
          assert Pass([], paths) == None;
          return None;
        }
        EraseParent(paths, it);
        paths := paths[..it - 1] + paths[it + 1..];
        it := 0;
      } else if paths[it] == "." {
        EraseDot(paths, it);
        paths := paths[..it] + paths[it + 1..];
        it := 0;
      } else {
        assert paths[..it + 1] == paths[..it] + [paths[it]];
        it := it + 1;
      }
    }
    assert paths[..it] == paths;
    PassAllNormal(paths);
    r := Some(paths);
  }

  /**
   * The rejoin phase: clear the output, test the root of the first piece
   * (Windows only), and append the pieces with a separator between them.
   */
  method Rejoin(p: Platform, ps: seq<Piece>) returns (ok: bool, out: seq<char>)
    ensures ok == RootOk(p, ps)
    ensures ok ==> out == JoinSep(ps, Sep(p))
    ensures !ok ==> out == []
  {
    out := [];
    var isFirst := true;
    var i := 0;
    while i < |ps|
      invariant i <= |ps|
      invariant isFirst <==> i == 0
      invariant i > 0 ==> RootOk(p, ps)
      invariant out == JoinSep(ps[..i], Sep(p))
    {
      if isFirst && p == Windows && !HasDrive(ps[i]) {
        return false, out;
      }
      if !isFirst {
        JoinSepSnoc(ps[..i], ps[i], Sep(p));
        out := out + [Sep(p)];
      }
      assert ps[..i + 1] == ps[..i] + [ps[i]];
      out := out + ps[i];
      isFirst := false;
      i := i + 1;
    }
    assert ps[..i] == ps;
    ok := true;
  }

  /** `ex_abspath(ex_wstr&)`: `path` is the argument's value before the call, `out` after it. */
  method AbsPath(p: Platform, path: seq<char>) returns (ok: bool, out: seq<char>)
    ensures (ok, out) == AbsPathOutcome(p, path)
  {
    var fixed := FixPath(p, CStr(path));
    var pieces := SplitPath(fixed, Sep(p));
    var kept := Eliminate(pieces);
    if kept.None? {
      return false, path;
    }
    ok, out := Rejoin(p, kept.value);
  }

  // ---------------------------------------------------------------------
  // Split and JoinSep

  lemma {:induction false} SplitPieces(s: seq<char>, c: char)
    ensures forall x :: x in Split(s, c) ==> c !in x
    ensures forall x, ch :: x in Split(s, c) && ch in x ==> ch in s
    decreases |s|
  {
    match IndexOf(s, c)
    case None =>
    case Some(k) =>
      SplitPieces(s[k + 1..], c);
  }

  lemma {:induction false} SplitNonEmpty(s: seq<char>, c: char)
    requires NoDouble(s, c)
    requires s == [] || s[0] != c
    ensures forall i :: 0 <= i < |Split(s, c)| ==> Split(s, c)[i] != []
    decreases |s|
  {
    match IndexOf(s, c)
    case None =>
    case Some(k) =>
      assert k > 0;
      var rest := s[k + 1..];
      assert rest != [] ==> rest[0] == s[k + 1] && s[k] == c;
      SplitNonEmpty(rest, c);
  }

  /** On a text with no doubled separator, only the first piece can be empty. */
  lemma SplitTailNonEmpty(s: seq<char>, c: char)
    requires NoDouble(s, c)
    ensures TailNonEmpty(Split(s, c))
  {
    match IndexOf(s, c)
    case None =>
    case Some(k) =>
      var rest := s[k + 1..];
      assert rest != [] ==> rest[0] == s[k + 1] && s[k] == c;
      SplitNonEmpty(rest, c);
  }

  /** The first piece of a non-empty text is its longest prefix without `c`. */
  lemma FirstPiece(s: seq<char>, c: char)
    ensures s != [] <==> Split(s, c) != []
    ensures s != [] ==> var x := Split(s, c)[0];
      && |x| <= |s| && x == s[..|x|] && c !in x
      && (|x| < |s| ==> s[|x|] == c)
  {
    match IndexOf(s, c)
    case None =>
      if s != [] {
        assert Split(s, c) == [s];
      }
    case Some(k) =>
      assert Split(s, c)[0] == s[..k];
  }

  /** The text less one trailing `c`, if it has one. */
  function DropTrailing(s: seq<char>, c: char): seq<char>
  {
    if s != [] && s[|s| - 1] == c then s[..|s| - 1] else s
  }

  /** Splitting and joining again gives the text back, less a trailing separator. */
  lemma {:induction false} JoinSplit(s: seq<char>, c: char)
    ensures JoinSep(Split(s, c), c) == DropTrailing(s, c)
    decreases |s|
  {
    match IndexOf(s, c)
    case None =>
      JoinSplitNoSep(s, c);
    case Some(k) =>
      var x, rest := s[..k], s[k + 1..];
      if rest == [] {
        JoinSplitLastSep(s, c, k);
      } else {
        JoinSplit(rest, c);
        JoinSplitSome(s, c, k);
      }
  }

  /** The text up to the first separator is one piece, and the rest is split on. */
  lemma JoinSplitSome(s: seq<char>, c: char, k: nat)
    requires IndexOf(s, c) == Some(k) && k < |s| - 1
    requires JoinSep(Split(s[k + 1..], c), c) == DropTrailing(s[k + 1..], c)
    ensures JoinSep(Split(s, c), c) == DropTrailing(s, c)
  {
    var x, rest := s[..k], s[k + 1..];
    CutAt(s, k);
    assert s == x + [c] + rest;
    assert Split(s, c) == [x] + Split(rest, c);
    JoinSplitCons(x, rest, c);
  }

  lemma JoinSplitNoSep(s: seq<char>, c: char)
    requires c !in s
    ensures JoinSep(Split(s, c), c) == DropTrailing(s, c) == s
  {
    if s != [] {
      assert s[|s| - 1] in s;
    }
  }

  lemma JoinSplitLastSep(s: seq<char>, c: char, k: nat)
    requires IndexOf(s, c) == Some(k) && k == |s| - 1
    ensures JoinSep(Split(s, c), c) == DropTrailing(s, c) == s[..k]
  {
    assert s[k + 1..] == [];
    assert Split(s, c) == [s[..k]];
  }

  lemma CutAt(s: seq<char>, k: nat)
    requires k < |s|
    ensures s == s[..k] + [s[k]] + s[k + 1..]
  {
  }

  /** The inductive step of `JoinSplit`: one more piece in front. */
  lemma JoinSplitCons(x: Piece, rest: seq<char>, c: char)
    requires rest != []
    requires JoinSep(Split(rest, c), c) == DropTrailing(rest, c)
    ensures JoinSep([x] + Split(rest, c), c) == DropTrailing(x + [c] + rest, c)
  {
    var tail := Split(rest, c);
    assert tail != [] by {
      if IndexOf(rest, c).None? {
        assert tail == [rest];
      }
    }
    JoinSepCons(x, tail, c);
    DropTrailingAfter(x + [c], rest, c);
  }

  lemma DropTrailingAfter(a: seq<char>, b: seq<char>, c: char)
    requires b != []
    ensures DropTrailing(a + b, c) == a + DropTrailing(b, c)
  {
    if b[|b| - 1] == c {
      assert (a + b)[..|a + b| - 1] == a + b[..|b| - 1];
    }
  }

  lemma JoinSepCons(x: Piece, tail: seq<Piece>, c: char)
    requires tail != []
    ensures JoinSep([x] + tail, c) == x + [c] + JoinSep(tail, c)
  {
    assert ([x] + tail)[1..] == tail;
  }

  /** Joining separator-free pieces and splitting again gives the pieces back. */
  lemma {:induction false} SplitJoin(ps: seq<Piece>, c: char)
    requires forall x :: x in ps ==> c !in x
    requires TailNonEmpty(ps) && ps != [[]]
    ensures Split(JoinSep(ps, c), c) == ps
    decreases |ps|
  {
    if |ps| == 1 {
      assert ps[0] in ps;
      assert IndexOf(ps[0], c) == None;
    } else if |ps| > 1 {
      assert ps[0] in ps;
      SplitCons(ps[0], c, JoinSep(ps[1..], c));
      assert ps[1..][0] == ps[1];
      SplitJoin(ps[1..], c);
      assert [ps[0]] + ps[1..] == ps;
    }
  }

  /** A piece without `c`, then `c`: splitting takes off exactly that piece. */
  lemma SplitCons(x: seq<char>, c: char, j: seq<char>)
    requires c !in x
    ensures Split(x + [c] + j, c) == [x] + Split(j, c)
  {
    var s := x + [c] + j;
    IndexOfAfter(x, c, j);
    assert s[..|x|] == x && s[|x| + 1..] == j;
  }

  lemma {:induction false} JoinSepSnoc(ps: seq<Piece>, y: Piece, c: char)
    requires ps != []
    ensures JoinSep(ps + [y], c) == JoinSep(ps, c) + [c] + y
    decreases |ps|
  {
    assert (ps + [y])[1..] == ps[1..] + [y];
    if |ps| > 1 {
      JoinSepSnoc(ps[1..], y, c);
    }
  }

  lemma NoDoubleConcat(a: seq<char>, b: seq<char>, c: char)
    requires NoDouble(a, c) && NoDouble(b, c)
    requires a == [] || b == [] || !(a[|a| - 1] == c && b[0] == c)
    ensures NoDouble(a + b, c)
  {
    var s := a + b;
    forall i | 0 <= i < |s| - 1
      ensures !(s[i] == c && s[i + 1] == c)
    {
      if i + 1 < |a| {
        assert s[i] == a[i] && s[i + 1] == a[i + 1];
      } else if i >= |a| {
        assert s[i] == b[i - |a|] && s[i + 1] == b[i - |a| + 1];
      }
    }
  }

  /**
   * Joining separator-free pieces of which only the first may be empty
   * gives a text with no doubled separator and no trailing one.
   */
  lemma {:induction false} JoinSepShape(ps: seq<Piece>, c: char)
    requires forall x :: x in ps ==> c !in x
    requires TailNonEmpty(ps)
    ensures NoDouble(JoinSep(ps, c), c)
    ensures |ps| >= 2 ==> |JoinSep(ps, c)| > |ps[0]| + 1 && JoinSep(ps, c)[|ps[0]| + 1] != c
    ensures JoinSep(ps, c) == [] || JoinSep(ps, c)[|JoinSep(ps, c)| - 1] != c
    decreases |ps|
  {
    if |ps| == 1 {
      assert ps[0] in ps;
    } else if |ps| > 1 {
      var x, rest := ps[0], ps[1..];
      assert x in ps && rest[0] in ps;
      JoinSepShape(rest, c);
      var j := JoinSep(rest, c);
      assert j != [] && j[0] == rest[0][0] by {
        if |rest| > 1 {
          assert j == rest[0] + [c] + JoinSep(rest[1..], c);
        }
      }
      assert NoDouble(x + [c], c) by {
        forall i | 0 <= i < |x| ensures (x + [c])[i] != c {
          assert (x + [c])[i] == x[i];
        }
      }
      NoDoubleConcat(x + [c], j, c);
      assert JoinSep(ps, c) == (x + [c]) + j;
    }
  }

  /** A character other than the separator that no piece holds is not in the joined text. */
  lemma {:induction false} JoinSepAvoids(ps: seq<Piece>, c: char, ch: char)
    requires ch != c && forall x :: x in ps ==> ch !in x
    ensures ch !in JoinSep(ps, c)
    decreases |ps|
  {
    if ps != [] {
      assert ps[0] in ps;
      assert forall x :: x in ps[1..] ==> x in ps;
      JoinSepAvoids(ps[1..], c, ch);
    }
  }

  // ---------------------------------------------------------------------
  // Pass

  /** A run of ordinary pieces is simply pushed. */
  lemma {:induction false} PassNormalPrefix(st: seq<Piece>, xs: seq<Piece>, ys: seq<Piece>)
    requires AllNormal(xs)
    ensures Pass(st, xs + ys) == Pass(st + xs, ys)
    decreases |xs|
  {
    if xs == [] {
      assert xs + ys == ys && st + xs == st;
    } else {
      assert (xs + ys)[0] == xs[0] && (xs + ys)[1..] == xs[1..] + ys;
      PassNormalPrefix(st + [xs[0]], xs[1..], ys);
      assert st + [xs[0]] + xs[1..] == st + xs;
    }
  }

  /** Ordinary pieces only: the pass returns them all. */
  lemma PassAllNormal(xs: seq<Piece>)
    requires AllNormal(xs)
    ensures Pass([], xs) == Some(xs)
  {
    PassNormalPrefix([], xs, []);
    assert xs + [] == xs && [] + xs == xs;
  }

  /** Erasing a `..` with the piece before it, behind normal pieces only, is a pop of the stack pass. */
  lemma EraseParent(paths: seq<Piece>, it: nat)
    requires 0 < it < |paths| && paths[it] == ".." && AllNormal(paths[..it])
    ensures Pass([], paths) == Pass([], paths[..it - 1] + paths[it + 1..])
  {
    var front, before, after := paths[..it], paths[..it - 1], paths[it + 1..];
    PassFront(paths, it);
    assert front[..|front| - 1] == before;
    assert Pass(front, paths[it..]) == Pass(before, after);
    assert AllNormal(before) by {
      forall i | 0 <= i < |before| ensures Normal(before[i]) {
        assert before[i] == front[i];
      }
    }
    PassNormalPrefix([], before, after);
    assert [] + before == before;
  }

  /** Erasing a `.` behind normal pieces only is a skip of the stack pass. */
  lemma EraseDot(paths: seq<Piece>, it: nat)
    requires it < |paths| && paths[it] == "." && AllNormal(paths[..it])
    ensures Pass([], paths) == Pass([], paths[..it] + paths[it + 1..])
  {
    PassFront(paths, it);
    assert Pass(paths[..it], paths[it..]) == Pass(paths[..it], paths[it + 1..]);
    PassNormalPrefix([], paths[..it], paths[it + 1..]);
    assert [] + paths[..it] == paths[..it];
  }

  /** Normal pieces at the front go straight onto the stack. */
  lemma PassFront(paths: seq<Piece>, it: nat)
    requires it < |paths| && AllNormal(paths[..it])
    ensures Pass([], paths) == Pass(paths[..it], paths[it..])
    ensures paths[it..][0] == paths[it] && paths[it..][1..] == paths[it + 1..]
  {
    assert paths == paths[..it] + paths[it..];
    PassNormalPrefix([], paths[..it], paths[it..]);
    assert [] + paths[..it] == paths[..it];
  }

  /** How a piece moves the height of the stack: `.` 0, `..` -1, anything else +1. */
  function Weight(x: Piece): int
  {
    if x == ".." then -1 else if x == "." then 0 else 1
  }

  /** The balance of a run of pieces. */
  function Net(xs: seq<Piece>): int
  {
    if xs == [] then 0 else Weight(xs[0]) + Net(xs[1..])
  }

  lemma NetPrefix(xs: seq<Piece>, k: nat)
    requires 1 <= k <= |xs|
    ensures Net(xs[..k]) == Weight(xs[0]) + Net(xs[1..][..k - 1])
  {
    assert xs[..k][0] == xs[0] && xs[..k][1..] == xs[1..][..k - 1];
  }

  /** The stack after one step of the pass, when the step does not fail. */
  function Step(st: seq<Piece>, x: Piece): seq<Piece>
    requires x == ".." ==> st != []
  {
    if x == ".." then st[..|st| - 1] else if x == "." then st else st + [x]
  }

  lemma PassStep(st: seq<Piece>, xs: seq<Piece>)
    requires xs != [] && (xs[0] == ".." ==> st != [])
    ensures Pass(st, xs) == Pass(Step(st, xs[0]), xs[1..])
    ensures |Step(st, xs[0])| == |st| + Weight(xs[0])
  {
  }

  /**
   * The pass fails exactly when some prefix holds more `..` than the stack
   * and the ordinary pieces before it can cancel; on success the result has
   * the stack's length plus that balance.
   */
  lemma {:induction false} PassCounts(st: seq<Piece>, xs: seq<Piece>)
    ensures Pass(st, xs).None? <==> exists k :: 0 <= k <= |xs| && |st| + Net(xs[..k]) < 0
    ensures Pass(st, xs).Some? ==> |Pass(st, xs).value| == |st| + Net(xs)
    decreases |xs|
  {
    assert Net(xs[..0]) == 0 by { assert xs[..0] == []; }
    if xs == [] {
      forall k | 0 <= k <= |xs| ensures |st| + Net(xs[..k]) >= 0 {
        assert xs[..k] == [];
      }
    } else if xs[0] == ".." && st == [] {
      NetPrefix(xs, 1);
      assert xs[1..][..0] == [];
    } else {
      var st' := Step(st, xs[0]);
      PassStep(st, xs);
      PassCounts(st', xs[1..]);
      if Pass(st, xs).None? {
        var k' :| 0 <= k' <= |xs[1..]| && |st'| + Net(xs[1..][..k']) < 0;
        NetPrefix(xs, k' + 1);
      } else {
        forall k | 0 <= k <= |xs| ensures |st| + Net(xs[..k]) >= 0 {
          if k >= 1 {
            NetPrefix(xs, k);
          }
        }
      }
    }
  }

  /** What the pass keeps comes from the stack or the input. */
  lemma {:induction false} PassKeepsFrom(st: seq<Piece>, xs: seq<Piece>)
    requires Pass(st, xs).Some?
    ensures forall x :: x in Pass(st, xs).value ==> x in st || x in xs
    decreases |xs|
  {
    if xs != [] {
      var st' := Step(st, xs[0]);
      PassStep(st, xs);
      PassKeepsFrom(st', xs[1..]);
      forall x | x in st' ensures x in st || x in xs {
        if xs[0] != ".." && xs[0] != "." && x == xs[0] {
          assert xs[0] in xs;
        }
      }
      assert forall x :: x in xs[1..] ==> x in xs;
    }
  }

  /** The pass keeps no `.` or `..` when the stack held none. */
  lemma {:induction false} PassKeepsNormal(st: seq<Piece>, xs: seq<Piece>)
    requires Pass(st, xs).Some? && AllNormal(st)
    ensures AllNormal(Pass(st, xs).value)
    decreases |xs|
  {
    if xs != [] {
      var st' := Step(st, xs[0]);
      PassStep(st, xs);
      assert AllNormal(st') by {
        forall i | 0 <= i < |st'| ensures Normal(st'[i]) {
          if i < |st| { assert st'[i] == st[i]; }
        }
      }
      PassKeepsNormal(st', xs[1..]);
    }
  }

  /** Pieces that were not first stay out of first place only if they are non-empty. */
  lemma {:induction false} PassKeepsTail(st: seq<Piece>, xs: seq<Piece>)
    requires Pass(st, xs).Some? && TailNonEmpty(st + xs)
    ensures TailNonEmpty(Pass(st, xs).value)
    decreases |xs|
  {
    if xs == [] {
      assert st + xs == st;
    } else {
      var st', xs' := Step(st, xs[0]), xs[1..];
      PassStep(st, xs);
      var all, all' := st + xs, st' + xs';
      forall i | 0 < i < |all'| ensures all'[i] != [] {
        if xs[0] == ".." {
          if i < |st'| { assert all'[i] == all[i]; } else { assert all'[i] == all[i + 2]; }
        } else if xs[0] == "." {
          if i < |st'| { assert all'[i] == all[i]; } else { assert all'[i] == all[i + 1]; }
        } else {
          assert all' == all;
        }
      }
      PassKeepsTail(st', xs');
    }
  }

  // ---------------------------------------------------------------------
  // Properties of ex_abspath

  /** The pieces a resolution keeps: ordinary, free of separators and NUL, only the first empty. */
  lemma KeptPieces(p: Platform, s: seq<char>)
    requires Pass([], Pieces(p, s)).Some?
    ensures var ps := Pass([], Pieces(p, s)).value;
      && AllNormal(ps) && TailNonEmpty(ps)
      && forall x :: x in ps ==> Sep(p) !in x && NUL !in x && (p == Windows ==> '/' !in x)
  {
    var t := Fixed(p, CStr(s));
    FixedShape(p, CStr(s));
    SplitPieces(t, Sep(p));
    SplitTailNonEmpty(t, Sep(p));
    PassKeepsFrom([], Pieces(p, s));
    PassKeepsNormal([], Pieces(p, s));
    PassKeepsTail([], Pieces(p, s));
    assert [] + Pieces(p, s) == Pieces(p, s);
  }

  /**
   * A resolved path has no doubled separator, no trailing separator, no
   * NUL, no `/` on Windows, and no piece `.` or `..`.
   */
  lemma ResolveShape(p: Platform, s: seq<char>)
    requires Resolve(p, s).Some?
    ensures var r := Resolve(p, s).value;
      && NoDouble(r, Sep(p))
      && (r == [] || r[|r| - 1] != Sep(p))
      && NUL !in r
      && (p == Windows ==> '/' !in r)
      && AllNormal(Split(r, Sep(p)))
  {
    var ps := Pass([], Pieces(p, s)).value;
    var r := Resolve(p, s).value;
    KeptPieces(p, s);
    JoinSepShape(ps, Sep(p));
    JoinSepAvoids(ps, Sep(p), NUL);
    if p == Windows {
      JoinSepAvoids(ps, Sep(p), '/');
    }
    if ps == [[]] {
      assert r == [];
    } else {
      SplitJoin(ps, Sep(p));
    }
  }

  /** Resolving a resolved path succeeds and changes nothing. */
  lemma ResolveIdempotent(p: Platform, s: seq<char>)
    requires Resolve(p, s).Some?
    ensures Resolve(p, Resolve(p, s).value) == Resolve(p, s)
  {
    var ps := Pass([], Pieces(p, s)).value;
    var r := Resolve(p, s).value;
    assert r == JoinSep(ps, Sep(p)) && RootOk(p, ps);
    KeptPieces(p, s);
    if ps == [] || ps == [[]] {
      assert r == [];
      assert Pieces(p, r) == [];
    } else {
      PiecesOfKept(p, ps);
      PassAllNormal(ps);
    }
  }

  /**
   * Pieces that a resolution could have kept, joined with the platform's
   * separator, split back into themselves.
   */
  lemma PiecesOfKept(p: Platform, ps: seq<Piece>)
    requires forall x :: x in ps ==> Sep(p) !in x && NUL !in x && (p == Windows ==> '/' !in x)
    requires TailNonEmpty(ps) && ps != [[]]
    ensures Pieces(p, JoinSep(ps, Sep(p))) == ps
  {
    var c := Sep(p);
    var j := JoinSep(ps, c);
    JoinSepAvoids(ps, c, NUL);
    JoinSepShape(ps, c);
    if p == Windows {
      JoinSepAvoids(ps, c, '/');
    }
    FixedIsIdentity(p, j);
    SplitJoin(ps, c);
  }

  /** A `..` after ordinary pieces drops the last of them. */
  lemma PassDropLast(ps: seq<Piece>)
    requires AllNormal(ps) && ps != []
    ensures Pass([], ps + [".."]) == Some(ps[..|ps| - 1])
  {
    PassNormalPrefix([], ps, [".."]);
    assert [] + ps == ps;
    assert Pass(ps, [".."]) == Pass(ps[..|ps| - 1], []);
  }

  /** Kept pieces followed by `..` resolve to all but the last of them. */
  lemma ResolveDropLast(p: Platform, ps: seq<Piece>, t: seq<char>)
    requires forall x :: x in ps ==> Sep(p) !in x && NUL !in x && (p == Windows ==> '/' !in x)
    requires AllNormal(ps) && TailNonEmpty(ps) && ps != [] && RootOk(p, ps)
    requires t == JoinSep(ps, Sep(p)) + [Sep(p)] + ".."
    ensures AbsPathOutcome(p, t) == (true, JoinSep(ps[..|ps| - 1], Sep(p)))
    ensures Resolve(p, t) == Some(JoinSep(ps[..|ps| - 1], Sep(p)))
  {
    var c := Sep(p);
    JoinSepSnoc(ps, "..", c);
    var ps' := ps + [".."];
    assert forall x :: x in ps' ==> x in ps || x == "..";
    assert TailNonEmpty(ps') by {
      forall i | 0 < i < |ps'| ensures ps'[i] != [] {
        if i < |ps| { assert ps'[i] == ps[i]; }
      }
    }
    PiecesOfKept(p, ps');
    PassDropLast(ps);
    assert RootOk(p, ps[..|ps| - 1]) by {
      if |ps| > 1 { assert ps[..|ps| - 1][0] == ps[0]; }
    }
  }

  // ---------------------------------------------------------------------
  // Paths written from plain pieces

  lemma {:induction false} MapCharJoin(ps: seq<Piece>, a: char, b: char)
    requires forall x :: x in ps ==> a !in x
    ensures MapChar(JoinSep(ps, a), a, b) == JoinSep(ps, b)
    decreases |ps|
  {
    if |ps| == 1 {
      assert ps[0] in ps;
    } else if |ps| > 1 {
      assert ps[0] in ps;
      MapCharJoin(ps[1..], a, b);
      var x, j := ps[0], JoinSep(ps[1..], a);
      var m := MapChar(x + [a] + j, a, b);
      assert m == x + [b] + MapChar(j, a, b) by {
        forall i | 0 <= i < |m| ensures m[i] == (x + [b] + MapChar(j, a, b))[i] {
          if i < |x| { assert (x + [a] + j)[i] == x[i]; }
          else if i > |x| { assert (x + [a] + j)[i] == j[i - |x| - 1]; }
        }
      }
    }
  }

  /**
   * Pieces a path can be written from: no separator of either platform
   * and no terminator inside a piece, only the first piece empty, and not
   * the lone empty piece.
   */
  predicate Plain(ps: seq<Piece>)
  {
    && (forall x :: x in ps ==> '/' !in x && '\\' !in x && NUL !in x)
    && TailNonEmpty(ps) && ps != [[]]
  }

  lemma PlainNoNul(ps: seq<Piece>)
    requires Plain(ps)
    ensures NUL !in JoinSep(ps, '/')
  {
    JoinSepAvoids(ps, '/', NUL);
  }

  /** Normalisation leaves a path written from plain pieces as it is, but for the Windows separator. */
  lemma FixedJoined(p: Platform, ps: seq<Piece>)
    requires Plain(ps)
    ensures Fixed(p, JoinSep(ps, '/')) == JoinSep(ps, Sep(p))
  {
    if p == Windows {
      MapCharJoin(ps, '/', '\\');
    }
    assert forall x :: x in ps ==> Sep(p) !in x;
    JoinSepShape(ps, Sep(p));
    CollapseIdentity(JoinSep(ps, Sep(p)), Sep(p));
  }

  /** A path written with `/` between plain pieces splits back into those pieces on both platforms. */
  lemma PiecesOfJoined(p: Platform, ps: seq<Piece>)
    requires Plain(ps)
    ensures Pieces(p, JoinSep(ps, '/')) == ps
  {
    PlainNoNul(ps);
    FixedJoined(p, ps);
    assert forall x :: x in ps ==> Sep(p) !in x;
    SplitJoin(ps, Sep(p));
  }

  /** Resolving a path written with `/` between plain pieces is the stack pass over those pieces. */
  lemma ResolveJoined(p: Platform, ps: seq<Piece>, s: seq<char>)
    requires Plain(ps) && s == JoinSep(ps, '/')
    ensures AbsPathOutcome(p, s) ==
      match Pass([], ps)
      case None => (false, s)
      case Some(r) => if RootOk(p, r) then (true, JoinSep(r, Sep(p))) else (false, [])
  {
    PiecesOfJoined(p, ps);
  }

  lemma {:induction false} SplitTrailing(s: seq<char>, c: char)
    requires s != [] && s[|s| - 1] != c
    ensures Split(s + [c], c) == Split(s, c)
    decreases |s|
  {
    match IndexOf(s, c)
    case None =>
      IndexOfAfter(s, c, []);
      assert s + [c] == s + [c] + [];
      assert (s + [c])[..|s|] == s && (s + [c])[|s| + 1..] == [];
    case Some(k) =>
      var rest := s[k + 1..];
      assert s == s[..k] + [c] + rest;
      IndexOfAfter(s[..k], c, rest + [c]);
      assert s + [c] == s[..k] + [c] + (rest + [c]);
      assert (s + [c])[..k] == s[..k] && (s + [c])[k + 1..] == rest + [c];
      assert rest != [] && rest[|rest| - 1] == s[|s| - 1];
      SplitTrailing(rest, c);
  }

  /** Normalising a path of plain pieces with a separator after it. */
  lemma FixedTrailing(p: Platform, ps: seq<Piece>)
    requires Plain(ps) && ps != []
    ensures Fixed(p, JoinSep(ps, '/') + "/") == JoinSep(ps, Sep(p)) + [Sep(p)]
    ensures JoinSep(ps, Sep(p)) != [] && JoinSep(ps, Sep(p))[|JoinSep(ps, Sep(p))| - 1] != Sep(p)
  {
    var s, j, c := JoinSep(ps, '/'), JoinSep(ps, Sep(p)), Sep(p);
    assert forall x :: x in ps ==> c !in x;
    JoinSepShape(ps, c);
    assert j != [] by {
      if |ps| == 1 {
        assert ps[0] != [];
      } else {
        assert j == ps[0] + [c] + JoinSep(ps[1..], c);
      }
    }
    if p == Windows {
      MapCharJoin(ps, '/', '\\');
      assert MapChar(s + "/", '/', '\\') == MapChar(s, '/', '\\') + "\\";
    }
    NoDoubleConcat(j, [c], c);
    CollapseIdentity(j + [c], c);
  }

  lemma PiecesTrailing(p: Platform, ps: seq<Piece>)
    requires Plain(ps) && ps != []
    ensures Pieces(p, JoinSep(ps, '/') + "/") == Pieces(p, JoinSep(ps, '/'))
  {
    var s := JoinSep(ps, '/');
    PlainNoNul(ps);
    assert NUL !in s + "/";
    FixedTrailing(p, ps);
    FixedJoined(p, ps);
    SplitTrailing(JoinSep(ps, Sep(p)), Sep(p));
  }

  /** A trailing separator after a path of plain pieces changes nothing. */
  lemma TrailingSeparatorIgnored(p: Platform, ps: seq<Piece>, s: seq<char>)
    requires Plain(ps) && ps != [] && s == JoinSep(ps, '/')
    ensures Resolve(p, s + "/") == Resolve(p, s)
  {
    PiecesTrailing(p, ps);
  }

}
