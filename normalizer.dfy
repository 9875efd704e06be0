/**
 * The separator normaliser: `_wstr_replace` and `ex_fix_path`
 * (common/libex/src/ex_path.cpp, lines 5-29).
 */
module Normalizer {
  import opened Wrappers
  import opened WideStr

  /** No two adjacent copies of `c` in `s`. */
  predicate NoDouble(s: seq<char>, c: char)
  {
    forall i :: 0 <= i < |s| - 1 ==> !(s[i] == c && s[i + 1] == c)
  }

  /** `s` with every character of `cs` removed, order kept. */
  function Strip(s: seq<char>, cs: set<char>): seq<char>
  {
    if s == [] then [] else (if s[0] in cs then [] else [s[0]]) + Strip(s[1..], cs)
  }

  /** `s` with every `a` replaced by `b`. */
  function MapChar(s: seq<char>, a: char, b: char): seq<char>
  {
    seq(|s|, i requires 0 <= i < |s| => if s[i] == a then b else s[i])
  }

  /** `s` with every run of `c` shortened to one `c`. */
  function Collapse(s: seq<char>, c: char): seq<char>
    decreases |s|
  {
    if |s| < 2 then s
    else if s[0] == c && s[1] == c then Collapse(s[1..], c)
    else [s[0]] + Collapse(s[1..], c)
  }

  /**
   * The two calls `ex_fix_path` makes of `_wstr_replace`: a one-character
   * swap (`"/"` by `"\\"`) and a doubled character by a single one. For
   * both, the unsigned advance `len_to - len_from + 1` is 1 or 0.
   */
  predicate IsUsedReplacement(from: seq<char>, to: seq<char>)
  {
    || (|from| == 1 && |to| == 1 && from[0] != to[0])
    || (|from| == 2 && |to| == 1 && from[0] == to[0] && from[1] == to[0])
  }

  /** What replacing every occurrence of `from` by `to` yields for those two calls. */
  function Replaced(s: seq<char>, from: seq<char>, to: seq<char>): seq<char>
    requires IsUsedReplacement(from, to)
  {
    if |from| == 1 then MapChar(s, from[0], to[0]) else Collapse(s, to[0])
  }

  /** Separator normalisation, as `ex_fix_path` does it on each platform. */
  function Fixed(p: Platform, s: seq<char>): seq<char>
  {
    match p
    case Windows => Collapse(MapChar(s, '/', '\\'), '\\')
    case Posix => Collapse(s, '/')
  }

  /** The characters `ex_fix_path` treats as separators. */
  function Seps(p: Platform): set<char>
  {
    match p
    case Windows => {'/', '\\'}
    case Posix => {'/'}
  }

  /**
   * `_wstr_replace`: find `from` at or after `pos`, replace it by `to`, and
   * search again from `pos + len_to - len_from + 1`. For the collapse the
   * advance is 0, so the same place is searched again and a run of any
   * length ends up as one character.
   */
  method ReplaceAll(s: seq<char>, from: seq<char>, to: seq<char>) returns (r: seq<char>)
    requires IsUsedReplacement(from, to)
    ensures r == Replaced(s, from, to)
  {
    r := s;
    var pos: nat := 0;
    var hit := Find(r, from, pos);
    while hit.Some?
      invariant pos <= |r|
      invariant hit == Find(r, from, pos)
      invariant forall j :: 0 <= j < pos ==> !Occurs(r, from, j)
      invariant Replaced(r, from, to) == Replaced(s, from, to)
      decreases |r| - pos
    {
      var k := hit.value;
      ReplaceStep(r, from, to, k);
      r := r[..k] + to + r[k + |from|..];
      pos := k + |to| - |from| + 1;
      hit := Find(r, from, pos);
    }
    NothingToReplace(r, from, to);
  }

  /** `ex_fix_path` on the text of its argument. */
  method FixPath(p: Platform, path: CString) returns (r: seq<char>)
    ensures r == Fixed(p, path)
  {
    r := path;
    match p
    case Windows =>
      r := ReplaceAll(r, "/", "\\");
      r := ReplaceAll(r, "\\\\", "\\");
    case Posix =>
      r := ReplaceAll(r, "//", "/");
  }

  // ---------------------------------------------------------------------
  // The replacement loop

  lemma OccursOne(s: seq<char>, a: char, i: int)
    ensures Occurs(s, [a], i) <==> 0 <= i < |s| && s[i] == a
  {
    if 0 <= i < |s| && s[i] == a {
      assert s[i..i + 1] == [a];
    }
  }

  lemma OccursPair(s: seq<char>, c: char, i: int)
    ensures Occurs(s, [c, c], i) <==> 0 <= i && i + 1 < |s| && s[i] == c && s[i + 1] == c
  {
    if 0 <= i && i + 1 < |s| && s[i] == c && s[i + 1] == c {
      assert s[i..i + 2] == [c, c];
    }
    if Occurs(s, [c, c], i) {
      assert s[i..i + 2][0] == s[i] && s[i..i + 2][1] == s[i + 1];
    }
  }

  /** One replacement keeps the final result and leaves no match before the next search point. */
  lemma ReplaceStep(r: seq<char>, from: seq<char>, to: seq<char>, k: nat)
    requires IsUsedReplacement(from, to)
    requires Occurs(r, from, k)
    requires forall j :: 0 <= j < k ==> !Occurs(r, from, j)
    ensures var r' := r[..k] + to + r[k + |from|..];
      && Replaced(r', from, to) == Replaced(r, from, to)
      && k + |to| - |from| + 1 <= |r'|
      && forall j :: 0 <= j < k + |to| - |from| + 1 ==> !Occurs(r', from, j)
  {
    var r' := r[..k] + to + r[k + |from|..];
    if |from| == 1 {
      var a, b := from[0], to[0];
      assert from == [a];
      OccursOne(r, a, k);
      assert r' == r[k := b];
      assert MapChar(r', a, b) == MapChar(r, a, b);
      forall j | 0 <= j < k + 1
        ensures !Occurs(r', from, j)
      {
        OccursOne(r, a, j);
        OccursOne(r', a, j);
      }
    } else {
      var c := to[0];
      assert from == [c, c];
      OccursPair(r, c, k);
      assert r == r[..k] + [c, c] + r[k + 2..];
      assert r' == r[..k] + [c] + r[k + 2..];
      CollapseDrop(r[..k], r[k + 2..], c);
      forall j | 0 <= j < k
        ensures !Occurs(r', from, j)
      {
        OccursPair(r, c, j);
        OccursPair(r', c, j);
      }
    }
  }

  /** With no occurrence of `from` left, there is nothing to replace. */
  lemma NothingToReplace(r: seq<char>, from: seq<char>, to: seq<char>)
    requires IsUsedReplacement(from, to)
    requires forall j :: 0 <= j ==> !Occurs(r, from, j)
    ensures Replaced(r, from, to) == r
  {
    if |from| == 1 {
      assert from == [from[0]];
      forall i | 0 <= i < |r| ensures r[i] != from[0] {
        OccursOne(r, from[0], i);
      }
    } else {
      var c := to[0];
      assert from == [c, c];
      forall i | 0 <= i < |r| - 1 ensures !(r[i] == c && r[i + 1] == c) {
        OccursPair(r, c, i);
      }
      CollapseIdentity(r, c);
    }
  }

  // ---------------------------------------------------------------------
  // Properties of Collapse

  lemma {:induction false} CollapseHead(s: seq<char>, c: char)
    requires |s| > 0
    ensures |Collapse(s, c)| > 0 && Collapse(s, c)[0] == s[0]
    decreases |s|
  {
    if |s| >= 2 && s[0] == c && s[1] == c {
      CollapseHead(s[1..], c);
    }
  }

  /** Collapsing `c` leaves no doubled `c`. */
  /** A second character that is not `c` survives the collapse of `c`. */
  lemma CollapseSecond(s: seq<char>, c: char)
    requires |s| >= 2 && s[1] != c
    ensures |Collapse(s, c)| >= 2 && Collapse(s, c)[1] == s[1]
  {
    assert Collapse(s, c) == [s[0]] + Collapse(s[1..], c);
    CollapseHead(s[1..], c);
  }

  lemma {:induction false} CollapseNoDouble(s: seq<char>, c: char)
    ensures NoDouble(Collapse(s, c), c)
    decreases |s|
  {
    if |s| >= 2 {
      CollapseNoDouble(s[1..], c);
      if !(s[0] == c && s[1] == c) {
        CollapseHead(s[1..], c);
      }
    }
  }

  /** A text without a doubled `c` is left alone. */
  lemma {:induction false} CollapseIdentity(s: seq<char>, c: char)
    requires NoDouble(s, c)
    ensures Collapse(s, c) == s
    decreases |s|
  {
    if |s| >= 2 {
      CollapseIdentity(s[1..], c);
      assert [s[0]] + s[1..] == s;
    }
  }

  /** Replacing one doubled `c` by a single one does not change the collapsed text. */
  lemma {:induction false} CollapseDrop(a: seq<char>, b: seq<char>, c: char)
    ensures Collapse(a + [c, c] + b, c) == Collapse(a + [c] + b, c)
    decreases |a|
  {
    if a == [] {
      assert ([c, c] + b)[1..] == [c] + b;
    } else {
      var s1, s2 := a + [c, c] + b, a + [c] + b;
      assert s1[1..] == a[1..] + [c, c] + b;
      assert s2[1..] == a[1..] + [c] + b;
      assert s1[1] == s2[1];
      CollapseDrop(a[1..], b, c);
    }
  }

  /** Collapsing `c` keeps every other character, in order. */
  lemma {:induction false} CollapseStrip(s: seq<char>, c: char, cs: set<char>)
    requires c in cs
    ensures Strip(Collapse(s, c), cs) == Strip(s, cs)
    decreases |s|
  {
    if |s| >= 2 {
      CollapseStrip(s[1..], c, cs);
      if !(s[0] == c && s[1] == c) {
        assert ([s[0]] + Collapse(s[1..], c))[1..] == Collapse(s[1..], c);
      }
    }
  }

  /** Collapsing brings in no new character. */
  lemma {:induction false} CollapseChars(s: seq<char>, c: char, x: char)
    requires x in Collapse(s, c)
    ensures x in s
    decreases |s|
  {
    if |s| >= 2 {
      if x in Collapse(s[1..], c) {
        CollapseChars(s[1..], c, x);
      }
    }
  }

  lemma {:induction false} MapCharStrip(s: seq<char>, a: char, b: char, cs: set<char>)
    requires a in cs && b in cs
    ensures Strip(MapChar(s, a, b), cs) == Strip(s, cs)
    decreases |s|
  {
    if s != [] {
      assert MapChar(s, a, b)[1..] == MapChar(s[1..], a, b);
      MapCharStrip(s[1..], a, b, cs);
    }
  }

  // ---------------------------------------------------------------------
  // Properties of ex_fix_path

  /**
   * The normalised text has no doubled separator and, on Windows, no `/`;
   * every non-separator character is kept, in order, and no other
   * character comes in.
   */
  lemma FixedShape(p: Platform, s: seq<char>)
    ensures NoDouble(Fixed(p, s), Sep(p))
    ensures p == Windows ==> '/' !in Fixed(p, s)
    ensures Strip(Fixed(p, s), Seps(p)) == Strip(s, Seps(p))
    ensures forall x :: x in Fixed(p, s) && x != Sep(p) ==> x in s
  {
    match p
    case Windows =>
      var m := MapChar(s, '/', '\\');
      CollapseNoDouble(m, '\\');
      if '/' in Fixed(p, s) {
        CollapseChars(m, '\\', '/');
      }
      CollapseStrip(m, '\\', Seps(p));
      MapCharStrip(s, '/', '\\', Seps(p));
      forall x | x in Fixed(p, s) && x != '\\' ensures x in s {
        CollapseChars(m, '\\', x);
        var i :| 0 <= i < |m| && m[i] == x;
        assert s[i] == x;
      }
    case Posix =>
      CollapseNoDouble(s, '/');
      CollapseStrip(s, '/', Seps(p));
      forall x | x in Fixed(p, s) ensures x in s {
        CollapseChars(s, '/', x);
      }
  }

  /** `ex_fix_path` leaves a text alone exactly when it is already normal. */
  lemma FixedIsIdentity(p: Platform, s: seq<char>)
    ensures Fixed(p, s) == s <==> NoDouble(s, Sep(p)) && (p == Windows ==> '/' !in s)
  {
    if NoDouble(s, Sep(p)) && (p == Windows ==> '/' !in s) {
      if p == Windows {
        assert MapChar(s, '/', '\\') == s;
      }
      CollapseIdentity(s, Sep(p));
    }
    if Fixed(p, s) == s {
      FixedShape(p, s);
    }
  }

  /** Normalising twice is normalising once. */
  lemma FixedIdempotent(p: Platform, s: seq<char>)
    ensures Fixed(p, Fixed(p, s)) == Fixed(p, s)
  {
    FixedShape(p, s);
    FixedIsIdentity(p, Fixed(p, s));
  }

}
