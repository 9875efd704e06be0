/**
 * The small queries on a path: `ex_is_abspath`, `ex_dirname` and
 * `ex_path_ext_name` (common/libex/src/ex_path.cpp, lines 39-55, 84-117
 * and 425-435).
 */
module PathQuery {
  import opened Wrappers
  import opened WideStr
  import opened Normalizer
  import opened Resolver
  import Joiner

  // ---------------------------------------------------------------------
  // ex_is_abspath

  /**
   * `ex_is_abspath`: a drive letter's colon on Windows, a leading `/` on
   * POSIX. Read against the resolver: on POSIX a path is absolute exactly
   * when its first piece is the empty one; on Windows, for a path that does
   * not start with a separator, exactly when its first piece passes the
   * root check.
   */
  function IsAbsPath(p: Platform, s: CString): (r: bool)
    ensures p == Posix ==> (r <==> Split(s, '/') != [] && Split(s, '/')[0] == [])
    ensures p == Windows && s != [] && s[0] != '\\' ==>
      Split(s, '\\') != [] && (r <==> HasDrive(Split(s, '\\')[0]))
  {
    FirstPiece(s, Sep(p));
    match p
    case Windows => |s| >= 2 && s[1] == ':'
    case Posix => |s| >= 1 && s[0] == '/'
  }

  /** On Windows every non-empty resolved path is absolute: the root check asked for exactly that. */
  lemma ResolvedIsAbsolute(s: seq<char>)
    requires Resolve(Windows, s).Some? && Resolve(Windows, s).value != []
    ensures NUL !in Resolve(Windows, s).value
    ensures IsAbsPath(Windows, Resolve(Windows, s).value)
  {
    var ps := Pass([], Pieces(Windows, s)).value;
    var r := Resolve(Windows, s).value;
    ResolveShape(Windows, s);
    assert ps != [] && HasDrive(ps[0]);
    if |ps| > 1 {
      assert r == ps[0] + [Sep(Windows)] + JoinSep(ps[1..], Sep(Windows));
    }
    assert r[..|ps[0]|] == ps[0];
  }

  /**
   * Normalising keeps a path absolute, and on POSIX it also keeps a
   * relative path relative.
   */
  lemma FixKeepsAbsolute(p: Platform, s: CString)
    ensures NUL !in Fixed(p, s)
    ensures IsAbsPath(p, s) ==> IsAbsPath(p, Fixed(p, s))
    ensures p == Posix ==> (IsAbsPath(p, Fixed(p, s)) <==> IsAbsPath(p, s))
  {
    FixedShape(p, s);
    if s != [] {
      match p
      case Posix =>
        CollapseHead(s, '/');
      case Windows =>
        if |s| >= 2 && s[1] == ':' {
          var m := MapChar(s, '/', '\\');
          assert m[1] == ':';
          CollapseSecond(m, '\\');
        }
    }
  }

  /** On Windows normalising can make a path absolute: `\\:` collapses to `\:`. */
  lemma FixMayMakeAbsolute()
    ensures !IsAbsPath(Windows, "\\\\:") && IsAbsPath(Windows, Fixed(Windows, "\\\\:"))
  {
    assert MapChar("\\\\:", '/', '\\') == "\\\\:";
    assert Collapse("\\\\:", '\\') == Collapse("\\:", '\\');
    assert Collapse("\\:", '\\') == "\\:" by {
      assert Collapse("\\:", '\\') == ['\\'] + Collapse(":", '\\');
    }
  }

  // ---------------------------------------------------------------------
  // ex_dirname

  /** The directory part of the text `c_str()` gives: before the last separator, or `.`. */
  function DirOf(p: Platform, filename: seq<char>): (d: seq<char>)
    ensures var t := CStr(filename);
      if Sep(p) in t
      then |d| < |t| && d == t[..|d|] && t[|d|] == Sep(p) && Sep(p) !in t[|d| + 1..]
      else d == "."
  {
    var t := CStr(filename);
    match LastIndexOf(t, Sep(p))
    case Some(k) => t[..k]
    case None => "."
  }

  /**
   * `ex_dirname(ex_wstr&)`: copy the C string into a buffer, cut it at the
   * last separator and read it back, or answer the current directory. It
   * always succeeds; `out` is the value `inout_filename` has afterwards.
   */
  method DirName(p: Platform, filename: seq<char>) returns (ok: bool, out: seq<char>)
    ensures ok && out == DirOf(p, filename)
  {
    var t := CStr(filename);
    var buf := new char[|t| + 1](i => if 0 <= i < |t| then t[i] else NUL);
    var len := |t|;
    // The strip of a trailing separator tests the terminator at `len`, so it
    // writes back what is there: the buffer still holds the text and its NUL.
    buf[len] := if buf[len] == Sep(p) then NUL else buf[len];
    assert buf[..] == t + [NUL];
    match LastIndexOf(t, Sep(p))
    case Some(k) =>
      buf[k] := NUL;
      assert buf[..] == t[..k] + [NUL] + (t[k + 1..] + [NUL]);
      CStrAt(t[..k], t[k + 1..] + [NUL]);
      return true, CStr(buf[..]);
    case None =>
      return true, ".";
  }

  /** Joining a name onto a directory and taking the directory again gives it back. */
  lemma DirOfJoin(p: Platform, dir: CString, name: CString)
    requires dir != [] && dir[|dir| - 1] != Sep(p)
    requires Sep(p) !in name
    ensures DirOf(p, Joiner.JoinAll(Sep(p), dir, [name])) == dir
  {
    var j := dir + [Sep(p)] + name;
    Joiner.JoinOne(Sep(p), dir, name);
    assert NUL !in j;
    assert j[|dir| + 1..] == name && j[..|dir|] == dir;
    LastIndexOfAt(j, Sep(p), |dir|);
  }

  // ---------------------------------------------------------------------
  // ex_path_ext_name

  /** `npos`, the `size_type` maximum a failed search returns. */
  const NPOS: nat := 0xFFFF_FFFF_FFFF_FFFF

  /** `rfind` of one character, with `npos` for not found. */
  function RFind(s: seq<char>, c: char): nat
  {
    match LastIndexOf(s, c)
    case Some(k) => k
    case None => NPOS
  }

  /**
   * `ex_path_ext_name` as written: the text after the last `.`, if that
   * `.` comes after the last separator. A missing separator is `npos`, which
   * no dot position exceeds, so a name without a separator has no extension.
   * A wide string is always shorter than `npos`.
   */
  function ExtName(p: Platform, name: seq<char>): (r: Option<seq<char>>)
    requires |name| < NPOS
    ensures r.Some? ==> Sep(p) in name
    ensures r.Some? ==>
      var dot := |name| - |r.value| - 1;
      && 0 <= dot && name[dot] == '.' && r.value == name[dot + 1..]
      && '.' !in r.value && Sep(p) !in r.value && Sep(p) in name[..dot]
    ensures r.None? ==> forall i :: 0 <= i < |name| && name[i] == '.' && '.' !in name[i + 1..] ==>
      Sep(p) !in name[..i] || Sep(p) in name[i + 1..]
  {
    match LastIndexOf(name, '.')
    case None => None
    case Some(dot) =>
      if dot <= RFind(name, Sep(p)) then
        LastAfter(name, '.', dot, Sep(p));
        None
      else
        LastBefore(name, dot, Sep(p));
        Some(name[dot + 1..])
  }

  /**
   * The extension a caller expects of a file name, bare or with a
   * directory part: the text after the last `.` when no separator follows
   * it. The code compares the last `.` with `npos` when the name has no
   * separator, so no bare name such as `f.txt` has an extension there,
   * which defeats a routine named for extensions.
   */
  function ExtNameIntended(p: Platform, name: seq<char>): (r: Option<seq<char>>)
    ensures r.Some? ==>
      var dot := |name| - |r.value| - 1;
      && 0 <= dot && name[dot] == '.' && r.value == name[dot + 1..]
      && '.' !in r.value && Sep(p) !in r.value
    ensures r.None? ==> forall i :: 0 <= i < |name| && name[i] == '.' && '.' !in name[i + 1..] ==>
      Sep(p) in name[i + 1..]
  {
    match LastIndexOf(name, '.')
    case None => None
    case Some(dot) =>
      match LastIndexOf(name, Sep(p))
      case Some(k) =>
        if dot <= k then
          LastAfter(name, '.', dot, Sep(p));
          None
        else
          LastBefore(name, dot, Sep(p));
          Some(name[dot + 1..])
      case None =>
        Some(name[dot + 1..])
  }

  /** The last `.` is the only one with no `.` after it. */
  lemma LastAfter(name: seq<char>, a: char, dot: nat, c: char)
    requires a != c && LastIndexOf(name, a) == Some(dot)
    requires LastIndexOf(name, c).None? || dot <= LastIndexOf(name, c).value
    ensures forall i :: 0 <= i < |name| && name[i] == a && a !in name[i + 1..] ==>
      i == dot && (c !in name || c in name[i + 1..])
  {
    if c in name {
      var k := LastIndexOf(name, c).value;
      assert name[k] in name[dot + 1..];
    }
  }

  /** When the last separator comes before the last `.`, the text after the `.` has no separator. */
  lemma LastBefore(name: seq<char>, dot: nat, c: char)
    requires dot < |name|
    requires LastIndexOf(name, c).Some? && LastIndexOf(name, c).value < dot
    ensures c !in name[dot + 1..] && c in name[..dot]
  {
    var k := LastIndexOf(name, c).value;
    assert name[k] in name[..dot];
  }

  /** Where the name has a separator, the code and the corrected reading agree. */
  lemma ExtNameAgrees(p: Platform, name: seq<char>)
    requires |name| < NPOS && Sep(p) in name
    ensures ExtName(p, name) == ExtNameIntended(p, name)
  {
  }

  /** The code and the corrected reading part on a bare name with a `.`: `f.txt`. */
  lemma ExtNameNoSeparator()
    ensures ExtName(Posix, "f.txt") == None
    ensures ExtNameIntended(Posix, "f.txt") == Some("txt")
  {
    var s := "f.txt";
    LastIndexOfAt(s, '.', 1);
    assert '/' !in s;
    assert s[2..] == "txt";
  }

  /** `/dir/file.tar.gz` has the extension `gz`. */
  lemma ExtNameLastDot()
    ensures ExtName(Posix, "/dir/file.tar.gz") == Some("gz")
  {
    var s := "/dir/file.tar.gz";
    LastIndexOfAt(s, '.', 13);
    LastIndexOfAt(s, '/', 4);
    assert s[14..] == "gz";
  }

  /** `/dir.ext/file` has none: its last `.` precedes the last separator. */
  lemma ExtNameDotInDirectory()
    ensures ExtName(Posix, "/dir.ext/file") == None
  {
    var s := "/dir.ext/file";
    LastIndexOfAt(s, '.', 4);
    LastIndexOfAt(s, '/', 8);
  }

  /** `/dir/file` has none: there is no `.`. */
  lemma ExtNameNoDot()
    ensures ExtName(Posix, "/dir/file") == None
  {
    assert '.' !in "/dir/file";
  }

  /** A name ending in `.` has the empty extension. */
  lemma ExtNameEmpty()
    ensures ExtName(Posix, "/dir/file.") == Some("")
  {
    var s := "/dir/file.";
    LastIndexOfAt(s, '.', 9);
    LastIndexOfAt(s, '/', 4);
    assert s[10..] == "";
  }

}
