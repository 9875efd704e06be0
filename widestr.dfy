/**
 * The wide-string library calls the path code is built on: the platform
 * separator, C strings read through `c_str()`, `wcschr`, `wcsrchr`/`rfind`
 * and `wstring::find`.
 */
module WideStr {
  import opened Wrappers

  /** The build target; it picks the separator `EX_SEP`. */
  datatype Platform = Posix | Windows

  /** `EX_SEP`: the path separator of the platform. */
  function Sep(p: Platform): char
  {
    match p
    case Posix => '/'
    case Windows => '\\'
  }

  /** `EX_NULL_END`, the terminator of a C string. */
  const NUL: char := '\0'

  /** The text a `const wchar_t*` points at: it cannot hold its own terminator. */
  type CString = s: seq<char> | NUL !in s

  /** `wcschr`: the index of the first `c` in `s`, if any. */
  function IndexOf(s: seq<char>, c: char): (r: Option<nat>)
    ensures r.Some? ==> r.value < |s| && s[r.value] == c && c !in s[..r.value]
    ensures r.None? ==> c !in s
  {
    if s == [] then None
    else if s[0] == c then Some(0)
    else
      match IndexOf(s[1..], c)
      case None => None
      case Some(i) =>
        assert s[..i + 1] == [s[0]] + s[1..][..i];
        Some(i + 1)
  }

  /** `wcsrchr` and `wstring::rfind` of one character: the index of the last `c` in `s`, if any. */
  function LastIndexOf(s: seq<char>, c: char): (r: Option<nat>)
    ensures r.Some? ==> r.value < |s| && s[r.value] == c && c !in s[r.value + 1..]
    ensures r.None? ==> c !in s
  {
    if s == [] then None
    else if s[|s| - 1] == c then Some(|s| - 1)
    else
      var r := LastIndexOf(s[..|s| - 1], c);
      assert s == s[..|s| - 1] + [s[|s| - 1]];
      assert r.Some? ==> s[r.value + 1..] == s[..|s| - 1][r.value + 1..] + [s[|s| - 1]];
      r
  }

  /** The last `c` is the one with no `c` after it. */
  lemma LastIndexOfAt(s: seq<char>, c: char, k: nat)
    requires k < |s| && s[k] == c && c !in s[k + 1..]
    ensures LastIndexOf(s, c) == Some(k)
  {
    assert s[k] in s;
  }

  /**
   * What `c_str()` hands to a routine that reads a C string: the text of
   * a wide string up to its first NUL.
   */
  function CStr(s: seq<char>): (r: CString)
    ensures |r| <= |s| && r == s[..|r|]
    ensures |r| < |s| ==> s[|r|] == NUL
    ensures NUL !in s ==> r == s
  {
    match IndexOf(s, NUL)
    case None => s
    case Some(i) => s[..i]
  }

  /** The first `c` of a text is the first one after a stretch without `c`. */
  lemma {:induction false} IndexOfAfter(x: seq<char>, c: char, y: seq<char>)
    requires c !in x
    ensures IndexOf(x + [c] + y, c) == Some(|x|)
    decreases |x|
  {
    if x != [] {
      assert (x + [c] + y)[1..] == x[1..] + [c] + y;
      IndexOfAfter(x[1..], c, y);
    }
  }

  /** A C string read from a buffer ends at the first NUL written into it. */
  lemma CStrAt(x: seq<char>, y: seq<char>)
    requires NUL !in x
    ensures CStr(x + [NUL] + y) == x
  {
    IndexOfAfter(x, NUL, y);
    assert (x + [NUL] + y)[..|x|] == x;
  }

  /** `pat` occurs in `s` at index `i`. */
  predicate Occurs(s: seq<char>, pat: seq<char>, i: int)
  {
    0 <= i && i + |pat| <= |s| && s[i..i + |pat|] == pat
  }

  /** `wstring::find(pat, from)`: the first occurrence of `pat` at or after `from`; `None` is `npos`. */
  function Find(s: seq<char>, pat: seq<char>, from: nat): (r: Option<nat>)
    ensures r.Some? ==> from <= r.value && Occurs(s, pat, r.value)
    ensures forall j :: from <= j && (r.None? || j < r.value) ==> !Occurs(s, pat, j)
    decreases |s| - from
  {
    if from + |pat| > |s| then None
    else if s[from..from + |pat|] == pat then Some(from)
    else Find(s, pat, from + 1)
  }

}
