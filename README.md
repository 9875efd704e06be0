# Path strings of libex, modelled in Dafny

This project models the pure path-string logic of `common/libex/src/ex_path.cpp`:

- **The separator normaliser.** `_wstr_replace` and `ex_fix_path`.
- **The resolver.** `ex_abspath(ex_wstr&)`, which splits, eliminates `.` and `..`, and rejoins.
- **The joiners.** The two `ex_path_join` overloads and `ex_abspath_to`.
- **Three small queries.** `ex_is_abspath`, `ex_dirname(ex_wstr&)` and `ex_path_ext_name`.

The build target is a `Platform` value, `Posix` or `Windows`. It picks the separator `EX_SEP`: `/` on POSIX and `\` on Windows.

Texts are modelled in two ways:

- A `std::wstring` is a `seq<char>` that may hold NUL characters.
- A `const wchar_t*` is a `CString`, a sequence without NUL.

Every place where the code reads a `wstring` through `c_str()` goes through `WideStr.CStr`, which cuts the text at its first NUL. The library calls the code relies on are written out as functions with their own contracts:

- `wcschr` is `WideStr.IndexOf`.
- `wcsrchr` and `rfind` are `WideStr.LastIndexOf`.
- `wstring::find` is `WideStr.Find`.

Each loop in the source is a method, proved against a function that specifies it. The properties of each operation are then proved about that function:

- `Normalizer.ReplaceAll` and `Normalizer.FixPath` are proved against `Normalizer.Fixed`.
- `Resolver.SplitPath`, `Resolver.Eliminate`, `Resolver.Rejoin` and `Resolver.AbsPath` are proved against `Resolver.Split`, the stack pass `Resolver.Pass` and `Resolver.AbsPathOutcome`.
- `Joiner.PathJoin` is proved against `Joiner.JoinAll`.
- `PathQuery.DirName` is proved against `PathQuery.DirOf`.

A method whose argument is an in/out `ex_wstr&` returns the verdict together with the value that argument holds afterwards.

Modules, in dependency order: `Wrappers`, `WideStr`, `Normalizer`, `Resolver`, `ResolverCases` (worked cases of the resolver), `Joiner`, `PathQuery`, `PathCases` (worked cases that combine the joiner, the resolver and the queries).

## Model

All source paths are in `common/libex/src/ex_path.cpp`.

| member | source | states |
|---|---|---|
| WideStr.IndexOf | common/libex/src/ex_path.cpp:250-251 | `wcschr`: a found index holds `c` and has no `c` before it; not found means `c` does not occur |
| WideStr.LastIndexOf | common/libex/src/ex_path.cpp:100-101 | `wcsrchr`/`rfind`: a found index holds `c` and has no `c` after it; not found means `c` does not occur |
| WideStr.CStr | common/libex/src/ex_path.cpp:89-93 | what `c_str()` hands on is the longest NUL-free prefix: a prefix, followed by NUL when shorter, the whole text when it has no NUL |
| WideStr.Find | common/libex/src/ex_path.cpp:10 | `find(pat, pos)`: a hit is an occurrence at or after `pos`; no occurrence lies between `pos` and the hit, or anywhere after `pos` when there is none |
| Normalizer.ReplaceAll | common/libex/src/ex_path.cpp:5-15 | for the two replacements `ex_fix_path` makes, the find-replace-advance loop (advance 1 for the swap, 0 for the collapse) yields the full replacement: every `/` swapped, or every run of the character shortened to one |
| Normalizer.FixPath | common/libex/src/ex_path.cpp:17-29 | the normaliser's result is `Fixed`: on Windows `/` becomes `\` and then runs of `\` collapse; on POSIX runs of `/` collapse |
| Normalizer.FixedShape | common/libex/src/ex_path.cpp:17-29 | the normalised text has no two adjacent separators and no `/` on Windows; with separators removed it equals the input with separators removed, so other characters keep their order; every other character comes from the input |
| Normalizer.FixedIsIdentity | common/libex/src/ex_path.cpp:17-29 | normalising leaves a text unchanged if and only if it has no doubled separator and, on Windows, no `/` |
| Normalizer.FixedIdempotent | common/libex/src/ex_path.cpp:17-29 | normalising twice gives the same as normalising once |
| Resolver.SplitPath | common/libex/src/ex_path.cpp:248-269 | the pointer walk yields `Split`: pieces free of the separator whose join is the text less one trailing separator |
| Resolver.Eliminate | common/libex/src/ex_path.cpp:272-294 | the erase-and-restart loop gives exactly the one-pass stack reading: skip `.`, pop on `..`, fail on `..` with an empty stack, push the rest |
| Resolver.Rejoin | common/libex/src/ex_path.cpp:297-320 | succeeds if and only if the root check holds (always on POSIX; on Windows the first piece has `:` at index 1); on success the pieces are joined with one separator between neighbours, on failure the output has been cleared |
| Resolver.AbsPath | common/libex/src/ex_path.cpp:242-321 | verdict and new argument value are `AbsPathOutcome`: unchanged on an uncancellable `..`, empty on a failed Windows root check, the rejoined pieces on success |
| Resolver.JoinSplit | common/libex/src/ex_path.cpp:248-269 | joining the split pieces gives back the text, less one trailing separator |
| Resolver.SplitJoin | common/libex/src/ex_path.cpp:248-269 | splitting the join of separator-free pieces (only the first empty, not a lone empty piece) gives back the pieces |
| Resolver.SplitTailNonEmpty | common/libex/src/ex_path.cpp:248-269 | on a text with no doubled separator only the first piece can be empty |
| Resolver.EraseParent | common/libex/src/ex_path.cpp:275-284 | erasing a `..` and its predecessor behind ordinary pieces leaves the stack pass's outcome unchanged |
| Resolver.EraseDot | common/libex/src/ex_path.cpp:285-289 | erasing a `.` behind ordinary pieces leaves the stack pass's outcome unchanged |
| Resolver.PassNormalPrefix | common/libex/src/ex_path.cpp:290-293 | ordinary pieces at the front are pushed unchanged before the rest is read |
| Resolver.PassAllNormal | common/libex/src/ex_path.cpp:290-293 | a list of ordinary pieces passes through unchanged |
| Resolver.PassCounts | common/libex/src/ex_path.cpp:272-294 | elimination fails if and only if some prefix holds more `..` than earlier pieces can cancel; on success the length is the count of ordinary pieces less the count of `..` |
| Resolver.KeptPieces | common/libex/src/ex_path.cpp:272-294 | surviving pieces are neither `.` nor `..`, hold no separator, NUL or (on Windows) `/`, and only the first can be empty |
| Resolver.ResolveShape | common/libex/src/ex_path.cpp:272-320 | a resolved path has no doubled separator, no trailing separator, no NUL, no `/` on Windows, and splits into pieces none of which is `.` or `..` |
| Resolver.ResolveIdempotent | common/libex/src/ex_path.cpp:242-321 | resolving a resolved path succeeds and returns it unchanged |
| Resolver.ResolveJoined | common/libex/src/ex_path.cpp:242-321 | for a path written with `/` between plain pieces, the outcome on either platform is read off the stack pass over those pieces |
| Resolver.TrailingSeparatorIgnored | common/libex/src/ex_path.cpp:253-255 | a separator after a path of plain pieces does not change the resolution |
| ResolverCases.LeadingParentFails | common/libex/src/ex_path.cpp:275-278 | `../a` fails on both platforms and the argument keeps its value |
| ResolverCases.OverCancelledFails | common/libex/src/ex_path.cpp:275-284 | `a/../..` fails and the argument keeps its value |
| ResolverCases.TrailingParentCancels | common/libex/src/ex_path.cpp:275-284 | on POSIX `/a/b/..` resolves to `/a` |
| ResolverCases.InnerParentCancels | common/libex/src/ex_path.cpp:275-284 | on POSIX `/a/../b` resolves to `/b` |
| ResolverCases.DotDropped | common/libex/src/ex_path.cpp:285-289 | on POSIX `/a/./b` resolves to `/a/b` |
| ResolverCases.RelativeStaysRelative | common/libex/src/ex_path.cpp:307-310 | with no root check on POSIX, `a/./b` resolves to the relative `a/b` |
| ResolverCases.RootParentEmpty | common/libex/src/ex_path.cpp:248-269 | the empty leading piece counts as a piece: `/..` resolves to the empty path on both platforms |
| ResolverCases.SingleParentEmpty | common/libex/src/ex_path.cpp:297-320 | on POSIX `/a/..` resolves to the empty path |
| ResolverCases.SingleParentFailsOnWindows | common/libex/src/ex_path.cpp:297-306 | on Windows `/a/..` keeps only the empty root piece, which fails the root check: the call fails after the argument was cleared |
| ResolverCases.RootCancelled | common/libex/src/ex_path.cpp:275-284 | on POSIX `/../a` resolves to `a`: the `..` cancels the empty root piece |
| ResolverCases.DriveKept | common/libex/src/ex_path.cpp:304-306 | on Windows `C:/x/../y` resolves to `C:\y` |
| ResolverCases.NoDriveFails | common/libex/src/ex_path.cpp:297-306 | on Windows `noroot/a` fails after the argument was cleared |
| ResolverCases.TrailingSeparator | common/libex/src/ex_path.cpp:253-255 | on POSIX `/a/b/` resolves to `/a/b` |
| Joiner.PathJoin | common/libex/src/ex_path.cpp:323-353 | without resolution the new value is the left fold `JoinAll` and the call succeeds; with it, the result is the resolved fold, and on failure the argument is not written |
| Joiner.PathJoinNew | common/libex/src/ex_path.cpp:355-384 | returns the fold, or its resolution, and nothing (NULL) when resolution fails |
| Joiner.AbsPathTo | common/libex/src/ex_path.cpp:387-394 | the outcome is that of `ex_abspath` on base, separator, relative path |
| Joiner.JoinAllIsJoinSep | common/libex/src/ex_path.cpp:331-344 | for non-empty separator-free parts after an accumulator not ending in the separator, the fold puts exactly one separator between neighbours |
| Joiner.JoinAllExtends | common/libex/src/ex_path.cpp:337-343 | the fold only appends: the accumulator is a prefix of the result |
| Joiner.JoinAllNoNul | common/libex/src/ex_path.cpp:355-383 | a fold of C strings holds no NUL, so the copy returned is the whole fold |
| Joiner.AbsPathToIsJoin | common/libex/src/ex_path.cpp:387-394 | for a non-empty base not ending in the separator, `ex_abspath_to(b, r)` resolves what joining `r` onto `b` resolves |
| Joiner.JoinTwo | common/libex/src/ex_path.cpp:337-343 | `("/a", "b", "c")` joins to `/a/b/c` |
| Joiner.JoinAfterSeparator | common/libex/src/ex_path.cpp:339-340 | `("/a/", "b")` joins to `/a/b` |
| Joiner.JoinOntoEmpty | common/libex/src/ex_path.cpp:337 | `("", "b")` joins to `b` |
| Joiner.JoinKeepsPartSeparator | common/libex/src/ex_path.cpp:343 | a leading separator of a part is kept: `("/a/", "/b")` joins to `/a//b` |
| PathCases.ParentByJoin | common/libex/src/ex_path.cpp:402-405 | on POSIX, joining `..` onto `/a/b` and resolving gives `/a` |
| PathCases.ParentOfTopIsEmpty | common/libex/src/ex_path.cpp:402-405 | on POSIX, joining `..` onto `/a` and resolving gives the empty path, not `/` |
| Joiner.ParentOfResolved | common/libex/src/ex_path.cpp:402-405 | for every non-empty resolved path, joining `..` and resolving succeeds and drops the last piece, so the result is the join of all pieces but the last |
| Joiner.ParentOfEmpty | common/libex/src/ex_path.cpp:402-405 | joining `..` onto the empty path fails to resolve on both platforms |
| Resolver.ResolveDropLast | common/libex/src/ex_path.cpp:272-320 | pieces a resolution keeps, followed by `..`, resolve to all but the last of them |
| Resolver.PiecesOfKept | common/libex/src/ex_path.cpp:244-269 | pieces a resolution keeps, joined with the separator, are left alone by normalisation and split back into themselves |
| PathQuery.IsAbsPath | common/libex/src/ex_path.cpp:39-55 | on POSIX a path is absolute (length at least 1, `/` first) exactly when its first piece is empty; on Windows, for a path not starting with `\`, it is absolute (length at least 2, `:` at index 1) exactly when its first piece passes the root check |
| Resolver.FirstPiece | common/libex/src/ex_path.cpp:250-266 | a text is non-empty exactly when it has pieces, and its first piece is its longest prefix without the separator |
| PathQuery.ResolvedIsAbsolute | common/libex/src/ex_path.cpp:304-306 | on Windows every non-empty resolved path is NUL-free and absolute in the sense of `ex_is_abspath` |
| PathCases.AbsoluteMayResolveRelative | common/libex/src/ex_path.cpp:39-55 | on POSIX an absolute path can resolve to a relative one: `/../a` gives `a` |
| PathQuery.FixKeepsAbsolute | common/libex/src/ex_path.cpp:39-55 | normalising keeps an absolute path absolute; on POSIX it is absolute after normalising if and only if it was before |
| PathQuery.FixMayMakeAbsolute | common/libex/src/ex_path.cpp:39-55 | on Windows normalising can make a path absolute: `\\:` becomes `\:` |
| PathQuery.DirOf | common/libex/src/ex_path.cpp:84-117 | the directory is the text before the last separator of the C string, or `.` when it has none |
| PathQuery.DirName | common/libex/src/ex_path.cpp:84-117 | cutting the copied buffer at the last separator always succeeds with `DirOf`; the strip at line 95 tests the terminator, so it writes back what is there |
| PathQuery.DirOfJoin | common/libex/src/ex_path.cpp:84-117 | for a non-empty directory not ending in the separator and a name without the separator, taking the directory of the name joined onto the directory gives the directory back |
| PathQuery.ExtName | common/libex/src/ex_path.cpp:425-435 | as written: an extension exists only when the name has a separator, and it is the text after the last `.`, with no `.` or separator in it and a separator before that `.`; no extension means the last `.` is missing, has no separator before it, or has one after it |
| PathQuery.ExtNameIntended | common/libex/src/ex_path.cpp:425-435 | corrected reading, where a bare file name keeps its extension: an extension is the text after the last `.` with no `.` or separator in it; there is none when there is no `.` or a separator follows the last one |
| PathQuery.ExtNameAgrees | common/libex/src/ex_path.cpp:427-430 | on every name that has a separator, the code and the corrected reading agree |
| PathQuery.ExtNameNoSeparator | common/libex/src/ex_path.cpp:428-431 | `f.txt` has no extension as written but `txt` under the corrected reading |
| PathQuery.ExtNameLastDot | common/libex/src/ex_path.cpp:425-435 | `/dir/file.tar.gz` has extension `gz` |
| PathQuery.ExtNameDotInDirectory | common/libex/src/ex_path.cpp:430-431 | `/dir.ext/file` has none: its last `.` precedes the last separator |
| PathQuery.ExtNameNoDot | common/libex/src/ex_path.cpp:430-431 | `/dir/file` has none |
| PathQuery.ExtNameEmpty | common/libex/src/ex_path.cpp:433 | `/dir/file.` has the empty extension |

## Left out

- `ex_exec_file` (lines 31-37, 161-218) asks the operating system for the executable's path, so it is not modelled.
- `ex_is_dir_exists` and `ex_is_file_exists` (lines 120-156) are file-system queries.
- `ex_mkdirs` (lines 396-423) creates directories. Its pure part computes the parent by joining `..` and resolving. `Joiner.ParentOfResolved` states this for a path that is already resolved: the last piece is dropped, so the parent of `/a` is the empty path. `Joiner.ParentOfEmpty` states that the empty path has no parent. Together with `PathCases.ParentOfTopIsEmpty` they imply that on POSIX the recursion for a missing directory directly under the root, such as `/a`, reaches the empty path, and then fails there: its parent does not resolve. Unless the file-system query reports the empty path as an existing directory, `ex_mkdirs` therefore cannot create such a directory.
- The `wchar_t*`-returning wrappers of `ex_fix_path`, `ex_abspath`, `ex_abspath_to` and `ex_dirname` (lines 17-29, 57-82) are left out. They add only the `ex_wcsdup`/`ex_free` allocation and NULL on failure. `ex_fix_path`'s text logic is `Normalizer.FixPath`; the `wchar_t*` twin of `ex_path_join` is `Joiner.PathJoinNew`.
- NULL pointer arguments are not modelled. `ex_fix_path` returns NULL for one; other routines would dereference it.
- Allocation failure of `ex_wcsdup` is not modelled: `ex_dirname`'s `return false` at line 91 is never taken in the model.
- Wide/narrow conversion (`ex_wstr2astr`, `ex_astr2wstr`) and the commented-out `realpath` version (lines 220-240) are not part of this model.
- The varargs list ending in NULL is a sequence of C strings.
- Characters: on Windows `wchar_t` is a 16-bit UTF-16 code unit, while a Dafny `char` is a Unicode scalar value. A first character outside the Basic Multilingual Plane takes two units in the source, which shifts the index 1 that `PathQuery.IsAbsPath` and the root check test. Lone surrogates cannot be represented. For ASCII paths the two agree.
- Normalizer.ReplaceAll: modelled only for the two calls `ex_fix_path` makes: a one-character swap and a doubled character collapsed to one. With `len_from > len_to + 1` the unsigned advance moves backwards, and no caller does that.
- Resolver.AbsPath: on Windows, an empty first piece reads `(*it)[1]` past the end, which is undefined behaviour. The model treats it as a failed root check. A one-character first piece reads its terminator, which is also a failure.
- The headers defining `EX_SEP`, `EX_SEP_STR`, `EX_NULL_END` and `EX_CURRENT_DIR_STR` are not part of this model. They are taken as `/` or `\`, NUL, and `.`.
- PathQuery.ExtName: requires the name to be shorter than `npos`, taken as the 64-bit `size_t` maximum. No `wstring` can be that long.
- Resolver.TrailingSeparatorIgnored: proved for paths written from plain pieces (no separator of either platform or NUL inside a piece). It is not proved for every text.
- PathQuery.ResolvedIsAbsolute: states absoluteness for Windows only. On POSIX there is no root check, and `PathCases.AbsoluteMayResolveRelative` shows the claim fails there.
- For a name with no separator, `PathQuery.ExtName` follows the code and finds no extension, because `npos` exceeds every dot position. The reading a caller of a routine named for extensions would expect is `PathQuery.ExtNameIntended`: there, `f.txt` has the extension `txt` (see Findings).

## Findings

| source | as written | input that shows it | evidently intended | confidence | as-written member | corrected member |
|---|---|---|---|---|---|---|
| common/libex/src/ex_path.cpp:428-431 | `pos_dot <= pos_sep` with `pos_sep == npos` when the name has no separator, so every dot position counts as before the separator | `f.txt` gives no extension | `txt`: a name without a directory part keeps its extension | medium, not executed | PathQuery.ExtNameNoSeparator | PathQuery.ExtNameIntended |
