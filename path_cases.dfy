/**
 * Worked cases that combine the joiner, the resolver and the queries: the
 * parent of a path found by joining `..` and resolving, and an absolute
 * path whose root piece is cancelled.
 */
module PathCases {
  import opened Wrappers
  import opened WideStr
  import opened Resolver
  import opened Joiner
  import opened PathQuery
  import ResolverCases

  /** On POSIX, joining `..` onto `/a/b` and resolving gives `/a`. */
  lemma ParentByJoin()
    ensures Resolve(Posix, JoinAll('/', "/a/b", [".."])) == Some("/a")
  {
    assert [".."][..0] == [];
    assert JoinAll('/', "/a/b", [".."]) == "/a/b/..";
    ResolverCases.TrailingParentCancels();
  }

  /** On POSIX, joining `..` onto `/a` and resolving gives the empty path, not `/`. */
  lemma ParentOfTopIsEmpty()
    ensures Resolve(Posix, JoinAll('/', "/a", [".."])) == Some([])
  {
    assert [".."][..0] == [];
    assert JoinAll('/', "/a", [".."]) == "/a/..";
    ResolverCases.SingleParentEmpty();
  }

  /** On POSIX an absolute path need not resolve to one: the root piece can be cancelled. */
  lemma AbsoluteMayResolveRelative()
    ensures IsAbsPath(Posix, "/../a") && Resolve(Posix, "/../a") == Some("a") && !IsAbsPath(Posix, "a")
  {
    ResolverCases.RootCancelled();
  }
}
