/**
 * The path-traversal guard of the GET handler: the request is refused when
 * `path.resolve(fullPath)` does not start with `rootPath`.  The test is a
 * raw string prefix test, with no path-separator boundary; `WithinRoot` is
 * the containment test it evidently stands for.
 */
module Sandbox {
  import opened JsStrings

  /** `path.resolve(fullPath).startsWith(rootPath)`, as written. */
  predicate PrefixAllowed(resolved: string, rootPath: string) {
    StartsWith(resolved, rootPath)
  }

  /** The root itself, or a path below it: the root is followed by a `/` or already ends in one. */
  predicate WithinRoot(resolved: string, rootPath: string) {
    resolved == rootPath
    || StartsWith(resolved, if EndsWith(rootPath, '/') then rootPath else rootPath + "/")
  }

  /**
   * As written, the guard lets through a sibling of the root whose name
   * extends the root's last segment: with root `/srv/storage`, the path
   * `/srv/storage2/secret` passes.  It is not within the root.
   */
  lemma SiblingAdmitted(rootPath: string, suffix: string)
    requires !EndsWith(rootPath, '/')
    requires suffix != [] && suffix[0] != '/'
    ensures PrefixAllowed(rootPath + suffix, rootPath)
    ensures !WithinRoot(rootPath + suffix, rootPath)
  {
    var p := rootPath + suffix;
    assert p[..|rootPath|] == rootPath;
    assert p[|rootPath|] == suffix[0];
    assert |p| > |rootPath|;
  }

  /** The concrete instance: `/srv/storage2/secret` passes the guard of root `/srv/storage`. */
  lemma SiblingExample()
    ensures PrefixAllowed("/srv/storage2/secret", "/srv/storage")
    ensures !WithinRoot("/srv/storage2/secret", "/srv/storage")
  {
    SiblingAdmitted("/srv/storage", "2/secret");
    assert "/srv/storage" + "2/secret" == "/srv/storage2/secret";
  }

  /**
   * The containment test is the prefix test with the boundary added: a
   * resolved path is within the root exactly when it starts with the root
   * and the root ends there, is followed by a `/`, or ends in `/` itself.
   */
  lemma WithinRootIsBoundedPrefix(resolved: string, rootPath: string)
    ensures WithinRoot(resolved, rootPath) <==>
      PrefixAllowed(resolved, rootPath)
      && (|resolved| == |rootPath| || EndsWith(rootPath, '/') || resolved[|rootPath|] == '/')
  {
    if !EndsWith(rootPath, '/') {
      var q := rootPath + "/";
      if StartsWith(resolved, q) {
        assert resolved[..|rootPath|] == q[..|rootPath|] == rootPath;
        assert resolved[|rootPath|] == q[|rootPath|];
      }
      if StartsWith(resolved, rootPath) && |resolved| > |rootPath| && resolved[|rootPath|] == '/' {
        assert resolved[..|q|] == resolved[..|rootPath|] + [resolved[|rootPath|]];
      }
      if StartsWith(resolved, rootPath) && |resolved| == |rootPath| {
        assert resolved == resolved[..|rootPath|];
      }
    }
  }

  /** Every path the containment test accepts passes the guard as written. */
  lemma WithinRootIsAllowed(resolved: string, rootPath: string)
    requires WithinRoot(resolved, rootPath)
    ensures PrefixAllowed(resolved, rootPath)
  {
    WithinRootIsBoundedPrefix(resolved, rootPath);
  }
}
