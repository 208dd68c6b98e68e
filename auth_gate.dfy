/**
 * The base authenticator of the Basic-authentication API: the path-exclusion gate
 * that decides whether a request path needs authentication, the lookup of the
 * Authorization header, and the base `current_user`, which never authenticates anyone.
 */
module AuthGate {
  import opened Wrappers
  import opened Requests

  predicate EndsWith(s: string, c: char) {
    |s| > 0 && s[|s| - 1] == c
  }

  /** The request path with a trailing slash appended when it lacks one. */
  function Normalize(path: string): (r: string)
    ensures EndsWith(r, '/')
    ensures EndsWith(path, '/') ==> r == path
    ensures !EndsWith(path, '/') ==> r == path + "/"
  {
    if EndsWith(path, '/') then path else path + "/"
  }

  /**
   * Whether one excluded-path entry matches an already normalised path: an entry
   * ending in `*` matches every path that starts with the entry minus its star;
   * any other entry matches only the identical path.
   */
  predicate EntryMatches(normalized: string, entry: string) {
    if EndsWith(entry, '*') then entry[..|entry| - 1] <= normalized
    else normalized == entry
  }

  /** Some entry of `entries` excludes `path` from authentication. */
  predicate Excluded(path: string, entries: seq<string>) {
    exists i :: 0 <= i < |entries| && EntryMatches(Normalize(path), entries[i])
  }

  /**
   * `require_auth`: True (authentication required) when the path or the list is
   * missing or the list is empty; otherwise False exactly when some entry matches
   * the normalised path. The entries are scanned in order and the scan stops at
   * the first match.
   */
  method RequireAuth(path: Option<string>, excludedPaths: Option<seq<string>>) returns (required: bool)
    ensures path.None? || excludedPaths.None? || excludedPaths.value == [] ==> required
    ensures path.Some? && excludedPaths.Some? ==> (required <==> !Excluded(path.value, excludedPaths.value))
  {
    if path.None? || excludedPaths.None? || |excludedPaths.value| == 0 {
      return true;
    }
    var p := Normalize(path.value);
    var entries := excludedPaths.value;
    for i := 0 to |entries|
      invariant forall j :: 0 <= j < i ==> !EntryMatches(p, entries[j])
    {
      var entry := entries[i];
      if EndsWith(entry, '*') {
        if entry[..|entry| - 1] <= p {
          return false;
        }
      } else if p == entry {
        return false;
      }
    }
    return true;
  }

  /** A path and the same path with its trailing slash get the same answer. */
  lemma TrailingSlashIrrelevant(path: string, entries: seq<string>)
    requires !EndsWith(path, '/')
    ensures Excluded(path, entries) <==> Excluded(path + "/", entries)
  {
    assert Normalize(path + "/") == Normalize(path);
  }

  /** Normalising twice is normalising once. */
  lemma NormalizeIdempotent(path: string)
    ensures Normalize(Normalize(path)) == Normalize(path)
  {
  }

  /** A wildcard entry excludes exactly the paths whose normalised form starts with the entry minus its star. */
  lemma WildcardExcludesByPrefix(path: string, entry: string)
    requires EndsWith(entry, '*')
    ensures Excluded(path, [entry]) <==> entry[..|entry| - 1] <= Normalize(path)
  {
    if entry[..|entry| - 1] <= Normalize(path) {
      assert EntryMatches(Normalize(path), [entry][0]);
    }
  }

  /** A literal entry excludes only the path whose normalised form equals it. */
  lemma LiteralExcludesOnlyItself(path: string, entry: string)
    requires !EndsWith(entry, '*')
    ensures Excluded(path, [entry]) <==> Normalize(path) == entry
  {
    if Normalize(path) == entry {
      assert EntryMatches(Normalize(path), [entry][0]);
    }
  }

  /** A literal entry without a trailing slash can never match, since normalised paths end in a slash. */
  lemma LiteralWithoutSlashNeverMatches(path: string, entry: string)
    requires !EndsWith(entry, '*') && !EndsWith(entry, '/')
    ensures !Excluded(path, [entry])
  {
    LiteralExcludesOnlyItself(path, entry);
  }

  /** Only the set of entries matters: their order and repetitions do not change the answer. */
  lemma {:induction false} OnlyTheSetOfEntriesMatters(path: string, a: seq<string>, b: seq<string>)
    requires forall e :: e in a <==> e in b
    ensures Excluded(path, a) <==> Excluded(path, b)
  {
    var p := Normalize(path);
    if Excluded(path, a) {
      var i :| 0 <= i < |a| && EntryMatches(p, a[i]);
      assert a[i] in b;
      var j :| 0 <= j < |b| && b[j] == a[i];
      assert EntryMatches(p, b[j]);
    }
    if Excluded(path, b) {
      var j :| 0 <= j < |b| && EntryMatches(p, b[j]);
      assert b[j] in a;
      var i :| 0 <= i < |a| && a[i] == b[j];
      assert EntryMatches(p, a[i]);
    }
  }

  /** The status route, listed with a trailing slash, is reachable with or without it. */
  lemma StatusRouteExcluded(entries: seq<string>)
    requires exists i :: 0 <= i < |entries| && entries[i] == "/api/v1/status/"
    ensures Excluded("/api/v1/status", entries) && Excluded("/api/v1/status/", entries)
  {
    var i :| 0 <= i < |entries| && entries[i] == "/api/v1/status/";
    assert Normalize("/api/v1/status") == "/api/v1/status/";
    assert EntryMatches(Normalize("/api/v1/status"), entries[i]);
    assert EntryMatches(Normalize("/api/v1/status/"), entries[i]);
  }

  /** The wildcard `/api/v1/admin*` covers `/api/v1/admin/users` but not `/api/v1/adm`. */
  lemma AdminWildcardExample()
    ensures Excluded("/api/v1/admin/users", ["/api/v1/admin*"])
    ensures !Excluded("/api/v1/adm", ["/api/v1/admin*"])
  {
    WildcardExcludesByPrefix("/api/v1/admin/users", "/api/v1/admin*");
    WildcardExcludesByPrefix("/api/v1/adm", "/api/v1/admin*");
    assert "/api/v1/admin*"[..13] == "/api/v1/admin";
    assert Normalize("/api/v1/admin/users") == "/api/v1/admin/users/";
    assert "/api/v1/admin/users/"[..13] == "/api/v1/admin";
    assert Normalize("/api/v1/adm") == "/api/v1/adm/";
    assert |"/api/v1/adm/"| == 12;
  }

  /**
   * `authorization_header`: None without a request; otherwise the value of its
   * Authorization header, looked up by name regardless of case, or None when absent.
   */
  function AuthorizationHeader(request: Option<Request>): (r: Option<string>)
    ensures request.None? ==> r.None?
    ensures request.Some? ==> r == HeaderGet(request.value.headers, "Authorization")
  {
    if request.None? then None else HeaderGet(request.value.headers, "Authorization")
  }

  /** The base `current_user` authenticates nobody. */
  function CurrentUser<U>(request: Option<Request>): (r: Option<U>)
    ensures r.None?
  {
    None
  }
}
