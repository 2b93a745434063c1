/**
 * The authentication base class `Auth`: the path-exclusion gate, the literal
 * `Authorization` header lookup and the default user resolver.  The class has
 * no fields, so each method is a function of its arguments.
 */
module Auth {
  import opened Wrappers
  import opened Strings
  import opened Users

  /** What the layer reads from an incoming request: its headers, keyed exactly as received. */
  datatype Request = Request(headers: map<string, string>)

  /**
   * Whether the excluded-path entry `entry` exempts `path`: a `*`-terminated
   * entry is a prefix rule; any other entry matches when it equals `path` or
   * `path` with one `/` appended.
   */
  predicate Excludes(entry: string, path: string)
    ensures EndsWith(entry, "*") ==> (Excludes(entry, path) <==> StartsWith(path, entry[..|entry| - 1]))
    ensures !EndsWith(entry, "*") ==> (Excludes(entry, path) <==> entry == path || entry == path + "/")
  {
    (EndsWith(entry, "*") && StartsWith(path, entry[..|entry| - 1]))
    || entry == path || entry == path + "/"
  }

  /** The `for` loop of `require_auth`: try the entries in order, stop at the first that exempts `path`. */
  function ScanExcluded(path: string, entries: seq<string>): (r: bool)
    ensures r <==> forall i :: 0 <= i < |entries| ==> !Excludes(entries[i], path)
  {
    if entries == [] then true
    else
      var entry := entries[0];
      if EndsWith(entry, "*") && StartsWith(path, entry[..|entry| - 1]) then false
      else if entry == path || entry == path + "/" then false
      else
        assert forall i :: 1 <= i < |entries| ==> entries[i] == entries[1..][i - 1];
        ScanExcluded(path, entries[1..])
  }

  /**
   * `Auth.require_auth(path, excluded_paths)`: authentication is required when
   * there is no path, no exclusion list or an empty one, and otherwise exactly
   * when no entry exempts the path.
   */
  function RequireAuth(path: Option<string>, excludedPaths: Option<seq<string>>): (r: bool)
    ensures path.None? || excludedPaths.None? || excludedPaths.value == [] ==> r
    ensures path.Some? && excludedPaths.Some? ==>
      (r <==> forall i :: 0 <= i < |excludedPaths.value| ==> !Excludes(excludedPaths.value[i], path.value))
  {
    if path.None? || excludedPaths.None? || |excludedPaths.value| == 0 then true
    else ScanExcluded(path.value, excludedPaths.value)
  }

  /** A prefix rule exempts every path that starts with the entry without its `*`. */
  lemma WildcardExempts(path: string, entries: seq<string>, i: nat, suffix: string)
    requires i < |entries| && EndsWith(entries[i], "*")
    requires path == entries[i][..|entries[i]| - 1] + suffix
    ensures !RequireAuth(Some(path), Some(entries))
  {
  }

  /** An entry exempts the path it names and that path without its trailing `/`. */
  lemma ExactEntryExempts(path: string, entries: seq<string>, i: nat)
    requires i < |entries| && (entries[i] == path || entries[i] == path + "/")
    ensures !RequireAuth(Some(path), Some(entries))
  {
  }

  /** Appending entries can only exempt more paths: a path exempt under `a` stays exempt under `a + b`. */
  lemma ExclusionMonotone(path: Option<string>, a: seq<string>, b: seq<string>)
    ensures !RequireAuth(path, Some(a)) ==> !RequireAuth(path, Some(a + b))
  {
    if !RequireAuth(path, Some(a)) {
      var i :| 0 <= i < |a| && Excludes(a[i], path.value);
      assert (a + b)[i] == a[i];
    }
  }

  /** The verdict depends only on which entries the list holds, not on their order or repetition count. */
  lemma ExclusionOrderIrrelevant(path: Option<string>, a: seq<string>, b: seq<string>)
    requires forall x :: x in a <==> x in b
    ensures RequireAuth(path, Some(a)) == RequireAuth(path, Some(b))
  {
    if path.Some? {
      if !RequireAuth(path, Some(a)) {
        var i :| 0 <= i < |a| && Excludes(a[i], path.value);
        assert a[i] in b;
        var j :| 0 <= j < |b| && b[j] == a[i];
      }
      if !RequireAuth(path, Some(b)) {
        var j :| 0 <= j < |b| && Excludes(b[j], path.value);
        assert b[j] in a;
        var i :| 0 <= i < |a| && a[i] == b[j];
      }
    }
  }

  /** The trailing-slash tolerance works one way: entry `/x/` exempts `/x`, entry `/x` does not exempt `/x/`. */
  lemma TrailingSlashOneWay()
    ensures !RequireAuth(Some("/x"), Some(["/x/"]))
    ensures RequireAuth(Some("/x/"), Some(["/x"]))
  {
  }

  /** The empty path is not special: it is exempt when `/` is excluded. */
  lemma EmptyPathNotSpecial()
    ensures !RequireAuth(Some(""), Some(["/"]))
  {
  }

  /** The service's own exclusion list of `/api/v1/status/` and the wildcard `/api/v1/stat*`. */
  lemma StatusExamples()
    ensures !RequireAuth(Some("/api/v1/status"), Some(["/api/v1/status/"]))
    ensures !RequireAuth(Some("/api/v1/status/"), Some(["/api/v1/status/"]))
    ensures !RequireAuth(Some("/api/v1/stats"), Some(["/api/v1/stat*"]))
    ensures RequireAuth(Some("/api/v1/other"), Some(["/api/v1/stat*"]))
  {
    assert Excludes("/api/v1/status/", "/api/v1/status");
    assert Excludes("/api/v1/status/", "/api/v1/status/");
    WildcardExempts("/api/v1/stats", ["/api/v1/stat*"], 0, "s");
    var other := "/api/v1/other";
    assert !Excludes("/api/v1/stat*", other) by {
      assert other[..12][8] == 'o' && "/api/v1/stat"[8] == 's';
    }
  }

  /** `Auth.authorization_header(request)`: the value stored under the literal key `Authorization`, if any. */
  function AuthorizationHeader(request: Option<Request>): (r: Option<string>)
    ensures r.Some? <==> request.Some? && "Authorization" in request.value.headers
    ensures r.Some? ==> r.value == request.value.headers["Authorization"]
  {
    if request.None? || "Authorization" !in request.value.headers then None
    else Some(request.value.headers["Authorization"])
  }

  /** The key is matched literally: a header stored under another spelling is not found. */
  lemma HeaderKeyIsLiteral(value: string)
    ensures AuthorizationHeader(Some(Request(map["authorization" := value]))) == None
    ensures AuthorizationHeader(Some(Request(map["Authorization" := value]))) == Some(value)
  {
  }

  /** The base class resolves no user, whatever the request. */
  function CurrentUser(request: Option<Request>): (r: Option<User>)
    ensures r == None
  {
    None
  }
}
