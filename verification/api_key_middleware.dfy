/** `ApiKeyMiddleware` of the user service, as a pure allow/deny decision over the
    request path, the `X-Api-Key` header and the configured key. */
module ApiKeyMiddleware {
  import opened Common

  const ApiKeyHeader: string := "X-Api-Key"
  const DefaultApiKey: string := "supersecretkey"
  const HealthPath: string := "/health"
  const UnauthorizedBody: string := "Unauthorized client"

  /** What the middleware does with a request: hand it to the next handler, or
      answer it itself with a status code and a body. */
  datatype Decision = PassOn | Reject(status: int, body: string)

  /** The key in force: the `ApiKey` setting, or the default when it is not set
      (`??` replaces only a missing value; an empty setting stays empty). */
  function ConfiguredKey(setting: Option<string>): (key: string)
    ensures setting.Some? ==> key == setting.value
    ensures setting.None? ==> key == DefaultApiKey
  {
    match setting
    case Some(k) => k
    case None => DefaultApiKey
  }

  /** Invariant-culture upper-casing, for the ASCII letters. */
  function UpperAscii(c: char): char
  {
    if 'a' <= c <= 'z' then (c as int - 'a' as int + 'A' as int) as char else c
  }

  /** `StringComparison.OrdinalIgnoreCase` equality of two strings, char by char. */
  function EqualsIgnoreCase(a: string, b: string): bool
  {
    if |a| == 0 || |b| == 0 then |a| == |b|
    else UpperAscii(a[0]) == UpperAscii(b[0]) && EqualsIgnoreCase(a[1..], b[1..])
  }

  lemma {:induction false} EqualsIgnoreCaseIsPointwise(a: string, b: string)
    ensures EqualsIgnoreCase(a, b) <==>
              |a| == |b| && forall i :: 0 <= i < |a| ==> UpperAscii(a[i]) == UpperAscii(b[i])
    decreases |a|
  {
    if |a| > 0 && |b| > 0 {
      EqualsIgnoreCaseIsPointwise(a[1..], b[1..]);
      if |a| == |b| && forall i :: 0 <= i < |a| ==> UpperAscii(a[i]) == UpperAscii(b[i]) {
        assert forall i :: 0 <= i < |a| - 1 ==> a[1..][i] == a[i + 1] && b[1..][i] == b[i + 1];
      }
    }
  }

  /** `PathString.StartsWithSegments(prefix)` with its default ignore-case comparison:
      the path begins with the prefix and the prefix ends at the end of the path
      or just before a '/'. */
  function StartsWithSegments(path: string, prefix: string): bool
  {
    && |prefix| <= |path|
    && EqualsIgnoreCase(path[..|prefix|], prefix)
    && (|path| == |prefix| || path[|prefix|] == '/')
  }

  /** A request under the health endpoint, which needs no key. */
  predicate IsHealthPath(path: string)
  {
    StartsWithSegments(path, HealthPath)
  }

  /** The header check: the header is present and its value is exactly the key
      (`StringValues != string` is false only for a single value equal to the key). */
  predicate KeyMatches(header: Option<seq<string>>, key: string)
  {
    header.Some? && header.value == [key]
  }

  /** `Invoke`: health paths pass on; any other path passes on only with the key,
      and is otherwise answered 401 "Unauthorized client". */
  function Invoke(path: string, header: Option<seq<string>>, key: string): (d: Decision)
    ensures d.PassOn? <==> IsHealthPath(path) || KeyMatches(header, key)
    ensures d.Reject? ==> d == Reject(401, UnauthorizedBody)
    ensures IsHealthPath(path) ==> d.PassOn?
    ensures !IsHealthPath(path) && header.None? ==> d == Reject(401, UnauthorizedBody)
  {
    if IsHealthPath(path) then PassOn
    else if !KeyMatches(header, key) then Reject(401, UnauthorizedBody)
    else PassOn
  }

  /** Segment matching: `/health` and everything below it are health paths in any
      letter case, while `/healthz` and `/healthcheck` are not. */
  lemma HealthSegments()
    ensures IsHealthPath("/health")
    ensures IsHealthPath("/health/ready")
    ensures IsHealthPath("/HEALTH")
    ensures !IsHealthPath("/healthz")
    ensures !IsHealthPath("/healthcheck")
    ensures !IsHealthPath("/api/health")
    ensures !IsHealthPath("/")
  {
    assert "/health"[..7] == "/health";
    assert "/HEALTH"[..7] == "/HEALTH";
    assert EqualsIgnoreCase("/HEALTH", "/health");
    assert "/health/ready"[..7] == "/health";
    assert "/healthz"[..7] == "/health";
    assert "/healthcheck"[..7] == "/health";
    assert "/api/health"[..7] == "/api/he";
    EqualsIgnoreCaseIsPointwise("/api/he", HealthPath);
    assert UpperAscii('a') != UpperAscii('h');
  }

  /** A path that spells out `prefix` and continues with `rest` starts with the
      segments of `prefix` exactly when `rest` is empty or begins a new segment. */
  lemma SegmentPrefix(prefix: string, rest: string)
    ensures StartsWithSegments(prefix + rest, prefix) <==> |rest| == 0 || rest[0] == '/'
  {
    var path := prefix + rest;
    assert path[..|prefix|] == prefix;
    assert |rest| > 0 ==> path[|prefix|] == rest[0];
    EqualsIgnoreCaseIsPointwise(prefix, prefix);
  }

  /** Exactly the paths that continue `/health` with nothing or with a new segment
      are health paths (letter case aside). */
  lemma HealthPathShape(rest: string)
    ensures IsHealthPath(HealthPath + rest) <==> |rest| == 0 || rest[0] == '/'
  {
    SegmentPrefix(HealthPath, rest);
  }

  /** With no key configured, a caller holding the default key gets through any path,
      and a caller without the header is refused on any non-health path. */
  lemma DefaultKeyAdmits(path: string)
    ensures Invoke(path, Some(["supersecretkey"]), ConfiguredKey(None)).PassOn?
    ensures !IsHealthPath(path) ==> Invoke(path, None, ConfiguredKey(None)) == Reject(401, "Unauthorized client")
  {
  }
}
