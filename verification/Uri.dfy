/** URIs (RFC 3986) as the server parses and prints them. */
module Uri {
  import opened Bytes
  import opened Escape
  import opened Segments
  import opened Path
  import opened Header
  import opened Args

  const HTTP: bytes := [104, 116, 116, 112]
  const HTTPS: bytes := [104, 116, 116, 112, 115]
  const COLONSLASHSLASH: bytes := [COLON, SLASH, SLASH]

  function Lowercase(s: bytes): (r: bytes)
    ensures |r| == |s|
  {
    seq(|s|, i requires 0 <= i < |s| => ToLower(s[i]))
  }

  // ---- What a URI is parsed into ----------------------------------------------------------

  datatype Parts = Parts(
    scheme: bytes, username: bytes, password: bytes, host: bytes,
    pathOriginal: bytes, query: bytes, hash: bytes)

  /** splitHostURI: scheme, host and the rest. */
  function SplitHostURI(host: bytes, uri: bytes): (bytes, bytes, bytes) {
    var n := IndexOf(uri, SLASHSLASH);
    if n < 0 || IndexByte(uri[..n], SLASH) >= 0 then (HTTP, host, uri)
    else
      var scheme := if n > 0 && uri[n - 1] == COLON then uri[..n - 1] else uri[..n];
      var rest := uri[n + 2..];
      var s, q := IndexByte(rest, SLASH), IndexByte(rest, QUESTION);
      if 0 <= q < s then (scheme, rest[..q], rest[q..])
      else if s < 0 then
        if q >= 0 then (scheme, rest[..q], rest[q..]) else (scheme, rest, [SLASH])
      else (scheme, rest[..s], rest[s..])
  }

  /** The credentials before an '@' in the host part: user name, password, host. */
  function SplitAuth(host: bytes): (bytes, bytes, bytes) {
    var n := IndexByte(host, AT);
    if n < 0 then ([], [], host)
    else
      var auth := host[..n];
      var c := IndexByte(auth, COLON);
      if c >= 0 then (auth[..c], auth[c + 1..], host[n + 1..]) else (auth, [], host[n + 1..])
  }

  /** Path, query and fragment. A '?' in the fragment is part of it. */
  function SplitPath(b: bytes): (bytes, bytes, bytes) {
    var q, f := IndexByte(b, QUESTION), IndexByte(b, HASH);
    var q' := if f >= 0 && q > f then -1 else q;
    if q' < 0 && f < 0 then (b, [], [])
    else if q' >= 0 then
      if f < 0 then (b[..q'], b[q' + 1..], []) else (b[..q'], b[q' + 1..f], b[f + 1..])
    else (b[..f], [], b[f + 1..])
  }

  function ContainsControl(s: bytes): (b: bool)
    ensures b <==> !NoControl(s)
  {
    if s == [] then false
    else if Control(s[0]) then true
    else
      assert ContainsControl(s[1..]) ==> exists i :: 0 <= i < |s| && Control(s[i]) by {
        if ContainsControl(s[1..]) {
          var i :| 0 <= i < |s[1..]| && Control(s[1..][i]);
          assert Control(s[i + 1]);
        }
      }
      assert forall i :: 1 <= i < |s| ==> s[i] == s[1..][i - 1];
      ContainsControl(s[1..])
  }

  lemma NoControlIs(s: bytes)
    ensures NoControl(s) <==> forall i :: 0 <= i < |s| ==> s[i] >= 32 && s[i] != 127
  {
  }

  predicate Qualified(host: bytes, uri: bytes) {
    host == [] || IndexOf(uri, COLONSLASHSLASH) >= 0
  }

  /** What parse makes of a URI without control bytes. */
  function ParseParts(host: bytes, uri: bytes, isTLS: bool): Parts {
    var (s, h, rest) := if Qualified(host, uri) then SplitHostURI(host, uri) else ([], host, uri);
    var (user, password, h') := SplitAuth(h);
    var (path, query, hash) := SplitPath(rest);
    Parts(if isTLS then HTTPS else Lowercase(s), user, password, Lowercase(h'), path, query, hash)
  }

  // ---- The printed form -------------------------------------------------------------------

  /** A query that is there, although it may be empty. */
  datatype Query = Absent | Present(text: bytes)

  function QueryText(query: Query): bytes {
    if query.Present? then query.text else []
  }

  function RequestPart(path: bytes, query: Query): bytes {
    path + (if query.Present? then [QUESTION] + query.text else [])
  }

  function FullForm(scheme: bytes, host: bytes, path: bytes, query: Query, hash: bytes): bytes {
    scheme + (COLONSLASHSLASH + (host + (RequestPart(path, query) + (if hash != [] then [HASH] + hash else []))))
  }

  class URI {
    var pathOriginal: bytes
    var scheme: bytes
    var path: bytes
    var queryString: bytes
    var hash: bytes
    var host: bytes
    var username: bytes
    var password: bytes
    var queryArgs: seq<KV>
    var parsedQueryArgs: bool
    var disablePathNormalizing: bool

    constructor ()
      ensures path == [] && scheme == [] && host == [] && queryString == [] && hash == []
    {
      pathOriginal, scheme, path, queryString, hash := [], [], [], [], [];
      host, username, password, queryArgs := [], [], [], [];
      parsedQueryArgs, disablePathNormalizing := false, false;
    }

    function GetPath(): bytes
      reads this
    {
      if path == [] then [SLASH] else path
    }

    function GetScheme(): bytes
      reads this
    {
      if scheme == [] then HTTP else scheme
    }

    method Reset()
      modifies this
      ensures pathOriginal == [] && scheme == [] && path == [] && queryString == [] && hash == []
      ensures host == [] && username == [] && password == [] && queryArgs == []
      ensures !parsedQueryArgs && !disablePathNormalizing
    {
      pathOriginal, scheme, path, queryString, hash := [], [], [], [], [];
      username, password := [], [];
      host := [];
      queryArgs := [];
      parsedQueryArgs := false;
      disablePathNormalizing := false;
    }

    /** URI.parse; on an error everything is left empty. */
    method Parse(host0: bytes, uri0: bytes, isTLS: bool) returns (ok: bool)
      modifies this
      ensures ok <==> forall i :: 0 <= i < |uri0| ==> uri0[i] >= 32 && uri0[i] != 127
      ensures ok ==>
                && Parts(scheme, username, password, host, pathOriginal, queryString, hash) == ParseParts(host0, uri0, isTLS)
                && path == Resolve(DecodedPath(pathOriginal))
      ensures !ok ==>
                Parts(scheme, username, password, host, pathOriginal, queryString, hash) == Parts([], [], [], [], [], [], [])
      ensures !parsedQueryArgs && !disablePathNormalizing
    {
      NoControlIs(uri0);
      hide NoControl, Resolve, DecodedPath, IndexByte, IndexOf;
      Reset();
      if ContainsControl(uri0) {
        return false;
      }
      ok := true;
      var h, b := host0, uri0;
      if |h| == 0 || IndexOf(b, COLONSLASHSLASH) >= 0 {
        var (s, newHost, newURI) := SplitHostURI(h, b);
        scheme := Lowercase(s);
        h := newHost;
        b := newURI;
      } else {
        assert Lowercase([]) == [];
      }
      if isTLS {
        scheme := HTTPS;
      }
      ParseHost(h);
      ParsePath(b);
    }

    method ParseHost(h: bytes)
      requires username == [] && password == []
      modifies this`username, this`password, this`host
      ensures (username, password, host) == (SplitAuth(h).0, SplitAuth(h).1, Lowercase(SplitAuth(h).2))
    {
      hide IndexByte;
      var rest := h;
      var n := IndexByte(h, AT);
      if n >= 0 {
        var auth := h[..n];
        rest := h[n + 1..];
        var c := IndexByte(auth, COLON);
        if c >= 0 {
          username := auth[..c];
          password := auth[c + 1..];
        } else {
          username := auth;
          password := [];
        }
      }
      host := Lowercase(rest);
    }

    method ParsePath(b: bytes)
      requires queryString == [] && hash == []
      modifies this`pathOriginal, this`path, this`queryString, this`hash
      ensures (pathOriginal, queryString, hash) == SplitPath(b)
      ensures path == Resolve(DecodedPath(pathOriginal))
    {
      hide Resolve, DecodedPath, IndexByte;
      var queryIndex, fragmentIndex := IndexByte(b, QUESTION), IndexByte(b, HASH);
      if fragmentIndex >= 0 && queryIndex > fragmentIndex {
        queryIndex := -1;
      }
      if queryIndex < 0 && fragmentIndex < 0 {
        pathOriginal := b;
        path := NormalizePath(pathOriginal);
        return;
      }
      if queryIndex >= 0 {
        pathOriginal := b[..queryIndex];
        path := NormalizePath(pathOriginal);
        if fragmentIndex < 0 {
          queryString := b[queryIndex + 1..];
        } else {
          queryString := b[queryIndex + 1..fragmentIndex];
          hash := b[fragmentIndex + 1..];
        }
        return;
      }
      pathOriginal := b[..fragmentIndex];
      path := NormalizePath(pathOriginal);
      hash := b[fragmentIndex + 1..];
    }

    /**
     * The query as RequestURI prints it: the arguments once they were parsed, if there are any. A list
     * that prints as nothing still gets its question mark.
     */
    function ShownQuery(): Query
      reads this
    {
      if parsedQueryArgs && queryArgs != [] then Present(Print(queryArgs))
      else if queryString != [] then Present(queryString)
      else Absent
    }

    /** The path as RequestURI prints it. */
    function ShownPath(): bytes
      reads this
    {
      if disablePathNormalizing then pathOriginal else QuotePath(GetPath())
    }

    method RequestURI() returns (dst: bytes)
      ensures dst == RequestPart(ShownPath(), ShownQuery())
      ensures dst ==
        (if disablePathNormalizing then pathOriginal else QuotePath(if path == [] then [47] else path)) +
        (if parsedQueryArgs && queryArgs != [] then [63] + Print(queryArgs)
         else if queryString != [] then [63] + queryString else [])
    {
      hide QuotePath, Print;
      if disablePathNormalizing {
        dst := pathOriginal;
      } else {
        dst := AppendQuotedPath([], GetPath());
      }
      if parsedQueryArgs && |queryArgs| > 0 {
        dst := dst + [QUESTION];
        dst := dst + Print(queryArgs);
      } else if |queryString| > 0 {
        dst := dst + [QUESTION];
        dst := dst + queryString;
      }
    }

    /** FullURI */
    method FullURI() returns (dst: bytes)
      ensures dst == FullForm(GetScheme(), host, ShownPath(), ShownQuery(), hash)
      ensures dst == (if scheme == [] then [104, 116, 116, 112] else scheme) +
        ([58, 47, 47] + (host + (RequestPart(ShownPath(), ShownQuery()) + if hash != [] then [35] + hash else [])))
    {
      hide RequestPart;
      dst := GetScheme();
      dst := dst + COLONSLASHSLASH;
      dst := dst + host;
      var r := RequestURI();
      dst := dst + r;
      if |hash| > 0 {
        dst := dst + [HASH];
        dst := dst + hash;
      }
    }
  }
}
