/** Endpoint selection in the Connection constructor (lib/connection.js:32, 52-89): the
    argument count check and the case split on the scheme of the parsed connection
    string. `url.parse` itself is a library call; its result is the input here. */
module Endpoint {
  import opened Bytes
  import opened Js

  /** The fields of `url.parse(connectionString)` the constructor reads; each may be null. */
  datatype ParsedUrl = ParsedUrl(protocol: Option<string>, hostname: Option<string>,
                                 port: Option<string>, path: Option<string>)

  /** `connectionOptions`. A port is kept as the text it prints as; the defaults 5550
      and 80 are numbers in the source and print as "5550" and "80". */
  datatype Options =
    | UnixSocket(path: Option<string>)
    | Tcp(host: Option<string>, port: string)
    | Tls(host: Option<string>, port: string, rejectUnauthorized: bool, cryptoMethod: string)
    | Http(host: Option<string>, port: string, url: Option<string>)

  /** `this.storageName` is read before the constructor defines it (lib/connection.js:57
      against line 96), so the default path is built from `undefined`. */
  const DefaultSocketPath: string := "/usr/local/cps2/storages/" + ToString(Undefined) + "/storage.sock"

  const DefaultTcpPort: string := "5550"
  const DefaultHttpPort: string := "80"
  const TlsMethod: string := "STREAM_CRYPTO_METHOD_SSLv23_CLIENT"

  /** `x || d` on a value that is a string or null. */
  function OrDefault(x: Option<string>, d: string): (r: string)
    ensures x.Some? && x.value != "" ==> r == x.value
    ensures x.None? || x.value == "" ==> r == d
  {
    if x.Some? && x.value != "" then x.value else d
  }

  /** The constructor up to its endpoint choice: `argc` is `arguments.length`. The storage
      name is an argument only to show that it plays no part. */
  function Resolve(argc: nat, u: ParsedUrl, storageName: string): (r: Result<Options>)
    ensures r.Throw? ==> r.error == Error(if argc < 4 then "Missing required arguments"
                                          else "Invalid connection string")
    ensures r.Ok? ==> (r.value.Tls? <==> u.protocol == Some("tcps:"))
    ensures r.Ok? && r.value.Tls? ==> !r.value.rejectUnauthorized && u.port == Some(r.value.port)
  {
    if argc < 4 then Throw(Error("Missing required arguments"))
    else match u.protocol
      case None => Ok(UnixSocket(Some(DefaultSocketPath)))
      case Some(p) =>
        if p == "unix:" then Ok(UnixSocket(u.path))
        else if p == "tcp:" then Ok(Tcp(u.hostname, OrDefault(u.port, DefaultTcpPort)))
        else if p == "tcps:" then
          if u.port.None? then Throw(Error("Invalid connection string"))
          else Ok(Tls(u.hostname, u.port.value, false, TlsMethod))
        else if p == "http:" then Ok(Http(u.hostname, OrDefault(u.port, DefaultHttpPort), u.path))
        else Throw(Error("Invalid connection string"))
  }

  /** `self.connectionOptions.url` is truthy: the request goes out as HTTP, otherwise as a
      raw frame. Only an http: endpoint with a non-empty path has one. */
  predicate UsesHttp(o: Options) {
    o.Http? && o.url.Some? && o.url.value != ""
  }

  /** `self.connectionOptions.ssl == true`: a new socket is opened with `tls.connect`. */
  predicate UsesTls(o: Options) {
    o.Tls?
  }

  /** The schemes the constructor accepts. */
  predicate KnownScheme(p: string) {
    p == "unix:" || p == "tcp:" || p == "tcps:" || p == "http:"
  }

  /** Fewer than four arguments always throw, before the connection string is looked at. */
  lemma TooFewArgumentsThrow(argc: nat, u: ParsedUrl, storageName: string)
    requires argc < 4
    ensures Resolve(argc, u, storageName) == Throw(Error("Missing required arguments"))
  {
  }

  /** The constructor throws exactly for too few arguments, an unknown scheme, and tcps:
      without a port; every error but the first reads "Invalid connection string". */
  lemma ResolveFailsExactly(argc: nat, u: ParsedUrl, storageName: string)
    ensures Resolve(argc, u, storageName).Throw? <==>
            argc < 4 ||
            (u.protocol.Some? && !KnownScheme(u.protocol.value)) ||
            (u.protocol == Some("tcps:") && u.port.None?)
    ensures argc >= 4 && Resolve(argc, u, storageName).Throw? ==>
            Resolve(argc, u, storageName).error == Error("Invalid connection string")
  {
  }

  /** tcp: takes the given port, or 5550 when there is none. */
  lemma TcpPortDefaults(argc: nat, u: ParsedUrl, storageName: string)
    requires argc >= 4 && u.protocol == Some("tcp:")
    ensures Resolve(argc, u, storageName).Ok?
    ensures var o := Resolve(argc, u, storageName).value;
            o.Tcp? && o.host == u.hostname && !UsesHttp(o) && !UsesTls(o) &&
            (u.port.None? ==> o.port == "5550") &&
            (u.port.Some? && u.port.value != "" ==> o.port == u.port.value)
  {
  }

  /** http: takes the given port, or 80, and the path as the URL it posts to; the request
      goes out as HTTP exactly when that path is not empty. */
  lemma HttpPortAndUrl(argc: nat, u: ParsedUrl, storageName: string)
    requires argc >= 4 && u.protocol == Some("http:")
    ensures Resolve(argc, u, storageName).Ok?
    ensures var o := Resolve(argc, u, storageName).value;
            o.Http? && o.host == u.hostname && o.url == u.path &&
            (u.port.None? ==> o.port == "80") &&
            (u.port.Some? && u.port.value != "" ==> o.port == u.port.value) &&
            (UsesHttp(o) <==> u.path.Some? && u.path.value != "")
  {
  }

  /** tcps: with a port opens TLS without verifying the peer's certificate. */
  lemma TlsSkipsVerification(argc: nat, u: ParsedUrl, storageName: string)
    requires argc >= 4 && u.protocol == Some("tcps:") && u.port.Some?
    ensures Resolve(argc, u, storageName).Ok?
    ensures var o := Resolve(argc, u, storageName).value;
            UsesTls(o) && !o.rejectUnauthorized && o.port == u.port.value && !UsesHttp(o)
  {
  }

  /** Without a scheme the connection goes to the default unix socket, whose path does
      not depend on the storage name given: it always names the storage "undefined". */
  lemma DefaultSocketIgnoresStorage(argc: nat, u: ParsedUrl, s1: string, s2: string)
    requires argc >= 4 && u.protocol.None?
    ensures Resolve(argc, u, s1) == Resolve(argc, u, s2)
    ensures Resolve(argc, u, s1) == Ok(UnixSocket(Some("/usr/local/cps2/storages/undefined/storage.sock")))
  {
    var p := "/usr/local/cps2/storages/undefined/storage.sock";
    assert ToString(Undefined) == "undefined";
    assert DefaultSocketPath == p by {
      assert |DefaultSocketPath| == |p|;
      forall i | 0 <= i < |p| ensures DefaultSocketPath[i] == p[i] { }
    }
  }
}
