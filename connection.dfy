/** The connection engine of lib/connection.js as objects with explicit state. A
    Connection holds the endpoint, the socket pool and the transaction flags; each
    sendRequest that gets as far as a socket creates an Exchange, which holds that
    request's `reply`, `content_len` and `received` and the effects of its data, end
    and error handlers. Sockets are opaque ids; what goes onto a socket is returned as
    bytes, and what the handlers hand to callbacks is logged as actions. */
module Connection {
  import opened Bytes
  import opened Js
  import Endpoint
  import Wire
  import Assembler
  import Pool
  import Protobuf

  /** What sendRequest is given: an object with `getRequestXml` (what that call
      returns, the text or the error it throws, is part of the argument), or any other
      value, a string of ready XML among them. */
  datatype RequestArg =
    | RequestObject(command: JsValue, xml: Result<string>)
    | Other(value: JsValue)

  /** `request.command` for a request that is neither null nor undefined. */
  function CommandOf(r: RequestArg): JsValue
  {
    match r
    case RequestObject(command, _) => command
    case Other(v) => if v.Obj? then Member(v.members, "command") else Undefined
  }

  /** `command == name` for a command name that is not numeric text: JavaScript's loose
      equality holds for the string itself, and for an array or object whose string
      form is that name; a number, boolean, null or undefined never equals it. */
  predicate CommandIs(command: JsValue, name: string) {
    (command.Str? && command.s == name) || ((command.Arr? || command.Obj?) && ToString(command) == name)
  }

  /** The callback's argument, and what else the handlers do to the outside world. */
  datatype Action =
    | Called(error: Option<JsError>)        // callback(error, ...); None: callback(null, reply)
    | Delivered(payload: Option<seq<byte>>) // `new Reply(payload, callbackWrapper, format)`
    | EndedSocket                           // `client.end()`

  /** How sendRequest returned. */
  datatype SendOutcome =
    | Threw(error: JsError)
    | Refused(error: JsError)    // the callback got the error and sendRequest returned
    | Sent(socket: Pool.Socket, connected: bool, secure: bool, written: seq<byte>)

  const GuardMessage: string := "can't send requests while begin-transaction is in progress"

  /** The text that goes out for a request, if it gets that far. */
  function MessageOf(r: RequestArg): Option<string>
  {
    match r
    case RequestObject(_, xml) => if xml.Ok? then Some(xml.value) else None
    case Other(v) => if v.Str? then Some(v.s) else None
  }

  /** `host` as `+` prints it: a missing host name prints as "null". */
  function HostText(host: Option<string>): string
  {
    if host.Some? then host.value else "null"
  }

  /** The bytes sendDataFn writes for a message: a raw frame, or an HTTP request when the
      endpoint has a URL. */
  function Written(options: Endpoint.Options, storageName: string, message: string): seq<byte>
    requires |Encode(message)| < TwoTo31 && |Encode(storageName)| < TwoTo31
  {
    if Endpoint.UsesHttp(options) then
      Wire.HttpRequestAsWritten(options.url.value, HostText(options.host), options.port, message)
    else
      Wire.Frame(message, storageName)
  }

  /** The payload a completed reply is handed on as: field 1 of the decoded raw frame
      (undefined when it is missing), or the HTTP body as it is. */
  function Payload(reply: seq<byte>, http: bool): Option<seq<byte>>
  {
    if http then Some(reply)
    else
      var fields := Protobuf.Parse(reply);
      if 1 in fields then Some(fields[1]) else None
  }

  class Connection {
    const options: Endpoint.Options
    const storageName: string
    const documentRootXpath: string
    const documentIdXpath: string

    /** `_freeClientSockets`, `_bussyClientSockets`, and the number of sockets opened. */
    var free: seq<Pool.Socket>
    var busy: seq<Pool.Socket>
    var connects: nat

    var beginTransactionInProgress: bool
    var transactionId: JsValue

    function Sockets(): Pool.Sockets
      reads this
    {
      Pool.Sockets(free, busy, connects)
    }

    constructor(options: Endpoint.Options, storageName: string, documentRootXpath: string, documentIdXpath: string)
      ensures this.options == options && this.storageName == storageName
      ensures this.documentRootXpath == documentRootXpath && this.documentIdXpath == documentIdXpath
      ensures Sockets() == Pool.Empty && Pool.Valid(Sockets())
      ensures !beginTransactionInProgress && transactionId == Undefined
    {
      this.options := options;
      this.storageName := storageName;
      this.documentRootXpath := documentRootXpath;
      this.documentIdXpath := documentIdXpath;
      free := [];
      busy := [];
      connects := 0;
      beginTransactionInProgress := false;
      transactionId := Undefined;
    }

    /** The Connection constructor (lib/connection.js:31-104): it throws what endpoint
        selection throws, and otherwise starts with an empty pool, no transaction, and
        the default root and id paths for missing or empty ones. */
    static method Create(argc: nat, url: Endpoint.ParsedUrl, storageName: string,
                         documentRootXpath: Option<string>, documentIdXpath: Option<string>)
      returns (r: Result<Connection>)
      ensures Endpoint.Resolve(argc, url, storageName).Throw? ==>
              r == Throw(Endpoint.Resolve(argc, url, storageName).error)
      ensures Endpoint.Resolve(argc, url, storageName).Ok? ==>
              r.Ok? && fresh(r.value) &&
              r.value.options == Endpoint.Resolve(argc, url, storageName).value &&
              r.value.storageName == storageName &&
              r.value.documentRootXpath == Endpoint.OrDefault(documentRootXpath, "document") &&
              r.value.documentIdXpath == Endpoint.OrDefault(documentIdXpath, "document/id") &&
              r.value.Sockets() == Pool.Empty &&
              !r.value.beginTransactionInProgress && r.value.transactionId == Undefined
    {
      var options := Endpoint.Resolve(argc, url, storageName);
      if options.Throw? {
        return Throw(options.error);
      }
      var c := new Connection(options.value, storageName,
                              Endpoint.OrDefault(documentRootXpath, "document"),
                              Endpoint.OrDefault(documentIdXpath, "document/id"));
      return Ok(c);
    }

    /** `_PutClientSocketForReuse` (lib/connection.js:110-121). */
    method PutClientSocketForReuse(socket: Pool.Socket)
      modifies this
      ensures Sockets() == Pool.Release(old(Sockets()), socket)
      ensures beginTransactionInProgress == old(beginTransactionInProgress)
      ensures transactionId == old(transactionId)
    {
      var idx := Pool.IndexOf(busy, socket);
      if idx != -1 {
        busy := busy[..idx] + busy[idx + 1..];
      }
      free := free + [socket];
    }

    /** Socket acquisition (lib/connection.js:226-251): pop a free socket, or connect a
        new one; push it onto busy. */
    method AcquireSocket() returns (socket: Pool.Socket, connected: bool)
      modifies this
      ensures (Sockets(), socket, connected) == Pool.Acquire(old(Sockets()))
      ensures beginTransactionInProgress == old(beginTransactionInProgress)
      ensures transactionId == old(transactionId)
    {
      if |free| > 0 {
        socket := free[|free| - 1];
        free := free[..|free| - 1];
        connected := false;
      } else {
        socket := connects;
        connects := connects + 1;
        connected := true;
      }
      busy := busy + [socket];
    }

    /** The close handler a new socket gets (lib/connection.js:240-249). */
    method OnSocketClose(socket: Pool.Socket)
      modifies this
      ensures Sockets() == Pool.Close(old(Sockets()), socket)
      ensures beginTransactionInProgress == old(beginTransactionInProgress)
      ensures transactionId == old(transactionId)
    {
      var idx := Pool.IndexOf(busy, socket);
      if idx != -1 {
        busy := busy[..idx] + busy[idx + 1..];
      } else {
        idx := Pool.IndexOf(free, socket);
        if idx != -1 {
          free := free[..idx] + free[idx + 1..];
        }
      }
    }

    /** sendRequest (lib/connection.js:135-251). While a begin-transaction is pending it
        throws and changes nothing; a request whose getRequestXml throws passes that
        error on before anything changes; a null or undefined request throws on
        reading its command; a value that is neither a request object nor a string goes to the
        callback as "Invalid request type", while any string, the empty one included,
        is sent as it is. Otherwise a begin-transaction sets the
        guard, a commit or rollback clears the transaction id, a socket is acquired,
        the message is written on it, and a fresh Exchange awaits the reply. */
    method SendRequest(request: RequestArg) returns (outcome: SendOutcome, ex: Exchange?)
      requires MessageOf(request).Some? ==> |Encode(MessageOf(request).value)| < TwoTo31
      requires |Encode(storageName)| < TwoTo31
      modifies this
      ensures old(beginTransactionInProgress) ==>
              outcome == Threw(Error(GuardMessage)) && ex == null && unchanged(this)
      ensures !old(beginTransactionInProgress) && request.RequestObject? && request.xml.Throw? ==>
              outcome == Threw(request.xml.error) && ex == null && unchanged(this)
      ensures !old(beginTransactionInProgress) && request.Other? && (request.value.Null? || request.value.Undefined?) ==>
              outcome.Threw? && outcome.error.TypeError? && ex == null && unchanged(this)
      ensures !old(beginTransactionInProgress) && request.Other? &&
              !request.value.Null? && !request.value.Undefined? && !request.value.Str? ==>
              outcome == Refused(Error("Invalid request type")) && ex == null && unchanged(this)
      ensures outcome.Sent? <==> !old(beginTransactionInProgress) && MessageOf(request).Some?
      ensures outcome.Sent? ==>
              var command := CommandOf(request);
              (Sockets(), outcome.socket, outcome.connected) == Pool.Acquire(old(Sockets())) &&
              outcome.secure == (outcome.connected && Endpoint.UsesTls(options)) &&
              outcome.written == Written(options, storageName, MessageOf(request).value) &&
              beginTransactionInProgress == CommandIs(command, "begin-transaction") &&
              transactionId == (if CommandIs(command, "commit-transaction") || CommandIs(command, "rollback-transaction")
                                then Undefined else old(transactionId)) &&
              ex != null && fresh(ex) && ex.conn == this && ex.socket == outcome.socket &&
              ex.command == command && ex.http == Endpoint.UsesHttp(options) &&
              ex.State() == Assembler.Initial && ex.actions == [] && ex.Valid()
    {
      if beginTransactionInProgress {
        return Threw(Error(GuardMessage)), null;
      }
      if request.Other? && (request.value.Null? || request.value.Undefined?) {
        return Threw(TypeError("Cannot read properties of " + ToString(request.value) + " (reading 'command')")), null;
      }
      var command := CommandOf(request);
      var message: string;
      if request.RequestObject? {
        if request.xml.Throw? {
          return Threw(request.xml.error), null;
        }
        message := request.xml.value;
      } else if request.value.Str? {
        message := request.value.s;
      } else {
        return Refused(Error("Invalid request type")), null;
      }
      if CommandIs(command, "begin-transaction") {
        beginTransactionInProgress := true;
      }
      if CommandIs(command, "commit-transaction") || CommandIs(command, "rollback-transaction") {
        transactionId := Undefined;
      }
      var socket, connected := AcquireSocket();
      var written := Written(options, storageName, message);
      ex := new Exchange(this, socket, command, Endpoint.UsesHttp(options));
      outcome := Sent(socket, connected, connected && Endpoint.UsesTls(options), written);
    }
  }

  /** One request's reply side: the closure variables of sendRequest and its handlers. */
  class Exchange {
    const conn: Connection
    const socket: Pool.Socket
    const command: JsValue
    const http: bool

    var reply: Option<seq<byte>>
    var contentLen: int
    var received: int
    /** What the handlers have done so far, in order. */
    var actions: seq<Action>

    function State(): Assembler.Assembly
      reads this
    {
      Assembler.Assembly(reply, contentLen, received)
    }

    /** Before a reply has started nothing is counted as received and no negative
        length has been declared. */
    predicate Valid()
      reads this
    {
      reply.None? ==> received == 0 && contentLen >= 0
    }

    constructor(conn: Connection, socket: Pool.Socket, command: JsValue, http: bool)
      ensures this.conn == conn && this.socket == socket && this.command == command && this.http == http
      ensures State() == Assembler.Initial && actions == [] && Valid()
    {
      this.conn := conn;
      this.socket := socket;
      this.command := command;
      this.http := http;
      reply := None;
      contentLen := 0;
      received := 0;
      actions := [];
    }

    /** The data handler (lib/connection.js:255-313). The variables take the step
        Assembler.Receive describes. A rejected raw header ends the socket, fails the
        callback and lifts a begin-transaction guard, leaving the pool alone; a
        completed reply releases the socket to the free list and is handed on decoded;
        otherwise nothing else happens. The transaction id is never touched here. */
    method OnData(data: seq<byte>)
      requires Valid()
      modifies this, conn
      ensures Valid()
      ensures var (a, event) := Assembler.Receive(old(State()), data, http);
              State() == a &&
              conn.transactionId == old(conn.transactionId) &&
              (event == Assembler.Rejected ==>
                 actions == old(actions) + [EndedSocket, Called(Some(Error("Invalid header received")))] &&
                 conn.Sockets() == old(conn.Sockets()) &&
                 conn.beginTransactionInProgress == (old(conn.beginTransactionInProgress) && !CommandIs(command, "begin-transaction"))) &&
              (event == Assembler.Completed ==>
                 a.reply.Some? &&
                 actions == old(actions) + [Delivered(Payload(a.reply.value, http))] &&
                 conn.Sockets() == Pool.Release(old(conn.Sockets()), socket) &&
                 conn.beginTransactionInProgress == old(conn.beginTransactionInProgress)) &&
              (event == Assembler.Pending ==>
                 actions == old(actions) && conn.Sockets() == old(conn.Sockets()) &&
                 conn.beginTransactionInProgress == old(conn.beginTransactionInProgress))
    {
      if reply.None? && !http {
        // a byte missing from a short chunk reads as undefined, which equals no number
        if |data| < 4 || data[0] != 0x09 || data[1] != 0x09 || data[2] != 0x00 || data[3] != 0x00 {
          if |data| >= 4 {
            assert data[..4] != Wire.Magic by {
              assert data[..4] == [data[0], data[1], data[2], data[3]];
            }
          }
          RejectHeader();
          return;
        }
        assert data[..4] == Wire.Magic;
      }
      Accumulate(data);
      if received != 0 && received == contentLen {
        Deliver();
      }
    }

    /** lib/connection.js:259-264: on a first raw chunk without the magic, the socket is ended, the callback gets the error and
        a begin-transaction guard is lifted. */
    method RejectHeader()
      modifies this, conn
      ensures State() == old(State())
      ensures actions == old(actions) + [EndedSocket, Called(Some(Error("Invalid header received")))]
      ensures conn.Sockets() == old(conn.Sockets()) && conn.transactionId == old(conn.transactionId)
      ensures conn.beginTransactionInProgress == (old(conn.beginTransactionInProgress) && !CommandIs(command, "begin-transaction"))
    {
      actions := actions + [EndedSocket, Called(Some(Error("Invalid header received")))];
      if conn.beginTransactionInProgress && CommandIs(command, "begin-transaction") {
        conn.beginTransactionInProgress := false;
      }
    }

    /** lib/connection.js:256-293 past the header check: the three variables take the
        step Assembler.Receive describes, which is not a rejection. */
    method Accumulate(data: seq<byte>)
      requires Valid() && (reply.Some? || http || Assembler.HasMagic(data))
      modifies this
      ensures Valid() && actions == old(actions)
      ensures var (a, event) := Assembler.Receive(old(State()), data, http);
              State() == a && event != Assembler.Rejected &&
              (event == Assembler.Completed <==> received != 0 && received == contentLen)
    {
      if reply.None? {
        if !http {
          contentLen := Wire.DeclaredLength(data);
          reply := Some(SliceFrom(data, 8));
          received := |reply.value|;
        } else {
          var matched := Assembler.ContentLengthIn(data);
          if matched.Some? {
            contentLen := matched.value;
          }
          var loc := Assembler.Find(data, Assembler.Separator, 0);
          if loc.Some? {
            reply := Some(data[loc.value + 4..]);
            received := |reply.value|;
          } else {
            reply := None;
          }
        }
      } else {
        reply := Some(reply.value + data);
        received := received + |data|;
      }
      assert Valid();
      if received > contentLen {
        received := contentLen;
      }
    }

    /** lib/connection.js:294-311, on a completed reply: the socket goes back to the free list and the reply
        is handed on, decoded from its protobuf field 1 on a raw endpoint. */
    method Deliver()
      requires reply.Some?
      modifies this, conn
      ensures State() == old(State())
      ensures actions == old(actions) + [Delivered(Payload(reply.value, http))]
      ensures conn.Sockets() == Pool.Release(old(conn.Sockets()), socket)
      ensures conn.beginTransactionInProgress == old(conn.beginTransactionInProgress)
      ensures conn.transactionId == old(conn.transactionId)
    {
      conn.PutClientSocketForReuse(socket);
      var payload: Option<seq<byte>>;
      if !http {
        var fields := Protobuf.ParseString(reply.value);
        payload := if 1 in fields then Some(fields[1]) else None;
      } else {
        payload := Some(reply.value);
      }
      actions := actions + [Delivered(payload)];
    }

    /** The end handler (lib/connection.js:315-322): "Could not read message" unless
        received reached content_len, "No data received" when nothing was received (both
        may be reported), then the socket is ended and dropped from the free list. */
    method OnEnd()
      modifies this, conn
      ensures State() == old(State())
      ensures actions == old(actions)
                         + (if received != contentLen then [Called(Some(Error("Could not read message")))] else [])
                         + (if received == 0 then [Called(Some(Error("No data received")))] else [])
                         + [EndedSocket]
      ensures conn.Sockets() == Pool.Ended(old(conn.Sockets()), socket)
      ensures conn.beginTransactionInProgress == old(conn.beginTransactionInProgress)
      ensures conn.transactionId == old(conn.transactionId)
    {
      var failures: seq<Action> := [];
      if received != contentLen {
        failures := failures + [Called(Some(Error("Could not read message")))];
      }
      if received == 0 {
        failures := failures + [Called(Some(Error("No data received")))];
      }
      actions := actions + failures + [EndedSocket];
      var idx := Pool.IndexOf(conn.free, socket);
      if idx != -1 {
        conn.free := conn.free[..idx] + conn.free[idx + 1..];
      }
    }

    /** The error handler (lib/connection.js:324-326): the error goes to the callback. */
    method OnError(error: JsError)
      modifies this
      ensures State() == old(State())
      ensures actions == old(actions) + [Called(Some(error))]
    {
      actions := actions + [Called(Some(error))];
    }

    /** `callbackWrapper` (lib/connection.js:299-303), called by the reply decoder with an
        error and a reply; `transactionId` is what the reply's `getParam('transaction_id')`
        yields, and None stands for a null reply. For a begin-transaction it lifts the
        guard and stores that id before passing both on; on a null reply reading the id
        throws after the guard is lifted. Other commands pass both on unchanged. */
    method OnReply(error: Option<JsError>, transactionId: Option<JsValue>) returns (thrown: Option<JsError>)
      modifies this, conn
      ensures State() == old(State())
      ensures conn.Sockets() == old(conn.Sockets())
      ensures !CommandIs(command, "begin-transaction") ==>
              thrown == None && actions == old(actions) + [Called(error)] &&
              conn.beginTransactionInProgress == old(conn.beginTransactionInProgress) &&
              conn.transactionId == old(conn.transactionId)
      ensures CommandIs(command, "begin-transaction") ==>
              !conn.beginTransactionInProgress &&
              (transactionId.None? ==> thrown.Some? && thrown.value.TypeError? &&
                                       actions == old(actions) && conn.transactionId == old(conn.transactionId)) &&
              (transactionId.Some? ==> thrown == None && actions == old(actions) + [Called(error)] &&
                                       conn.transactionId == transactionId.value)
    {
      if !CommandIs(command, "begin-transaction") {
        actions := actions + [Called(error)];
        return None;
      }
      conn.beginTransactionInProgress := false;
      if transactionId.None? {
        return Some(TypeError("Cannot read properties of null (reading 'getParam')"));
      }
      conn.transactionId := transactionId.value;
      actions := actions + [Called(error)];
      return None;
    }
  }
}
