/**
  `verify_smtp`: one SMTP session against one mail exchanger. The server is
  given as a script that says, stage by stage, which reply code it sends or
  which exception the client library raises there. The method builds the
  result record and sets its flags in the order of the session; an exception
  skips the rest of the session and is classified by the first `except`
  clause, in source order, whose class it is an instance of.
 */
module Smtp {
  import opened Optional

  const SMTP_TIMEOUT := 10
  const HELO_HOSTNAME := "verify.unlimitedverifier.com"
  const SMTP_PORT := 25
  /** The sender address of the MAIL FROM command: `verify@` + HELO_HOSTNAME. */
  const PROBE_SENDER := "verify@" + HELO_HOSTNAME

  /** The exceptions a session can raise, grouped by the class hierarchy that the handlers see. */
  datatype Raised =
    | ServerDisconnected   // smtplib.SMTPServerDisconnected
    | ResponseException    // smtplib.SMTPResponseException and its subclasses
    | OtherSmtpException   // any other smtplib.SMTPException (these derive from OSError)
    | SocketTimeout        // socket.timeout, itself an OSError
    | OsError              // any other OSError: refused connection, unknown host, ...
    | OtherException       // any Exception outside OSError

  /** The classes named by the handlers, in source order. */
  datatype Handler =
    | SMTPServerDisconnected | SMTPResponseException | Timeout | SocketError | AnyException

  /** The five error classes recorded in the result, one per handler. */
  datatype ErrorKind = Disconnected | SmtpResponse | ConnectionTimeout | Socket | Unclassified

  function Handlers(): seq<Handler>
  {
    [SMTPServerDisconnected, SMTPResponseException, Timeout, SocketError, AnyException]
  }

  /** `isinstance(e, h)`. */
  predicate IsInstance(e: Raised, h: Handler)
  {
    match h
    case SMTPServerDisconnected => e == ServerDisconnected
    case SMTPResponseException => e == ResponseException
    case Timeout => e == SocketTimeout
    case SocketError => e != OtherException
    case AnyException => true
  }

  function KindOf(h: Handler): ErrorKind
  {
    match h
    case SMTPServerDisconnected => Disconnected
    case SMTPResponseException => SmtpResponse
    case Timeout => ConnectionTimeout
    case SocketError => Socket
    case AnyException => Unclassified
  }

  /** The first handler in `hs` that catches `e`, as an index. */
  function FirstCatching(e: Raised, hs: seq<Handler>): (k: nat)
    requires exists h :: h in hs && IsInstance(e, h)
    ensures k < |hs| && IsInstance(e, hs[k])
    ensures forall j :: 0 <= j < k ==> !IsInstance(e, hs[j])
  {
    if IsInstance(e, hs[0]) then 0
    else
      assert hs == [hs[0]] + hs[1..];
      1 + FirstCatching(e, hs[1..])
  }

  /** The error class the `except` chain records for `e`: its clauses tried in source order. */
  function Classify(e: Raised): (kind: ErrorKind)
    ensures kind == Unclassified <==> e == OtherException
  {
    if IsInstance(e, SMTPServerDisconnected) then Disconnected
    else if IsInstance(e, SMTPResponseException) then SmtpResponse
    else if IsInstance(e, Timeout) then ConnectionTimeout
    else if IsInstance(e, SocketError) then Socket
    else Unclassified
  }

  /** The class recorded is that of the first handler in the list, in source order, that catches `e`. */
  lemma ClassifyIsFirstCatching(e: Raised)
    ensures AnyException in Handlers()
    ensures Classify(e) == KindOf(Handlers()[FirstCatching(e, Handlers())])
  {
    assert Handlers()[4] == AnyException;
  }

  /** What the server (or the library, on the client's side) does at one stage. */
  datatype Reply = Code(code: int) | Raise(exc: Raised)

  /**
    The scripted server. `connect` and `quit` replies carry a code the source
    ignores; `helo`, `mail` and `rcpt` codes are compared with 250.
   */
  datatype Server = Server(connect: Reply, helo: Reply, mail: Reply, rcpt: Reply, quit: Reply)

  /** The reply at stage `k`: 0 = connect, 1 = HELO, 2 = MAIL FROM, 3 = RCPT TO, 4 = QUIT. */
  function Stage(s: Server, k: nat): Reply
    requires k < 5
  {
    if k == 0 then s.connect
    else if k == 1 then s.helo
    else if k == 2 then s.mail
    else if k == 3 then s.rcpt
    else s.quit
  }

  /** The commands a session sends, with the constants the source passes. */
  datatype Command =
    | Connect(host: string, port: nat, timeout: nat)
    | Helo(name: string)
    | MailFrom(sender: string)
    | RcptTo(recipient: string)
    | Quit

  /** The full session, when nothing raises. */
  function Session(email: string, mxHost: string): seq<Command>
  {
    [Connect(mxHost, SMTP_PORT, SMTP_TIMEOUT), Helo(HELO_HOSTNAME), MailFrom(PROBE_SENDER), RcptTo(email), Quit]
  }

  /** The result dictionary of `verify_smtp`. */
  datatype ProbeResult = ProbeResult(
    mxHost: string,
    connected: bool,
    heloOk: bool,
    mailFromOk: bool,
    rcptToOk: bool,
    error: Option<ErrorKind>)

  /** How many stages of the session complete before the first exception (5 when none raises). */
  function Completed(s: Server): (n: nat)
    ensures n <= 5
    ensures forall j :: 0 <= j < n ==> Stage(s, j).Code?
    ensures n < 5 ==> Stage(s, n).Raise?
  {
    if s.connect.Raise? then 0
    else if s.helo.Raise? then 1
    else if s.mail.Raise? then 2
    else if s.rcpt.Raise? then 3
    else if s.quit.Raise? then 4
    else 5
  }

  predicate Accepted(r: Reply)
  {
    r == Code(250)
  }

  /**
    The outcome of a session, stated by the number of stages that completed:
    a stage flag holds when that stage and all before it completed and its
    reply was 250; the error is the class of the first exception, if any.
   */
  function Expected(mxHost: string, server: Server): (p: ProbeResult)
  {
    var n := Completed(server);
    ProbeResult(
      mxHost,
      n >= 1,
      n >= 2 && Accepted(server.helo),
      n >= 3 && Accepted(server.mail),
      n >= 4 && Accepted(server.rcpt),
      if n == 5 then None else Some(Classify(Stage(server, n).exc)))
  }

  /** Records the exception that ended the session. */
  function Fail(result: ProbeResult, e: Raised): ProbeResult
  {
    result.(error := Some(Classify(e)))
  }

  /**
    `verify_smtp(email, mx_host)`. Returns the result and the commands sent,
    which are the leading part of `Session` up to the stage that raised.
   */
  method VerifySmtp(email: string, mxHost: string, server: Server) returns (result: ProbeResult, sent: seq<Command>)
    ensures result == Expected(mxHost, server)
    ensures sent == Session(email, mxHost)[..if Completed(server) < 5 then Completed(server) + 1 else 5]
    ensures |sent| >= 1 && sent[0] == Connect(mxHost, SMTP_PORT, SMTP_TIMEOUT)
    ensures result.mxHost == mxHost
    ensures result.connected <==> server.connect.Code?
    ensures !result.connected ==> !result.heloOk && !result.mailFromOk && !result.rcptToOk
    ensures result.error.None? <==> forall k :: 0 <= k < 5 ==> Stage(server, k).Code?
    ensures result.rcptToOk ==> result.connected && Accepted(server.rcpt)
  {
    var full := Session(email, mxHost);
    result := ProbeResult(mxHost, false, false, false, false, None);

    // open the client with its timeout and connect to port 25
    sent := [full[0]];
    if server.connect.Raise? {
      result := Fail(result, server.connect.exc);
      return;
    }
    result := result.(connected := true);

    sent := sent + [full[1]];
    if server.helo.Raise? {
      result := Fail(result, server.helo.exc);
      return;
    }
    if server.helo.code == 250 {
      result := result.(heloOk := true);
    }

    sent := sent + [full[2]];
    if server.mail.Raise? {
      result := Fail(result, server.mail.exc);
      return;
    }
    if server.mail.code == 250 {
      result := result.(mailFromOk := true);
    }

    sent := sent + [full[3]];
    if server.rcpt.Raise? {
      result := Fail(result, server.rcpt.exc);
      return;
    }
    if server.rcpt.code == 250 {
      result := result.(rcptToOk := true);
    }

    sent := sent + [full[4]];
    if server.quit.Raise? {
      result := Fail(result, server.quit.exc);
      return;
    }
  }

  /**
    Each flag holds exactly when every earlier stage got a reply (no exception)
    and that stage's own reply was 250; a reply other than 250 does not stop the
    stages after it.
   */
  lemma StageFlags(mxHost: string, server: Server)
    ensures var p := Expected(mxHost, server);
      && (p.connected <==> server.connect.Code?)
      && (p.heloOk <==> server.connect.Code? && Accepted(server.helo))
      && (p.mailFromOk <==> server.connect.Code? && server.helo.Code? && Accepted(server.mail))
      && (p.rcptToOk <==> server.connect.Code? && server.helo.Code? && server.mail.Code? && Accepted(server.rcpt))
      && (p.error.None? <==> forall k :: 0 <= k < 5 ==> Stage(server, k).Code?)
  {
    if forall k :: 0 <= k < 5 ==> Stage(server, k).Code? {
      assert Completed(server) == 5;
    } else {
      var k :| 0 <= k < 5 && Stage(server, k).Raise?;
      assert Completed(server) <= k;
    }
  }

  /** An exception at stage `k` (0 = connect, ..., 4 = quit) leaves the flags of stage `k` and later false. */
  lemma ExceptionClearsLaterFlags(mxHost: string, server: Server, k: nat)
    requires k < 5 && Stage(server, k).Raise?
    ensures var p := Expected(mxHost, server);
      p.error.Some? &&
      (k <= 0 ==> !p.connected) && (k <= 1 ==> !p.heloOk) &&
      (k <= 2 ==> !p.mailFromOk) && (k <= 3 ==> !p.rcptToOk)
  {
  }

  /** A failing QUIT after an accepted RCPT TO leaves `rcpt_to_ok` true with an error recorded. */
  lemma QuitFailureKeepsRecipient(mxHost: string, server: Server)
    requires server.connect.Code? && server.helo.Code? && server.mail.Code?
    requires Accepted(server.rcpt) && server.quit.Raise?
    ensures var p := Expected(mxHost, server);
      p.rcptToOk && p.error == Some(Classify(server.quit.exc))
  {
    assert Completed(server) == 4;
  }

  /** The handler order decides the class of the exceptions that several handlers catch. */
  lemma ClassifyFollowsHandlerOrder()
    ensures Classify(ServerDisconnected) == Disconnected
    ensures Classify(ResponseException) == SmtpResponse
    ensures Classify(SocketTimeout) == ConnectionTimeout
    ensures Classify(OtherSmtpException) == Socket && Classify(OsError) == Socket
    ensures Classify(OtherException) == Unclassified
  {
  }
}
