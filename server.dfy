/**
 * The per-connection request handler: RequestAgent and the accepted
 * connection it owns.
 */
module Server {
  import opened Wrappers
  import opened Text
  import opened Bytes
  import opened Response
  import opened Request

  /** What one character read from the connection yields. */
  datatype ReadResult = Char(c: char) | EndOfInput | IoError

  /**
   * An accepted connection: the characters the client sends (already
   * decoded as UTF-8), whether it then breaks the connection instead of
   * closing it, the bytes written back, and whether it has been closed.
   */
  class Connection {
    const input: seq<char>
    const reset: bool
    var pos: nat
    var output: seq<byte>
    var closed: bool
    ghost var writes: nat
    ghost var closes: nat

    ghost predicate Valid()
      reads this
    {
      pos <= |input|
    }

    /** What the client has sent that the server has not read yet. */
    function Pending(): seq<char>
      reads this
      requires Valid()
    {
      input[pos..]
    }

    constructor (input: seq<char>, reset: bool)
      ensures Valid() && this.input == input && this.reset == reset
      ensures pos == 0 && output == [] && !closed && writes == 0 && closes == 0
    {
      this.input := input;
      this.reset := reset;
      pos := 0;
      output := [];
      closed := false;
      writes := 0;
      closes := 0;
    }

    /** `in.read()`: the next character, the end of the stream, or an I/O error. */
    method Read() returns (r: ReadResult)
      requires Valid()
      modifies this`pos
      ensures Valid()
      ensures closed ==> r == IoError && pos == old(pos)
      ensures !closed && old(pos) < |input| ==> r == Char(input[old(pos)]) && pos == old(pos) + 1
      ensures !closed && old(pos) == |input| ==> r == (if reset then IoError else EndOfInput) && pos == old(pos)
    {
      if closed {
        r := IoError;
      } else if pos < |input| {
        r := Char(input[pos]);
        pos := pos + 1;
      } else {
        r := if reset then IoError else EndOfInput;
      }
    }

    /** `os.write(bytes)` followed by a flush; writing to a closed socket fails. */
    method Write(bytes: seq<byte>) returns (ok: bool)
      modifies this`output, this`writes
      ensures ok == !closed
      ensures output == if ok then old(output) + bytes else old(output)
      ensures writes == old(writes) + (if ok then 1 else 0)
    {
      ok := !closed;
      if ok {
        output := output + bytes;
        writes := writes + 1;
      }
    }

    /** `conn.close()`. */
    method Close()
      modifies this`closed, this`closes
      ensures closed && closes == old(closes) + 1
    {
      closed := true;
      closes := closes + 1;
    }
  }

  /** The request line `ReadRequestLine` delivers, or why it delivers none. */
  function LineOf(pending: seq<char>, reset: bool): Result<string, Failure> {
    match RequestLine(pending)
    case None => Err(if reset then ReadFailed else EndOfStream)
    case Some(line) => Ok(line)
  }

  class RequestAgent {
    const root: string
    const page: string
    const conn: Connection
    var head: Option<seq<byte>>
    var data: Option<seq<byte>>
    var send: Option<seq<byte>>

    constructor Init(root: string, page: string, conn: Connection)
      ensures this.root == root && this.page == page && this.conn == conn
      ensures head == None && data == None && send == None
    {
      this.root := root;
      this.page := page;
      this.conn := conn;
      head, data, send := None, None, None;
    }

    /**
     * `new RequestAgent(page, conn, root)`: refused when `root` is a regular
     * file; otherwise the root is its canonical form (or stays as given when
     * that cannot be computed) and the page defaults to `index.html`.
     */
    static method Create(page: Option<string>, conn: Connection, root: string,
                         rootIsFile: bool, canonical: Option<string>)
      returns (agent: Option<RequestAgent>)
      ensures agent.None? <==> rootIsFile
      ensures agent.Some? ==>
                fresh(agent.value) && agent.value.conn == conn &&
                agent.value.root == (if canonical.Some? then canonical.value else root) &&
                agent.value.page == (if page.Some? then page.value else DefaultIndex) &&
                agent.value.head == None && agent.value.data == None && agent.value.send == None
    {
      if rootIsFile {
        return None;
      }
      var r := if canonical.Some? then canonical.value else root;
      var p := if page.Some? then page.value else DefaultIndex;
      var a := new RequestAgent.Init(r, p, conn);
      agent := Some(a);
    }

    /**
     * The reading loop of `run()`: characters are appended until the first
     * carriage return or line feed, which is consumed and dropped.
     */
    method ReadRequestLine() returns (r: Result<string, Failure>)
      requires conn.Valid() && !conn.closed
      modifies conn`pos
      ensures conn.Valid()
      ensures r == LineOf(old(conn.Pending()), conn.reset)
      ensures r.Ok? ==> conn.pos == old(conn.pos) + |r.value| + 1
    {
      ghost var start := conn.pos;
      ghost var pending := conn.Pending();
      var request: string := "";
      while true
        invariant conn.Valid() && start <= conn.pos
        invariant request == conn.input[start..conn.pos]
        invariant request == pending[..|request|]
        invariant forall i :: 0 <= i < |request| ==> !IsTerminator(request[i])
        decreases |conn.input| - conn.pos
      {
        var ch := conn.Read();
        match ch
        case IoError =>
          assert forall i :: 0 <= i < |pending| ==> !IsTerminator(pending[i]) by {
            assert pending == request;
          }
          return Err(ReadFailed);
        case EndOfInput =>
          // Java's read() gives -1 here, and the cast to char gives U+FFFF,
          // which is no terminator: the source loop keeps reading forever.
          assert forall i :: 0 <= i < |pending| ==> !IsTerminator(pending[i]) by {
            assert pending == request;
          }
          return Err(EndOfStream);
        case Char(c) =>
          assert c == pending[|request|];
          if c == '\r' || c == '\n' {
            RequestLineAt(pending, |request|);
            return Ok(request);
          }
          request := request + [c];
      }
    }

    /**
     * `run()`: read the request line, select the branch, write the
     * response in one write, and close the connection on every path.
     */
    method Run(fs: FileSystem)
      requires conn.Valid() && !conn.closed
      modifies this, conn
      ensures conn.Valid() && conn.closed && conn.closes == old(conn.closes) + 1
      ensures var b := Exchange(root, fs, old(conn.Pending()), conn.reset);
              && conn.output == old(conn.output) + Written(b)
              && conn.writes == old(conn.writes) + (if Written(b) == [] then 0 else 1)
              && data == (if Loaded(b).Some? then Loaded(b) else old(data))
              && head == (if HeaderOf(b).Some? then HeaderOf(b) else old(head))
              && send == (if Written(b) != [] then Some(Written(b)) else old(send))
    {
      var request := ReadRequestLine();
      if request.Ok? {
        Handle(request.value, fs);
      }
      conn.Close();
    }

    /** The body of `run()`'s try block once the request line is in. */
    method Handle(getPage: string, fs: FileSystem)
      requires !conn.closed
      modifies this, conn`output, conn`writes
      ensures var b := Respond(root, fs, getPage);
              && conn.output == old(conn.output) + Written(b)
              && conn.writes == old(conn.writes) + (if Written(b) == [] then 0 else 1)
              && data == (if Loaded(b).Some? then Loaded(b) else old(data))
              && head == (if HeaderOf(b).Some? then HeaderOf(b) else old(head))
              && send == (if Written(b) != [] then Some(Written(b)) else old(send))
    {
      var tokens := Split(getPage);
      if tokens == [] {
        SilentBranch(Aborted(NoTokens));
        return;  // tokens[0] raises an index error
      }
      var reqType := tokens[0];
      if reqType == "GET" {
        HandleGet(tokens, fs);
      } else {
        var file501 := Join(root, NotImplementedPage);
        if file501 in fs {  // otherwise readAllBytes raises an I/O error
          AnsweringBranch(NotImplemented(fs[file501]), Header501, fs[file501]);
          SendPage(Header501, fs[file501]);
        } else {
          SilentBranch(Aborted(NotImplementedPageMissing));
        }
      }
    }

    /** The GET branch of `run()`. */
    method HandleGet(tokens: seq<string>, fs: FileSystem)
      requires tokens != [] && WellFormed(tokens) && !conn.closed
      modifies this`head, this`data, this`send, conn`output, conn`writes
      ensures var b := RespondGet(root, fs, tokens);
              && conn.output == old(conn.output) + Written(b)
              && conn.writes == old(conn.writes) + (if Written(b) == [] then 0 else 1)
              && data == (if Loaded(b).Some? then Loaded(b) else old(data))
              && head == (if HeaderOf(b).Some? then HeaderOf(b) else old(head))
              && send == (if Written(b) != [] then Some(Written(b)) else old(send))
    {
      var version := "";
      if |tokens| < 2 {
        SilentBranch(Aborted(NoTarget));
        return;  // tokens[1] raises an index error
      }
      var pathAndFile := tokens[1];
      if |tokens| > 2 {
        version := tokens[2];
      }
      var file := Resolve(root, pathAndFile);
      if file in fs {
        data := Some(fs[file]);
        if StartsWith(version, "HTTP/") {
          AnsweringBranch(Served(file, fs[file]), HeaderOk, fs[file]);
          SendPage(HeaderOk, fs[file]);
        } else {
          SilentBranch(Withheld(file, fs[file]));
        }
      } else {
        var file401 := Join(root, NotFoundPage);
        if file401 in fs {  // otherwise readAllBytes raises an I/O error
          AnsweringBranch(NotFound(file, fs[file401]), Header401, fs[file401]);
          SendPage(Header401, fs[file401]);
        } else {
          SilentBranch(Aborted(NotFoundPageMissing));
        }
      }
    }

    /** Loads `body` into `data`, frames it under the status text `code`, and writes the frame. */
    method SendPage(code: string, body: seq<byte>)
      requires IsAscii(code) && !conn.closed
      modifies this`head, this`data, this`send, conn`output, conn`writes
      ensures data == Some(body)
      ensures head == Some(Ascii(CraftHeader(code, HeaderHtml, |body|)))
      ensures send == Some(Frame(code, body))
      ensures conn.output == old(conn.output) + Frame(code, body)
      ensures conn.writes == old(conn.writes) + 1
    {
      data := Some(body);
      head := Some(Ascii(CraftHeader(code, HeaderHtml, |data.value|)));
      send := Some(Concat(head.value, data.value));
      var _ := conn.Write(send.value);
    }
  }

  /**
   * Two connections that send the same characters to agents over the same
   * root and files receive byte-identical responses, and both are closed.
   */
  method ServeTwice(root: string, fs: FileSystem, input: seq<char>, reset: bool)
    returns (first: seq<byte>, second: seq<byte>, bothClosed: bool)
    ensures first == second == Written(Exchange(root, fs, input, reset))
    ensures bothClosed
  {
    first, bothClosed := ServeOnce(root, fs, input, reset);
    var closed2;
    second, closed2 := ServeOnce(root, fs, input, reset);
    bothClosed := bothClosed && closed2;
  }

  /** One connection handed to a fresh agent: what it receives, and whether it ends closed. */
  method ServeOnce(root: string, fs: FileSystem, input: seq<char>, reset: bool)
    returns (received: seq<byte>, closed: bool)
    ensures received == Written(Exchange(root, fs, input, reset))
    ensures closed
  {
    var c := new Connection(input, reset);
    assert c.Pending() == input;
    var agent := RequestAgent.Create(Some(DefaultIndex), c, root, false, None);
    var a := agent.value;
    a.Run(fs);
    received, closed := c.output, c.closed;
  }
}
