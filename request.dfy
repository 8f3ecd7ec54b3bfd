/**
 * Request Parser, Path Resolver and branch selection of RequestAgent.run():
 * what one connection's handling produces, as functions of the characters
 * the client sends, the document root and the files under it.
 */
module Request {
  import opened Wrappers
  import opened Text
  import opened Bytes
  import opened Response

  /** Readable files by path; a path is readable exactly when it is a key. */
  type FileSystem = map<string, seq<byte>>

  /** Appended to a target that names a directory; the agent's `page` setting is not consulted. */
  const DefaultIndex: string := "index.html"
  /** The fallback documents, directly under the root. */
  const NotFoundPage: string := "401.html"
  const NotImplementedPage: string := "501.html"

  predicate IsTerminator(c: char) {
    c == '\r' || c == '\n'
  }

  /**
   * The request line: the characters before the first carriage return or
   * line feed, without that terminator; `None` when the input holds no
   * terminator at all.
   */
  function RequestLine(s: seq<char>): (r: Option<string>)
    ensures r.None? <==> forall i :: 0 <= i < |s| ==> !IsTerminator(s[i])
    ensures r.Some? ==> |r.value| < |s| && s[..|r.value|] == r.value && IsTerminator(s[|r.value|])
    ensures r.Some? ==> forall i :: 0 <= i < |r.value| ==> !IsTerminator(r.value[i])
  {
    if s == [] then None
    else if IsTerminator(s[0]) then Some("")
    else
      match RequestLine(s[1..])
      case None => None
      case Some(l) =>
        assert s[..1 + |l|] == [s[0]] + s[1..][..|l|];
        Some([s[0]] + l)
  }

  /** The request line is fixed by the first terminator: everything before it, nothing after. */
  lemma {:induction false} RequestLineAt(s: seq<char>, n: nat)
    requires n < |s| && IsTerminator(s[n])
    requires forall i :: 0 <= i < n ==> !IsTerminator(s[i])
    ensures RequestLine(s) == Some(s[..n])
  {
    if n > 0 {
      RequestLineAt(s[1..], n - 1);
      assert [s[0]] + s[1..][..n - 1] == s[..n];
    }
  }

  /** `new File(dir, name)`: `name` under the directory `dir`. */
  function Join(dir: string, name: string): (path: string)
    ensures |path| == |dir| + 1 + |name|
    ensures StartsWith(path, dir + "/") && path[|dir| + 1..] == name
  {
    dir + "/" + name
  }

  /**
   * The file a GET target names: `index.html` is appended to a target
   * ending in `/`, the first character is dropped, and the rest is joined
   * under the root. No `..` segment is checked for.
   */
  function Resolve(root: string, target: string): (path: string)
    requires target != ""
    ensures StartsWith(path, root + "/")
    ensures path[|root| + 1..] == target[1..] + (if EndsWith(target, "/") then DefaultIndex else "")
  {
    var pathAndFile := if EndsWith(target, "/") then target + DefaultIndex else target;
    assert pathAndFile[1..] == target[1..] + (if EndsWith(target, "/") then DefaultIndex else "");
    Join(root, pathAndFile[1..])
  }

  /** Why a connection ends without a response. */
  datatype Failure =
    | EndOfStream             // the client stopped sending before a terminator
    | ReadFailed              // reading the request raised an I/O error
    | NoTokens                // whitespace-only line: `tokens[0]` is out of bounds
    | NoTarget                // a bare `GET`: `tokens[1]` is out of bounds
    | NotFoundPageMissing     // `401.html` could not be read
    | NotImplementedPageMissing  // `501.html` could not be read

  /** The branch one request takes, with the bytes read from disk on the way. */
  datatype Branch =
    | Served(file: string, body: seq<byte>)      // GET, file readable, version starts with "HTTP/"
    | Withheld(file: string, body: seq<byte>)    // GET, file readable, any other version
    | NotFound(file: string, body: seq<byte>)    // GET, file unreadable: `body` is 401.html
    | NotImplemented(body: seq<byte>)            // any other method: `body` is 501.html
    | Aborted(why: Failure)

  /** The branch selection of `run()` for one request line. */
  function Respond(root: string, fs: FileSystem, line: string): (b: Branch)
    ensures b == Aborted(NoTokens) <==> Split(line) == []
    ensures EnteredGet(b) <==> Split(line) != [] && Split(line)[0] == "GET"
    ensures b.NotImplemented? ==> Join(root, NotImplementedPage) in fs && b.body == fs[Join(root, NotImplementedPage)]
    ensures b == Aborted(NotImplementedPageMissing) ==> Join(root, NotImplementedPage) !in fs
    ensures b != Aborted(EndOfStream) && b != Aborted(ReadFailed)
  {
    var tokens := Split(line);
    if tokens == [] then Aborted(NoTokens)
    else if tokens[0] != "GET" then
      var fallback := Join(root, NotImplementedPage);
      if fallback in fs then NotImplemented(fs[fallback]) else Aborted(NotImplementedPageMissing)
    else RespondGet(root, fs, tokens)
  }

  /** The GET branch, given the tokens of a line whose first token is "GET". */
  function RespondGet(root: string, fs: FileSystem, tokens: seq<string>): (b: Branch)
    requires tokens != [] && WellFormed(tokens)
    ensures EnteredGet(b)
    ensures b == Aborted(NoTarget) <==> |tokens| < 2
    ensures |tokens| >= 2 ==> (b.Served? || b.Withheld? <==> Resolve(root, tokens[1]) in fs)
    ensures b.Served? || b.Withheld? || b.NotFound? ==> |tokens| >= 2 && b.file == Resolve(root, tokens[1])
    ensures b.Served? || b.Withheld? ==> b.file in fs && b.body == fs[b.file]
    ensures b.Served? ==> |tokens| > 2 && StartsWith(tokens[2], "HTTP/")
    ensures b.NotFound? ==> Join(root, NotFoundPage) in fs && b.body == fs[Join(root, NotFoundPage)]
  {
    if |tokens| < 2 then Aborted(NoTarget)
    else
      var version := if |tokens| > 2 then tokens[2] else "";
      var file := Resolve(root, tokens[1]);
      if file in fs then
        if StartsWith(version, "HTTP/") then Served(file, fs[file]) else Withheld(file, fs[file])
      else
        var fallback := Join(root, NotFoundPage);
        if fallback in fs then NotFound(file, fs[fallback]) else Aborted(NotFoundPageMissing)
  }

  /** The whole exchange: the client sends `pending`, then closes or (if `reset`) breaks the connection. */
  function Exchange(root: string, fs: FileSystem, pending: seq<char>, reset: bool): (b: Branch)
    ensures RequestLine(pending).None? <==> b == Aborted(EndOfStream) || b == Aborted(ReadFailed)
    ensures RequestLine(pending).None? ==> b == Aborted(if reset then ReadFailed else EndOfStream)
  {
    match RequestLine(pending)
    case None => Aborted(if reset then ReadFailed else EndOfStream)
    case Some(line) => Respond(root, fs, line)
  }

  /** The bytes the branch reads from disk into the agent's `data` field. */
  function Loaded(b: Branch): (r: Option<seq<byte>>)
    ensures r.None? <==> b.Aborted?
    ensures r.Some? ==> r.value == b.body
  {
    match b
    case Aborted(_) => None
    case NotImplemented(body) => Some(body)
    case _ => Some(b.body)
  }

  /** The status text of the header the branch builds, if it builds one. */
  function StatusOf(b: Branch): Option<string> {
    match b
    case Served(_, _) => Some(HeaderOk)
    case NotFound(_, _) => Some(Header401)
    case NotImplemented(_) => Some(Header501)
    case _ => None
  }

  /** The header bytes the branch builds into the agent's `head` field. */
  function HeaderOf(b: Branch): (r: Option<seq<byte>>)
    ensures r.Some? <==> b.Served? || b.NotFound? || b.NotImplemented?
    ensures r.Some? ==> r.value == Ascii(CraftHeader(HeaderOk, HeaderHtml, |Loaded(b).value|))
  {
    match StatusOf(b)
    case None => None
    case Some(code) =>
      StatusTexts();
      assert code == HeaderOk;
      var header := CraftHeader(code, HeaderHtml, |Loaded(b).value|);
      assert IsAscii(header);
      Some(Ascii(header))
  }

  /** The bytes the branch writes to the connection, in a single write. */
  function Written(b: Branch): (w: seq<byte>)
    ensures w == [] <==> b.Withheld? || b.Aborted?
    ensures w != [] ==> IsAscii(HeaderOk) && w == Frame(HeaderOk, Loaded(b).value)
  {
    match HeaderOf(b)
    case None => []
    case Some(head) => Concat(head, Loaded(b).value)
  }

  /** What each branch that answers puts in `data`, `head` and on the wire. */
  lemma AnsweringBranch(b: Branch, code: string, body: seq<byte>)
    requires b.Served? || b.NotFound? || b.NotImplemented?
    requires code == HeaderOk && body == Loaded(b).value
    ensures IsAscii(code)
    ensures HeaderOf(b) == Some(Ascii(CraftHeader(code, HeaderHtml, |body|)))
    ensures Written(b) == Frame(code, body) != []
  {
  }

  /** What each branch that does not answer leaves: no header and nothing written. */
  lemma SilentBranch(b: Branch)
    requires b.Withheld? || b.Aborted?
    ensures HeaderOf(b).None? && Written(b) == []
    ensures Loaded(b) == if b.Withheld? then Some(b.body) else None
  {
  }

  /** The branches `run()` reaches only after matching the method token against "GET". */
  predicate EnteredGet(b: Branch) {
    b.Served? || b.Withheld? || b.NotFound? || b == Aborted(NoTarget) || b == Aborted(NotFoundPageMissing)
  }

  /**
   * The GET branch is entered exactly when the line starts with the three
   * characters `GET` followed by whitespace or the end of the line: the
   * method match is exact and case-sensitive, and a line with leading
   * whitespace never matches.
   */
  lemma GetDispatch(root: string, fs: FileSystem, line: string)
    ensures EnteredGet(Respond(root, fs, line)) <==>
              StartsWith(line, "GET") && (|line| == 3 || IsWs(line[3]))
  {
    MethodTokenIsGet(line);
    var tokens := Split(line);
    if tokens != [] && tokens[0] == "GET" {
      assert Respond(root, fs, line) == RespondGet(root, fs, tokens);
    }
  }

  /** The first token is "GET" exactly when the line starts with "GET" and whitespace or its end. */
  lemma MethodTokenIsGet(line: string)
    ensures Split(line) != [] && Split(line)[0] == "GET" <==>
              StartsWith(line, "GET") && (|line| == 3 || IsWs(line[3]))
  {
    var tokens := Split(line);
    if StartsWith(line, "GET") && (|line| == 3 || IsWs(line[3])) {
      assert line[..3] == "GET" && NoWs("GET");
      if |line| == 3 {
        assert line == "GET";
      } else {
        assert line == "GET" + line[3..];
        FirstWsAfter("GET", line[3..]);
      }
    }
  }

  /**
   * On every path other than GET the request target and the requested file
   * play no part: the result depends only on whether there is a method
   * token and on `root/501.html`.
   */
  lemma OtherMethodsServeNotImplemented(root: string, fs: FileSystem, line: string)
    requires !EnteredGet(Respond(root, fs, line))
    ensures Split(line) == [] ==> Respond(root, fs, line) == Aborted(NoTokens)
    ensures Split(line) != [] ==> Split(line)[0] != "GET"
    ensures Split(line) != [] ==>
              Respond(root, fs, line) ==
                if Join(root, NotImplementedPage) in fs
                then NotImplemented(fs[Join(root, NotImplementedPage)])
                else Aborted(NotImplementedPageMissing)
  {
  }

  /** An empty request line is answered from `501.html`; a whitespace-only one gets no answer. */
  lemma EmptyAndBlankLines(root: string, fs: FileSystem, line: string)
    requires AllWs(line)
    ensures line == "" ==> !EnteredGet(Respond(root, fs, line)) && Respond(root, fs, line) != Aborted(NoTokens)
    ensures line != "" ==> Respond(root, fs, line) == Aborted(NoTokens) && Written(Respond(root, fs, line)) == []
  {
  }

  /**
   * What a GET request reads, in both directions: a bare `GET` aborts; a
   * readable resolved file is served when the version starts with "HTTP/"
   * and withheld otherwise; an unreadable one is answered from
   * `root/401.html`, or aborts when that page is missing too.
   */
  lemma GetReadsResolvedFile(root: string, fs: FileSystem, line: string)
    requires Split(line) != [] && Split(line)[0] == "GET"
    ensures |Split(line)| < 2 ==> Respond(root, fs, line) == Aborted(NoTarget)
    ensures |Split(line)| >= 2 ==>
              var tokens := Split(line);
              var file := Resolve(root, tokens[1]);
              var gate := |tokens| > 2 && StartsWith(tokens[2], "HTTP/");
              var page := Join(root, NotFoundPage);
              Respond(root, fs, line) ==
                if file in fs then (if gate then Served(file, fs[file]) else Withheld(file, fs[file]))
                else if page in fs then NotFound(file, fs[page])
                else Aborted(NotFoundPageMissing)
  {
    assert Respond(root, fs, line) == RespondGet(root, fs, Split(line));
  }

  /**
   * The version gate: a readable file is written only when the third token
   * exists and starts with "HTTP/"; otherwise nothing at all is written.
   */
  lemma VersionGate(root: string, fs: FileSystem, line: string)
    requires |Split(line)| >= 2 && Split(line)[0] == "GET"
    requires Resolve(root, Split(line)[1]) in fs
    ensures Written(Respond(root, fs, line)) != [] <==>
              |Split(line)| > 2 && StartsWith(Split(line)[2], "HTTP/")
  {
    var b := Respond(root, fs, line);
    if b.Served? {
      assert HeaderOf(b).Some?;
    }
  }

  /** A target ending in `/` names `index.html` in that directory; `/` itself names `root/index.html`. */
  lemma ResolveDirectory(root: string, target: string)
    requires target != "" && EndsWith(target, "/")
    ensures Resolve(root, target) == root + "/" + target[1..] + DefaultIndex
    ensures target == "/" ==> Resolve(root, target) == root + "/" + DefaultIndex
  {
    var rest := target[1..] + DefaultIndex;
    assert (target + DefaultIndex)[1..] == rest;
    assert Resolve(root, target) == Join(root, rest);
    assert Join(root, rest) == root + "/" + target[1..] + DefaultIndex;
    if target == "/" {
      assert target[1..] == [];
    }
  }

  /** No `..` check: a target can name a path outside the root. */
  lemma ResolveKeepsDotDot(root: string)
    ensures Resolve(root, "/../secret") == root + "/../secret"
  {
  }

  /**
   * Framing is exact on every branch that writes: the header's declared
   * length is the number of bytes that follow it, and those bytes are the
   * ones read from disk.
   */
  lemma {:induction false} WrittenFramingExact(b: Branch)
    requires Written(b) != []
    ensures Loaded(b).Some?
    ensures ParseFrame(HeaderOk, Written(b)) == Some(Framed(|Loaded(b).value|, Loaded(b).value))
  {
    var code := StatusOf(b).value;
    assert code == HeaderOk;
    assert IsAscii(code);
    FrameRoundTrip(code, Loaded(b).value);
  }

  /** Nothing is written unless a request line arrived and a document was read. */
  lemma SilentBranches(root: string, fs: FileSystem, pending: seq<char>, reset: bool)
    ensures var b := Exchange(root, fs, pending, reset);
            Written(b) == [] <==> b.Withheld? || b.Aborted?
    ensures RequestLine(pending).None? ==> Written(Exchange(root, fs, pending, reset)) == []
  {
    var b := Exchange(root, fs, pending, reset);
    if b.Served? || b.NotFound? || b.NotImplemented? {
      assert HeaderOf(b).Some?;
    }
  }

  /**
   * A request line of three tokens, separated by any runs of whitespace and
   * followed by any trailing whitespace, splits into exactly those tokens.
   */
  lemma SplitRequestLine(method_: string, target: string, version: string,
                         sep1: string, sep2: string, trail: string)
    requires target != "" && version != ""
    requires NoWs(method_) && NoWs(target) && NoWs(version)
    requires sep1 != "" && AllWs(sep1) && sep2 != "" && AllWs(sep2) && AllWs(trail)
    ensures Split(method_ + sep1 + target + sep2 + version + trail) == [method_, target, version]
  {
    var ts := [method_, target, version];
    var seps := [sep1, sep2];
    assert JoinWith(ts[1..][1..], seps[1..][1..]) == version;
    assert JoinWith(ts[1..], seps[1..]) == target + sep2 + version;
    assert JoinWith(ts, seps) == method_ + sep1 + (target + sep2 + version);
    SplitJoinWith(ts, seps, trail);
    assert method_ + sep1 + (target + sep2 + version) + trail ==
           method_ + sep1 + target + sep2 + version + trail;
  }

  /** A bare `GET`, with or without trailing whitespace, has no target and gets no answer. */
  lemma BareGet(root: string, fs: FileSystem, trail: string)
    requires AllWs(trail)
    ensures Split("GET" + trail) == ["GET"]
    ensures Respond(root, fs, "GET" + trail) == Aborted(NoTarget)
  {
    assert JoinWith(["GET"], []) == "GET";
    SplitJoinWith(["GET"], [], trail);
  }

  /**
   * A request for a directory with an "HTTP/" version is served the
   * directory's `index.html`, framed with its exact length: for `/` that is
   * `root/index.html`.
   */
  lemma ServeDirectoryIndex(root: string, fs: FileSystem, line: string, dir: string, version: string)
    requires Split(line) == ["GET", dir, version]
    requires EndsWith(dir, "/") && StartsWith(version, "HTTP/")
    requires Join(root, dir[1..] + DefaultIndex) in fs
    ensures Respond(root, fs, line) ==
              Served(root + "/" + dir[1..] + DefaultIndex, fs[Join(root, dir[1..] + DefaultIndex)])
    ensures ParseFrame(HeaderOk, Written(Respond(root, fs, line))) ==
              Some(Framed(|fs[Join(root, dir[1..] + DefaultIndex)]|, fs[Join(root, dir[1..] + DefaultIndex)]))
  {
    var b := Respond(root, fs, line);
    assert b == RespondGet(root, fs, Split(line));
    ResolveDirectory(root, dir);
    assert b.Served?;
    AnsweringBranch(b, HeaderOk, b.body);
    WrittenFramingExact(b);
  }

  /** Any other method is answered from `501.html`; the target's file is never looked at. */
  lemma ServeOtherMethod(root: string, fs: FileSystem, line: string, method_: string)
    requires Split(line) != [] && Split(line)[0] == method_ && method_ != "GET"
    ensures Respond(root, fs, line) ==
              if Join(root, NotImplementedPage) in fs
              then NotImplemented(fs[Join(root, NotImplementedPage)])
              else Aborted(NotImplementedPageMissing)
  {
  }

  /**
   * A GET for a readable file with an "HTTP/" version is served that file,
   * framed with its exact length.
   */
  lemma ServeReadableFile(root: string, fs: FileSystem, line: string)
    requires |Split(line)| > 2 && Split(line)[0] == "GET" && StartsWith(Split(line)[2], "HTTP/")
    requires Resolve(root, Split(line)[1]) in fs
    ensures var file := Resolve(root, Split(line)[1]);
            && Respond(root, fs, line) == Served(file, fs[file])
            && ParseFrame(HeaderOk, Written(Respond(root, fs, line))) == Some(Framed(|fs[file]|, fs[file]))
  {
    var b := Respond(root, fs, line);
    assert b == RespondGet(root, fs, Split(line));
    assert b.Served?;
    WrittenFramingExact(b);
  }

  /**
   * A GET for a file that is not readable, whatever the version and however
   * many tokens follow, is answered from `401.html`, framed with its exact
   * length; nothing is answered when that page is missing too.
   */
  lemma ServeMissingFile(root: string, fs: FileSystem, line: string)
    requires |Split(line)| >= 2 && Split(line)[0] == "GET"
    requires Resolve(root, Split(line)[1]) !in fs
    ensures var page := Join(root, NotFoundPage);
            Respond(root, fs, line) ==
              if page in fs then NotFound(Resolve(root, Split(line)[1]), fs[page]) else Aborted(NotFoundPageMissing)
    ensures var page := Join(root, NotFoundPage);
            page in fs ==>
              ParseFrame(HeaderOk, Written(Respond(root, fs, line))) == Some(Framed(|fs[page]|, fs[page]))
  {
    var b := Respond(root, fs, line);
    assert b == RespondGet(root, fs, Split(line));
    if b.NotFound? {
      WrittenFramingExact(b);
    }
  }

  /** A client that sends no terminator and then closes gets no bytes back. */
  lemma NoTerminatorNoResponse(root: string, fs: FileSystem, pending: seq<char>)
    requires forall i :: 0 <= i < |pending| ==> !IsTerminator(pending[i])
    ensures Exchange(root, fs, pending, false) == Aborted(EndOfStream)
    ensures Written(Exchange(root, fs, pending, false)) == []
  {
  }
}
