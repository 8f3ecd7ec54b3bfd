# SimpleHTTP request handling, modelled in Dafny

SimpleHTTP is a small multi-threaded HTTP/1.0 file server written in Java. For each accepted
connection it runs a `RequestAgent`. The agent does the following:

- reads one request line, up to the first carriage return or line feed;
- splits the line on runs of whitespace;
- serves the file named by a `GET` target from the document root;
- falls back to `401.html` for a file it cannot read, and to `501.html` for any other method;
- writes the header and body in one write, then closes the connection.

This project models that agent and proves properties of the model.

The model is split by the components of the agent:

- `Text` (`text.dfy`): the Java library behaviour the agent relies on. This is
  `String.split("\\s+")` (`Split`, with the Java edge cases: a leading empty token, dropped
  trailing empty tokens, `[""]` for an empty line and no tokens at all for a whitespace-only
  line), plus `startsWith` and `endsWith`.
- `Bytes`, `Numerals` (`bytes.dfy`, `numerals.dfy`): bytes, the ASCII part of UTF-8, and
  `Integer.toString` with its read-back.
- `Response` (`response.dfy`): `craftHeader` and `concat`. It also holds a reader for the
  header layout (`ParseFrame`), which is used to state that the framing is exact.
- `Request` (`request.dfy`): the request line (`RequestLine`), path resolution (`Resolve`) and
  branch selection. Branch selection is written as functions of the input: `Respond` for one
  request line, and `Exchange` for the whole client input. These functions are the
  specification that the imperative agent is proved against.
- `Server` (`server.dfy`): the classes. `Connection` stands for the accepted socket and its
  streams: the characters the client sends, the bytes written back, and a `closed` flag.
  `RequestAgent` has the source's fields: `root`, `page`, `conn`, `head`, `data` and `send`.
  Its `Run` method contains the character-reading loop and the branch code. `Run` is proved to
  write exactly `Written(Exchange(...))` and to close the connection once on every path.

The file system is a value of type `map<string, seq<byte>>`. A path is readable exactly when it
is a key.

Behaviours of the source that the model keeps:

- Every status line is `HTTP/1.0 200 OK`, including the not-found and not-implemented answers
  (`RequestAgent.java:45-47`).
- A `GET` whose file is readable writes nothing unless the third token starts with `HTTP/`.
- The agent's `page` setting is never used. A directory target always gets `index.html`.
- No `..` check is made, so a target can name a path outside the root (`ResolveKeepsDotDot`).
- A line of whitespace only, such as a single space, splits into zero tokens. `tokens[0]` then
  raises an index error, and the connection is closed with no answer (`EmptyAndBlankLines`).
  Such a line never reaches the `501.html` branch, because `tokens[0]` at
  `RequestAgent.java:91` throws first. An empty line does reach the `501.html` branch, because
  it splits into one empty token.
- A bare `GET` with no target raises an index error. This is modelled as `Aborted(NoTarget)`:
  nothing is written and the connection is closed.

## Model

| member | source | states |
|---|---|---|
| Request.RequestLine | src/Server/RequestAgent.java:77-86 | The request line is the input up to the first `\r` or `\n`, without the terminator. It holds no terminator. There is no line exactly when the input holds no terminator. |
| Request.RequestLineAt | src/Server/RequestAgent.java:80-84 | If position `n` holds the first terminator, the request line is exactly the first `n` characters. |
| Server.RequestAgent.ReadRequestLine | src/Server/RequestAgent.java:77-86 | The loop consumes characters up to and including the first terminator. It returns `RequestLine` of the pending input. At end of input it returns `EndOfStream`, or `ReadFailed` when the connection breaks. |
| Text.Split | src/Server/RequestAgent.java:90 | `split("\\s+")`: no token holds whitespace, and every token after the first is non-empty. The first token is the line up to its first whitespace. There are no tokens exactly when the line is non-empty and all whitespace. `SplitJoinWith` fixes every later token. |
| Text.SplitJoinWith | src/Server/RequestAgent.java:90 | Take any well-formed token list. Join it with non-empty whitespace runs of any length and kind (space, tab, VT, FF, CR, LF), then add any trailing whitespace. Splitting gives back exactly that list, so trailing empty tokens are dropped. The one exception is a lone empty token followed by whitespace, which is a whitespace-only line. |
| Request.SplitRequestLine | src/Server/RequestAgent.java:90-98 | `method target version`, separated by any whitespace runs and followed by any trailing whitespace, splits into exactly those three tokens. |
| Request.BareGet | src/Server/RequestAgent.java:90-95 | `GET` followed only by whitespace splits into `["GET"]`. `tokens[1]` then fails, and there is no answer. |
| Request.MethodTokenIsGet | src/Server/RequestAgent.java:90-93 | The first token is `"GET"` exactly when the line starts with `GET` followed by whitespace or the end of the line. |
| Request.GetDispatch | src/Server/RequestAgent.java:90-93 | The GET branch is entered exactly when the line starts with `GET` followed by whitespace or the end. The match is case-sensitive, and a line that starts with whitespace never matches. |
| Request.OtherMethodsServeNotImplemented | src/Server/RequestAgent.java:133-140 | Off the GET path the result depends only on `root/501.html`. The target and the requested file play no part. |
| Request.ServeOtherMethod | src/Server/RequestAgent.java:133-140 | Any first token other than `"GET"` is answered from `root/501.html`, or aborts if that file is missing. |
| Request.EmptyAndBlankLines | src/Server/RequestAgent.java:90-93 | An empty line takes the not-implemented path. A non-empty whitespace-only line has no tokens: it aborts, and nothing is written. |
| Request.Resolve | src/Server/RequestAgent.java:95-102 | The resolved path is `root + "/"` followed by the target minus its first character, plus `index.html` when the target ends in `/`. |
| Request.ResolveDirectory | src/Server/RequestAgent.java:96-102 | A target ending in `/` resolves to `root/<target without its first char>index.html`. The target `/` resolves to `root/index.html`. |
| Request.ResolveKeepsDotDot | src/Server/RequestAgent.java:102 | No `..` check: `/../secret` resolves to `root/../secret`. |
| Request.GetReadsResolvedFile | src/Server/RequestAgent.java:93-132 | For every line whose first token is `GET`, the result is determined exactly: <br>• with no second token, it aborts; <br>• if the file at `Resolve(root, tokens[1])` is readable, that file and its bytes are served when a third token starts with `HTTP/`, and withheld otherwise; <br>• if it is unreadable, the answer is `root/401.html`, or an abort when that page is missing. |
| Request.VersionGate | src/Server/RequestAgent.java:92-118 | For a readable file, bytes are written exactly when there is a third token and it starts with `HTTP/`. |
| Request.ServeReadableFile | src/Server/RequestAgent.java:105-112 | A GET with an `HTTP/` version for a readable file is served that file. Reading back the response gives the file's exact length and bytes. |
| Request.ServeMissingFile | src/Server/RequestAgent.java:123-131 | A GET for an unreadable file, with any number of tokens after the target, is answered from `root/401.html`. Reading back the response gives that page's exact length and bytes. When the page is missing, there is no answer. |
| Request.ServeDirectoryIndex | src/Server/RequestAgent.java:93-112 | `GET <dir>/ HTTP/...` serves `root/<dir>index.html`, and reading back the response gives its exact length and bytes. |
| Request.SilentBranches | src/Server/RequestAgent.java:105-141 | Nothing is written exactly on the version-gated and aborted paths. An input without a request line never gets an answer. |
| Request.NoTerminatorNoResponse | src/Server/RequestAgent.java:80-84 | A client that sends no terminator and then closes gets no bytes. |
| Request.Join | src/Server/RequestAgent.java:102 | `new File(dir, name)`: the path is `dir`, one separator, then exactly `name`. |
| Request.Respond | src/Server/RequestAgent.java:90-141 | Branch selection for one line. It aborts with `NoTokens` exactly when the line splits into no tokens. It takes a GET branch exactly when the first token is `GET`. A not-implemented answer carries the bytes of `root/501.html`. A missing `501.html` aborts. |
| Request.RespondGet | src/Server/RequestAgent.java:93-132 | The GET branch. It aborts with `NoTarget` exactly when there is no second token. It serves or withholds exactly when the resolved file is readable, and then carries that file and its bytes. It serves only when a third token starts with `HTTP/`. A not-found answer names the resolved file and carries `root/401.html`. |
| Request.Exchange | src/Server/RequestAgent.java:77-141 | The whole connection. It fails in reading exactly when the input holds no terminator. It then reports `ReadFailed` when the client broke the connection, and `EndOfStream` when the client closed it. |
| Request.Loaded | src/Server/RequestAgent.java:107-136 | What ends up in `data`: the document read on every branch except an abort. |
| Request.HeaderOf | src/Server/RequestAgent.java:110-137 | What ends up in `head`. A header is built exactly on the three answering branches. It is always the `200 OK` header for the loaded document's length, because the three status texts are equal. |
| Request.Written | src/Server/RequestAgent.java:108-140 | What goes on the wire. Nothing is written exactly on the withheld and aborted branches. Otherwise the source writes the `200 OK` header for the loaded document, followed by the document. |
| Text.StartsWithAt | src/Server/RequestAgent.java:108 | `version.startsWith("HTTP/")`: true exactly when the prefix is no longer than the string and they agree at every position of the prefix. |
| Text.EndsWithAt | src/Server/RequestAgent.java:96 | `pathAndFile.endsWith("/")`: true exactly when the suffix is no longer than the string and it matches the string's last characters position by position. |
| Bytes.Ascii | src/Server/RequestAgent.java:110 | `getBytes(StandardCharsets.UTF_8)` for ASCII text only: one byte per character, each byte equal to the character's code. The same call is at lines 128 and 137. |
| Response.CraftHeader | src/Server/RequestAgent.java:161-167 | The header starts with the status text, the fixed `text/html; charset=utf-8` line and the length field. It ends with `"\n\n"`, and it is ASCII whenever the status text is. |
| Response.CraftHeaderIgnoresType | src/Server/RequestAgent.java:161-164 | The header does not depend on the content type passed in. |
| Response.Concat | src/Server/RequestAgent.java:177-183 | `concat(a, b)` has length `\|a\| + \|b\|`, with `a` as its prefix and `b` as its suffix. |
| Numerals.Decimal | src/Server/RequestAgent.java:164 | The length in the header is one or more decimal digits, with no leading zero: a leading `0` means the length is 0, and 0 is printed as the single digit `0`. |
| Numerals.DecimalValue | src/Server/RequestAgent.java:164 | The decimal digits written for a length read back as that length. |
| Response.FrameRoundTrip | src/Server/RequestAgent.java:110-111 | Reading back header ++ body gives a declared length equal to the body's byte length, and exactly the body. |
| Request.WrittenFramingExact | src/Server/RequestAgent.java:108-140 | On all three writing branches, the declared content-length equals the number of body bytes after the header, and those bytes are the loaded document. |
| Server.Connection.Read | src/Server/RequestAgent.java:81 | `in.read()` yields the next pending character. At the end of input it yields end-of-stream, or an I/O error if the peer broke the connection or the socket is closed. |
| Server.Connection.Write | src/Server/RequestAgent.java:112 | A write to an open connection appends the bytes, and counts as one write. A write to a closed one fails and changes nothing. |
| Server.Connection.Close | src/Server/RequestAgent.java:147 | After `close()` the connection is closed, and the close count rises by one. |
| Server.RequestAgent.Create | src/Server/RequestAgent.java:56-69 | A root that is a regular file is refused. Otherwise the agent gets the canonical root (or the given root when that cannot be computed), the given page or `index.html`, and the connection. |
| Server.RequestAgent.Run | src/Server/RequestAgent.java:71-152 | The output becomes the old output plus `Written(Exchange(...))`, in at most one write. `data`, `head` and `send` take the branch's values. On every path the connection is closed exactly once. |
| Server.RequestAgent.Handle | src/Server/RequestAgent.java:90-141 | After the line is read, the writes and fields match `Respond(root, fs, line)`. |
| Server.RequestAgent.HandleGet | src/Server/RequestAgent.java:93-132 | The GET branch's writes and fields match `RespondGet`: serve, withhold, `401.html`, or abort. |
| Server.RequestAgent.SendPage | src/Server/RequestAgent.java:110-113 | Loads the body into `data`, the header into `head` and header ++ body into `send`. It writes that frame once. |
| Server.ServeOnce | src/Server/Server.java:61-64 | A connection handed to an agent made by `Create`, over a root that is a directory, receives exactly `Written(Exchange(...))` of its input, and ends closed. |
| Server.ServeTwice | src/Server/Server.java:61-64 | Two connections that send the same input, against the same root and files, get byte-identical responses. Both end closed. |

## Left out

- `src/Server/Server.java` is not part of this model. It holds the accept loop, the fixed pool of 100 threads, `main`'s argument handling and the `id` counter. These are network I/O, concurrency and logging. `Server.ServeTwice` only stands for handing two connections to two agents.
- Server.RequestAgent.ReadRequestLine: at end of stream the source's `read()` returns -1, which the cast turns into U+FFFF. That is not a terminator, so the source loop never ends. It keeps appending until memory runs out, and the `finally` block then closes the socket. The model stops at the end of input and reports `EndOfStream`. Nothing is written, and the connection is closed.
- Server.Connection.Write: stream buffering and flushing are not modelled. A write fails only when the connection is already closed. A client that disconnects in the middle of a response is not modelled.
- Request.Resolve: `new File(root, child)` normalisation is not modelled. That covers collapsing repeated `/` and mapping an empty child to the root itself. The join is plain `root + "/" + child`.
- The file system: `File.canRead` and `Files.readAllBytes` are one test here, "the path is a key of the map". A path that passes `canRead` but then fails to read is not modelled. A directory is such a path. Examples are `GET /docs HTTP/1.0` where `docs` is a directory, and a one-character target without a leading `/`, such as `x`, which `new File(root, "")` resolves to the root itself. The source then writes nothing, because `readAllBytes` throws at `RequestAgent.java:107`. A directory is not a key of the map, so the model answers from `401.html` instead.
- The content type from `URLConnection.getFileNameMap().getContentTypeFor` is a library lookup. The model passes the fixed HTML type in its place. `CraftHeaderIgnoresType` shows that the header does not depend on it.
- `getCanonicalFile` and `isFile` are file-system queries. They are inputs of `Create`: `rootIsFile`, and `canonical`, which is `None` when the lookup fails.
- UTF-8 decoding of the request: the client's input is given as characters that are already decoded. UTF-8 encoding is modelled only for ASCII text, and every header the agent builds is ASCII.
- Integer width: body lengths are unbounded `nat`. The source's `int` lengths, and files of 2 GiB or more, are not modelled.
- Logging to `System.out` and `printStackTrace` is left out.
