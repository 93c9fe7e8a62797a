/** The request parser of src/Parser.php: one raw HTTP/1.x request text
    decoded into the $_GET-, $_POST-, $_COOKIE-, $_FILES- and
    $_SERVER-shaped arrays and the body string.

    `Decode` states, as a pure function, what one run of `parse()` leaves in
    the parser; the class `Parser` performs that run step by step, as the
    PHP code does, and is proved to reach exactly that result. */
module RequestParser {
  import opened Wrappers
  import opened PhpStrings
  import opened UrlCodec
  import opened OrderedMap

  /** The inputs on which parse() raises a warning or a TypeError. */
  datatype ParseError =
      /** No request line is left, or it has fewer than two spaces: the
          pattern does not match, $matches has no 'path' and parsePath(null)
          raises a TypeError. */
    | MalformedRequestLine
      /** A query chunk without '=': reading $value raises the warning
          "Undefined array key 1"; PHP then goes on with an empty value. */
    | QueryChunkWithoutEquals(chunk: string)
      /** A header line without ':': the same warning, and PHP goes on
          with an empty value. */
    | HeaderLineWithoutColon(line: string)

  /** The three groups of the request-line pattern. */
  datatype RequestLine = RequestLine(httpMethod: string, path: string, protocol: string)

  /** What parse() leaves in $this->get, $this->server and $this->body. */
  datatype Request = Request(get: Assoc, server: Assoc, body: string)

  const Separator: string := "\r\n\r\n"

  ghost predicate Contains(s: string, t: string) {
    exists j :: OccursAt(s, t, j)
  }

  // ---------------------------------------------------------------------
  // Splitting the message

  /** The header block and the body: split at the first blank line, or the
      whole text and an empty body when there is none. */
  function SplitMessage(raw: string): (r: (string, string))
    ensures Contains(raw, Separator) ==>
      raw == r.0 + Separator + r.1 && forall j :: 0 <= j < |r.0| ==> !OccursAt(raw, Separator, j)
    ensures !Contains(raw, Separator) ==> r == (raw, "")
  {
    match SplitFirst(raw, Separator)
    case Some(parts) => parts
    case None => (raw, "")
  }

  /** The lines of the header block, trimmed, with the falsy ones ("" and
      "0") dropped and the others in their order. */
  function HeaderLines(block: string): seq<string> {
    DropFalsy(TrimAll(Explode(block, '\n')))
  }

  /** A line of the block survives, trimmed, exactly when its trimmed form
      is neither "" nor "0"; so every surviving line is trimmed and truthy. */
  lemma HeaderLinesKeep(block: string, pieces: seq<string>)
    requires pieces == Explode(block, '\n')
    ensures forall x :: x in HeaderLines(block) <==>
      exists i :: 0 <= i < |pieces| && x == Trim(pieces[i]) && !IsFalsy(x)
    ensures forall i :: 0 <= i < |HeaderLines(block)| ==>
      IsTrimmed(HeaderLines(block)[i]) && !IsFalsy(HeaderLines(block)[i])
  {
    var trimmed := TrimAll(pieces);
    TrimAllAt(pieces);
    DropFalsyMembers(trimmed);
    var lines := HeaderLines(block);
    assert lines == DropFalsy(trimmed);
    forall x ensures x in lines <==> exists i :: 0 <= i < |pieces| && x == Trim(pieces[i]) && !IsFalsy(x) {
      if x in trimmed {
        var i :| 0 <= i < |trimmed| && trimmed[i] == x;
        assert x == Trim(pieces[i]);
      }
      if exists i :: 0 <= i < |pieces| && x == Trim(pieces[i]) {
        var i :| 0 <= i < |pieces| && x == Trim(pieces[i]);
        assert trimmed[i] == x;
      }
      assert x in lines <==> x in trimmed && !IsFalsy(x);
    }
    forall i | 0 <= i < |lines| ensures IsTrimmed(lines[i]) && !IsFalsy(lines[i]) {
      assert lines[i] in trimmed;
      var j :| 0 <= j < |trimmed| && trimmed[j] == lines[i];
      assert lines[i] == Trim(pieces[j]);
    }
  }

  // ---------------------------------------------------------------------
  // The request line

  /** The pattern `(?P<method>.*) (?P<path>.*) (?P<protocol>.*)$` with its
      greedy first group: the protocol follows the last space, the path lies
      between the last two spaces. */
  function SplitRequestLine(line: string): Option<RequestLine> {
    match LastIndexOf(line, ' ')
    case None => None
    case Some(j) =>
      match LastIndexOf(line[..j], ' ')
      case None => None
      case Some(i) => Some(RequestLine(line[..j][..i], line[..j][i + 1..], line[j + 1..]))
  }

  /** A line matches exactly when it has two spaces; the match puts the line
      back together, and neither path nor protocol holds a space. */
  lemma SplitRequestLineShape(line: string)
    ensures var r := SplitRequestLine(line);
      && (r.Some? ==> line == r.value.httpMethod + " " + r.value.path + " " + r.value.protocol)
      && (r.Some? ==> ' ' !in r.value.path && ' ' !in r.value.protocol)
      && (r.None? ==> forall i, j :: 0 <= i < j < |line| && line[i] == ' ' ==> line[j] != ' ')
  {
    match LastIndexOf(line, ' ')
    case None =>
    case Some(j) =>
      match LastIndexOf(line[..j], ' ')
      case None =>
        assert forall i :: 0 <= i < j ==> line[i] == line[..j][i];
      case Some(i) =>
        var rl := RequestLine(line[..j][..i], line[..j][i + 1..], line[j + 1..]);
        assert line[..j] == rl.httpMethod + " " + rl.path;
        assert line == line[..j] + " " + line[j + 1..];
  }

  /** The match is unique: any line of the shape method-space-path-space-
      protocol with no space in path or protocol splits into exactly those. */
  lemma RequestLineUnique(m: string, p: string, q: string)
    requires ' ' !in p && ' ' !in q
    ensures SplitRequestLine(m + " " + p + " " + q) == Some(RequestLine(m, p, q))
  {
    var line := m + " " + p + " " + q;
    var r := SplitRequestLine(line);
    SplitRequestLineShape(line);
    assert line[|m|] == ' ' && line[|m| + 1 + |p|] == ' ';
    var rl := r.value;
    assert line == (m + " " + p) + [' '] + q;
    assert line == (rl.httpMethod + " " + rl.path) + [' '] + rl.protocol;
    SplitUniqueLast(m + " " + p, q, rl.httpMethod + " " + rl.path, rl.protocol, ' ');
    assert m + " " + p == m + [' '] + p;
    SplitUniqueLast(m, p, rl.httpMethod, rl.path, ' ');
  }

  /** The three $_SERVER entries the request line produces, in the order
      parse() assigns them. */
  function RequestLineWrites(rl: RequestLine): seq<Entry> {
    [("REQUEST_METHOD", rl.httpMethod), ("REQUEST_URI", rl.path), ("SERVER_PROTOCOL", rl.protocol)]
  }

  // ---------------------------------------------------------------------
  // The query string

  /** parsePath: the text after the first '?' of the path, or "". */
  function QueryString(path: string): string {
    match SplitAtChar(path, '?')
    case None => ""
    case Some((_, after)) => after
  }

  /** The query string is empty when the path has no '?', and otherwise is
      everything after the first '?'. */
  lemma QueryStringAfterMark(path: string)
    ensures var q := QueryString(path);
      && ('?' !in path ==> q == "")
      && ('?' in path ==> |q| < |path| && path[|path| - |q| - 1..] == "?" + q && '?' !in path[..|path| - |q| - 1])
  {
    match SplitAtChar(path, '?')
    case None =>
    case Some((before, after)) =>
      assert path[|path| - |after| - 1..] == "?" + after;
      assert path[..|path| - |after| - 1] == before;
  }

  /** The chunks parseQueryString walks over: none for an empty query,
      otherwise explode('&', ...). */
  function QueryChunks(q: string): (cs: seq<string>)
    ensures q == "" ==> cs == []
    ensures q != "" ==> |cs| > 0 && Join(cs, '&') == q
  {
    if q == "" then [] else Explode(q, '&')
  }

  predicate QueryWellFormed(q: string) {
    forall i :: 0 <= i < |QueryChunks(q)| ==> '=' in QueryChunks(q)[i]
  }

  /** One query chunk: key and value around its first '=', both
      url-decoded, then every space of the decoded key turned into '_'. */
  function DecodePair(chunk: string): (r: Option<Entry>)
    ensures r.None? <==> '=' !in chunk
  {
    match SplitAtChar(chunk, '=')
    case None => None
    case Some((key, value)) => Some((ReplaceChar(UrlDecode(key), ' ', '_'), UrlDecode(value)))
  }

  /** A chunk is split at its first '=': the key before it and the value
      after it, which may hold further '=', are url-decoded, and the
      decoded key has its spaces turned into '_'. */
  lemma DecodePairSplit(k: string, v: string)
    requires '=' !in k
    ensures DecodePair(k + "=" + v) == Some((ReplaceChar(UrlDecode(k), ' ', '_'), UrlDecode(v)))
  {
    var chunk := k + "=" + v;
    assert chunk == k + ['='] + v;
    assert chunk[|k|] == '=';
    var (a, b) := SplitAtChar(chunk, '=').value;
    SplitUnique(a, b, k, v, '=');
  }

  /** The assignments parseQueryString makes to $this->get, in order. */
  function QueryPairs(q: string): (ps: seq<Entry>)
    requires QueryWellFormed(q)
    ensures |ps| == |QueryChunks(q)|
  {
    DecodePairs(QueryChunks(q))
  }

  /** The decoded pairs of chunks that all hold an '='. */
  function DecodePairs(cs: seq<string>): (ps: seq<Entry>)
    requires forall i :: 0 <= i < |cs| ==> '=' in cs[i]
    ensures |ps| == |cs|
    decreases |cs|
  {
    if cs == [] then [] else [DecodePair(cs[0]).value] + DecodePairs(cs[1..])
  }

  /** The i-th pair is the decoding of the i-th chunk. */
  lemma {:induction false} DecodePairsAt(cs: seq<string>, i: nat)
    requires forall k :: 0 <= k < |cs| ==> '=' in cs[k]
    requires i < |cs|
    ensures Some(DecodePairs(cs)[i]) == DecodePair(cs[i])
    decreases i
  {
    if i > 0 {
      var tail := cs[1..];
      assert forall k :: 0 <= k < |tail| ==> tail[k] == cs[k + 1];
      DecodePairsAt(tail, i - 1);
      assert DecodePairs(cs) == [DecodePair(cs[0]).value] + DecodePairs(tail);
      assert tail[i - 1] == cs[i];
    }
  }

  // ---------------------------------------------------------------------
  // Header lines

  /** parseHeaders: name and value around the first ':', both trimmed. */
  function SplitHeader(line: string): (r: Option<(string, string)>)
    ensures r.None? <==> ':' !in line
    ensures r.Some? ==> IsTrimmed(r.value.0) && IsTrimmed(r.value.1)
  {
    match SplitAtChar(line, ':')
    case None => None
    case Some((name, value)) => Some((Trim(name), Trim(value)))
  }

  /** A header line is split at its first ':': the name is the trimmed
      text before it and the value the trimmed text after it, further
      ':' included. */
  lemma SplitHeaderSplit(n: string, v: string)
    requires ':' !in n
    ensures SplitHeader(n + ":" + v) == Some((Trim(n), Trim(v)))
  {
    var line := n + ":" + v;
    assert line == n + [':'] + v;
    assert line[|n|] == ':';
    var (a, b) := SplitAtChar(line, ':').value;
    SplitUnique(a, b, n, v, ':');
  }

  /** strtoupper(str_replace('-', '_', $name)) on the lower-cased name. */
  function NormalizeName(lowerName: string): (r: string)
    ensures |r| == |lowerName|
  {
    ToUpper(ReplaceChar(lowerName, '-', '_'))
  }

  /** A normalized name has no '-' and no lower-case letter; every other
      character is upper-cased where it stands, '-' becoming '_'. */
  lemma NormalizeNameAt(lowerName: string)
    ensures var r := NormalizeName(lowerName);
      forall i :: 0 <= i < |r| ==>
        && r[i] != '-' && !('a' <= r[i] <= 'z')
        && r[i] == (if lowerName[i] == '-' then '_' else UpperChar(lowerName[i]))
  {
    ReplaceCharAt(lowerName, '-', '_');
    ToUpperAt(ReplaceChar(lowerName, '-', '_'));
  }

  predicate IsContentHeader(lowerName: string) {
    lowerName == "content-type" || lowerName == "content-length"
  }

  /** The assignments setHeaderToServer makes to $this->server, in order. */
  function HeaderWrites(name: string, value: string): (ws: seq<Entry>)
    ensures 1 <= |ws| <= 2
    ensures ws[|ws| - 1] == ("HTTP_" + NormalizeName(ToLower(name)), value)
    ensures |ws| == 2 <==> IsContentHeader(ToLower(name))
    ensures |ws| == 2 ==> ws[0] == (NormalizeName(ToLower(name)), value)
  {
    var lower := ToLower(name);
    var normalized := NormalizeName(lower);
    (if IsContentHeader(lower) then [(normalized, value)] else []) + [("HTTP_" + normalized, value)]
  }

  predicate HeadersWellFormed(lines: seq<string>) {
    forall i :: 0 <= i < |lines| ==> ':' in lines[i]
  }

  function LineWrites(line: string): seq<Entry>
    requires ':' in line
  {
    var (name, value) := SplitHeader(line).value;
    HeaderWrites(name, value)
  }

  /** The assignments parseHeaders makes, line after line. */
  function HeaderEntries(lines: seq<string>): seq<Entry>
    requires HeadersWellFormed(lines)
    decreases |lines|
  {
    if lines == [] then []
    else HeaderEntries(lines[..|lines| - 1]) + LineWrites(lines[|lines| - 1])
  }

  lemma HeaderEntriesSnoc(headers: seq<string>, i: nat)
    requires HeadersWellFormed(headers) && i < |headers|
    ensures HeadersWellFormed(headers[..i]) && HeadersWellFormed(headers[..i + 1])
    ensures HeaderEntries(headers[..i + 1]) == HeaderEntries(headers[..i]) + LineWrites(headers[i])
  {
    assert headers[..i + 1][..i] == headers[..i];
  }

  // ---------------------------------------------------------------------
  // The whole run

  /** The index of the first string of `xs` that lacks `c`: the chunk or
      line at which PHP first finds $value undefined. */
  function FirstWithout(xs: seq<string>, c: char): (r: Option<nat>)
    ensures r.Some? ==> r.value < |xs| && c !in xs[r.value]
    decreases |xs|
  {
    if xs == [] then None
    else if c !in xs[0] then Some(0)
    else
      match FirstWithout(xs[1..], c)
      case None => None
      case Some(k) => Some(k + 1)
  }

  /** FirstWithout finds nothing exactly when every string has `c`, and
      every string before the one it finds has `c`. */
  lemma {:induction false} FirstWithoutAll(xs: seq<string>, c: char)
    ensures FirstWithout(xs, c).Some? ==> forall j :: 0 <= j < FirstWithout(xs, c).value ==> c in xs[j]
    ensures FirstWithout(xs, c).None? <==> forall j :: 0 <= j < |xs| ==> c in xs[j]
    decreases |xs|
  {
    if xs != [] && c in xs[0] {
      FirstWithoutAll(xs[1..], c);
      assert forall j :: 1 <= j < |xs| ==> xs[j] == xs[1..][j - 1];
    }
  }

  /** What one run of parse() produces from the raw text, or the first
      warning or error PHP raises on the way. The post, cookie and files arrays are never written
      and are not part of the result. */
  function Decode(raw: string): Result<Request, ParseError> {
    var (headerBlock, body) := SplitMessage(raw);
    DecodeLines(HeaderLines(headerBlock), body)
  }

  /** The part of Decode that follows the split of the message: the non-empty
      header lines, request line first, and the body. */
  function DecodeLines(lines: seq<string>, body: string): Result<Request, ParseError> {
    if lines == [] || SplitRequestLine(lines[0]).None? then Failure(MalformedRequestLine)
    else
      var rl := SplitRequestLine(lines[0]).value;
      var q := QueryString(rl.path);
      var chunks := QueryChunks(q);
      var headers := lines[1..];
      FirstWithoutAll(chunks, '=');
      FirstWithoutAll(headers, ':');
      match (FirstWithout(chunks, '='), FirstWithout(headers, ':'))
      case (Some(i), _) => Failure(QueryChunkWithoutEquals(chunks[i]))
      case (None, Some(i)) => Failure(HeaderLineWithoutColon(headers[i]))
      case (None, None) =>
        Success(Request(
          PutAll([], QueryPairs(q)),
          PutAll([], RequestLineWrites(rl) + HeaderEntries(headers)),
          body))
  }

  /** A successful DecodeLines has a request line and is made of these pieces. */
  lemma DecodeParts(lines: seq<string>, body: string)
    requires DecodeLines(lines, body).Success?
    ensures lines != [] && SplitRequestLine(lines[0]).Some?
    ensures var rl := SplitRequestLine(lines[0]).value;
      && QueryWellFormed(QueryString(rl.path)) && HeadersWellFormed(lines[1..])
      && DecodeLines(lines, body).value == Request(
           PutAll([], QueryPairs(QueryString(rl.path))),
           PutAll([], RequestLineWrites(rl) + HeaderEntries(lines[1..])),
           body)
  {
    var rl := SplitRequestLine(lines[0]).value;
    FirstWithoutAll(QueryChunks(QueryString(rl.path)), '=');
    FirstWithoutAll(lines[1..], ':');
  }

  predicate ParsedLines(lines: seq<string>, get: Assoc, server: Assoc)
    requires lines != [] && SplitRequestLine(lines[0]).Some?
    requires QueryWellFormed(QueryString(SplitRequestLine(lines[0]).value.path))
    requires HeadersWellFormed(lines[1..])
  {
    var rl := SplitRequestLine(lines[0]).value;
    && get == PutAll([], QueryPairs(QueryString(rl.path)))
    && server == PutAll([], RequestLineWrites(rl) + HeaderEntries(lines[1..]))
  }

  lemma DecodeLinesParsed(lines: seq<string>, body: string, get: Assoc, server: Assoc)
    requires DecodeLines(lines, body).Success?
    requires lines != [] && SplitRequestLine(lines[0]).Some?
    requires QueryWellFormed(QueryString(SplitRequestLine(lines[0]).value.path))
    requires HeadersWellFormed(lines[1..])
    requires ParsedLines(lines, get, server)
    ensures DecodeLines(lines, body) == Success(Request(get, server, body))
  {
  }

  /** The three request-line keys differ, so assigning them to an empty
      array lays them out in order. */
  lemma RequestLineServer(rl: RequestLine)
    ensures PutAll([], RequestLineWrites(rl)) == RequestLineWrites(rl)
  {
    var w := RequestLineWrites(rl);
    assert |w[0].0| != |w[1].0| && |w[0].0| != |w[2].0| && |w[1].0| != |w[2].0|;
    assert DistinctKeys([] + w) by {
      forall i, j | 0 <= i < j < |[] + w| ensures ([] + w)[i].0 != ([] + w)[j].0 {
        assert ([] + w)[i] == w[i] && ([] + w)[j] == w[j];
      }
    }
    assert [] + w == w;
    PutAllFresh([], w);
  }

  // ---------------------------------------------------------------------
  // The parser object

  /** class Parser: the raw text, the arrays parse() fills, and the flag
      that makes it run at most once. */
  class Parser {
    const raw: string
    var get: Assoc
    var post: Assoc
    var cookie: Assoc
    var files: Assoc
    var server: Assoc
    var body: string
    var parsed: bool

    /** Before parsing every array is empty; afterwards get, server and body
        hold what Decode gives for the raw text. post, cookie and files are
        never written. */
    ghost predicate Valid()
      reads this
    {
      && (post, cookie, files) == ([], [], [])
      && if parsed then Decode(raw) == Success(Request(get, server, body))
         else Request(get, server, body) == Request([], [], "")
    }

    constructor (raw: string)
      ensures Valid() && !parsed && this.raw == raw
      ensures get == [] && post == [] && cookie == [] && files == [] && server == [] && body == ""
    {
      this.raw := raw;
      get, post, cookie, files, server := [], [], [], [], [];
      body := "";
      parsed := false;
    }

    method GetGet() returns (r: Assoc)
      requires Valid() && Decode(raw).Success?
      modifies this
      ensures Valid() && parsed
      ensures r == get == Decode(raw).value.get
      ensures old(parsed) ==> unchanged(this)
    {
      Parse();
      r := get;
    }

    method GetPost() returns (r: Assoc)
      requires Valid() && Decode(raw).Success?
      modifies this
      ensures Valid() && parsed
      ensures r == post == []
      ensures old(parsed) ==> unchanged(this)
    {
      Parse();
      r := post;
    }

    method GetCookie() returns (r: Assoc)
      requires Valid() && Decode(raw).Success?
      modifies this
      ensures Valid() && parsed
      ensures r == cookie == []
      ensures old(parsed) ==> unchanged(this)
    {
      Parse();
      r := cookie;
    }

    method GetFiles() returns (r: Assoc)
      requires Valid() && Decode(raw).Success?
      modifies this
      ensures Valid() && parsed
      ensures r == files == []
      ensures old(parsed) ==> unchanged(this)
    {
      Parse();
      r := files;
    }

    method GetServer() returns (r: Assoc)
      requires Valid() && Decode(raw).Success?
      modifies this
      ensures Valid() && parsed
      ensures r == server == Decode(raw).value.server
      ensures old(parsed) ==> unchanged(this)
    {
      Parse();
      r := server;
    }

    method GetBody() returns (r: string)
      requires Valid() && Decode(raw).Success?
      modifies this
      ensures Valid() && parsed
      ensures r == body == Decode(raw).value.body
      ensures old(parsed) ==> unchanged(this)
    {
      Parse();
      r := body;
    }

    /** parse(): on the first call, split the message, decode the request
        line, the query string, the headers and the body into the fields;
        on every later call, nothing. */
    method Parse()
      requires Valid() && Decode(raw).Success?
      modifies this
      ensures Valid() && parsed
      ensures old(parsed) ==> unchanged(this)
    {
      if !parsed {
        ParseRaw();
        ghost var parsedRequest := Request(get, server, body);
        assert Decode(raw) == Success(parsedRequest);
        parsed := true;
        assert parsedRequest == Request(get, server, body);
      }
    }

    /** The work of parse() on a parser that has not parsed yet: split the
        raw text, then decode its lines and its body. */
    method ParseRaw()
      requires Decode(raw).Success? && get == [] && server == []
      modifies this`get, this`server, this`body
      ensures Decode(raw) == Success(Request(get, server, body))
    {
      var headers, messageBody := SplitRaw();
      var lines := HeaderLines(headers);
      assert Decode(raw) == DecodeLines(lines, messageBody);
      ParseLines(lines, messageBody);
    }

    /** The first step of parse(): the header block and the body, split at
        the first blank line; without one, the whole text is the header
        block and the body is empty. */
    method SplitRaw() returns (headers: string, messageBody: string)
      ensures (headers, messageBody) == SplitMessage(raw)
    {
      if StrPos(raw, Separator).Some? {
        var parts := SplitFirst(raw, Separator).value;
        headers, messageBody := parts.0, parts.1;
      } else {
        headers, messageBody := raw, "";
      }
    }

    /** The rest of parse(): the request line, the query string, the header
        lines and the body, written into fields that are still empty. */
    method ParseLines(lines: seq<string>, messageBody: string)
      requires DecodeLines(lines, messageBody).Success?
      requires get == [] && server == []
      modifies this`get, this`server, this`body
      ensures DecodeLines(lines, messageBody) == Success(Request(get, server, body))
    {
      DecodeParts(lines, messageBody);
      var rl := ParseRequestLine(lines[0]);
      ParsePath(rl.path);
      ParseHeaders(lines[1..]);
      RequestLineServer(rl);
      PutAllAppend([], RequestLineWrites(rl), HeaderEntries(lines[1..]));
      ParseBody(messageBody);
      DecodeLinesParsed(lines, messageBody, get, server);
    }

    /** Parse first line: method, path and protocol into $this->server. */
    method ParseRequestLine(first: string) returns (rl: RequestLine)
      requires SplitRequestLine(first).Some? && server == []
      modifies this`server
      ensures rl == SplitRequestLine(first).value && server == RequestLineWrites(rl)
    {
      rl := SplitRequestLine(first).value;
      server := Put(server, "REQUEST_METHOD", rl.httpMethod);
      PutNew(server, "REQUEST_URI", rl.path) by {
        assert |"REQUEST_URI"| != |"REQUEST_METHOD"|;
      }
      server := Put(server, "REQUEST_URI", rl.path);
      PutNew(server, "SERVER_PROTOCOL", rl.protocol) by {
        assert |"SERVER_PROTOCOL"| != |"REQUEST_METHOD"| && |"SERVER_PROTOCOL"| != |"REQUEST_URI"|;
      }
      server := Put(server, "SERVER_PROTOCOL", rl.protocol);
    }

    /** parsePath: decode the query string that follows the first '?'. */
    method ParsePath(path: string)
      requires QueryWellFormed(QueryString(path))
      modifies this`get
      ensures get == PutAll(old(get), QueryPairs(QueryString(path)))
    {
      var queryString: string;
      if StrPos(path, "?").Some? {
        var parts := SplitAtChar(path, '?').value;
        queryString := parts.1;
      } else {
        OccursAtChar(path, '?');
        queryString := "";
      }
      ParseQueryString(queryString);
    }

    /** parseHeaders: hand every header line, split and trimmed, to
        setHeaderToServer, in order. */
    method ParseHeaders(headers: seq<string>)
      requires HeadersWellFormed(headers)
      modifies this`server
      ensures server == PutAll(old(server), HeaderEntries(headers))
    {
      var i := 0;
      while i < |headers|
        invariant 0 <= i <= |headers|
        invariant server == PutAll(old(server), HeaderEntries(headers[..i]))
      {
        var (name, value) := SplitHeader(headers[i]).value;
        SetHeaderToServer(name, value);
        HeaderEntriesSnoc(headers, i);
        PutAllAppend(old(server), HeaderEntries(headers[..i]), LineWrites(headers[i]));
        i := i + 1;
      }
      assert headers[..i] == headers;
    }

    /** parseBody: keep the body text as it is. */
    method ParseBody(body: string)
      modifies this`body
      ensures this.body == body
    {
      this.body := body;
      if body == "" {
        return;
      }
    }

    /** parseQueryString: assign every chunk's decoded key and value to
        $this->get, in order. */
    method ParseQueryString(queryString: string)
      requires QueryWellFormed(queryString)
      modifies this`get
      ensures get == PutAll(old(get), QueryPairs(queryString))
    {
      if queryString == "" {
        return;
      }

      var chunks := Explode(queryString, '&');
      ghost var pairs := QueryPairs(queryString);
      var i := 0;
      while i < |chunks|
        invariant 0 <= i <= |chunks|
        invariant get == PutAll(old(get), pairs[..i])
      {
        var (key, value) := SplitAtChar(chunks[i], '=').value;
        key := UrlDecode(key);
        value := UrlDecode(value);
        key := ReplaceChar(key, ' ', '_');
        DecodePairsAt(chunks, i);
        assert pairs[i] == (key, value);
        get := Put(get, key, value);
        assert pairs[..i + 1][..i] == pairs[..i];
        i := i + 1;
      }
      assert pairs[..i] == pairs;
    }

    /** setHeaderToServer: the HTTP_-prefixed entry, preceded for
        Content-Type and Content-Length by the unprefixed one. */
    method SetHeaderToServer(name: string, value: string)
      modifies this`server
      ensures server == PutAll(old(server), HeaderWrites(name, value))
    {
      var lower := ToLower(name);
      var nameNormalized := ToUpper(ReplaceChar(lower, '-', '_'));
      ghost var writes := HeaderWrites(name, value);

      if lower == "content-type" || lower == "content-length" {
        server := Put(server, nameNormalized, value);
      }

      server := Put(server, "HTTP_" + nameNormalized, value);

      if IsContentHeader(lower) {
        assert writes == [(nameNormalized, value), ("HTTP_" + nameNormalized, value)];
        PutAllTwo(old(server), writes[0], writes[1]);
      } else {
        assert writes == [("HTTP_" + nameNormalized, value)];
        PutAllOne(old(server), writes[0]);
      }
    }
  }
}
