/** What one run of parse() guarantees about the arrays it fills, stated on
    the raw request text. */
module ParserProperties {
  import opened Wrappers
  import opened PhpStrings
  import opened UrlCodec
  import opened OrderedMap
  import opened RequestParser

  /** The non-empty header lines of the raw text: request line first. */
  function Lines(raw: string): seq<string> {
    HeaderLines(SplitMessage(raw).0)
  }

  /** The header lines that follow the request line. */
  function Headers(raw: string): seq<string> {
    if Lines(raw) == [] then [] else Lines(raw)[1..]
  }

  /** The query string of the request line's path, or "" when the request
      line does not match. */
  function Query(raw: string): string {
    var lines := Lines(raw);
    if lines == [] then ""
    else match SplitRequestLine(lines[0])
      case None => ""
      case Some(rl) => QueryString(rl.path)
  }

  // ---------------------------------------------------------------------
  // When parse() runs without a warning or an error

  /** parse() raises no warning and no TypeError exactly when there is a
      request line with two spaces, every query chunk holds '=' and every
      header line holds ':'. */
  lemma DecodeSucceeds(raw: string)
    ensures Decode(raw).Success? <==>
      && Lines(raw) != [] && SplitRequestLine(Lines(raw)[0]).Some?
      && QueryWellFormed(Query(raw)) && HeadersWellFormed(Headers(raw))
  {
    var lines := Lines(raw);
    if lines != [] && SplitRequestLine(lines[0]).Some? {
      var rl := SplitRequestLine(lines[0]).value;
      FirstWithoutAll(QueryChunks(QueryString(rl.path)), '=');
      FirstWithoutAll(lines[1..], ':');
    }
  }

  /** The parts a successful run is made of. */
  lemma DecodeValue(raw: string)
    requires Decode(raw).Success?
    ensures Lines(raw) != [] && SplitRequestLine(Lines(raw)[0]).Some?
    ensures QueryWellFormed(Query(raw)) && HeadersWellFormed(Headers(raw))
    ensures var rl := SplitRequestLine(Lines(raw)[0]).value;
      Decode(raw).value == Request(
        PutAll([], QueryPairs(Query(raw))),
        PutAll([], RequestLineWrites(rl) + HeaderEntries(Headers(raw))),
        SplitMessage(raw).1)
  {
    DecodeParts(Lines(raw), SplitMessage(raw).1);
  }

  // ---------------------------------------------------------------------
  // The body

  /** The body is the text after the first blank line, as it stands (it may
      hold further blank lines); with no blank line it is empty. */
  lemma BodyAfterFirstSeparator(raw: string)
    requires Decode(raw).Success?
    ensures var b := Decode(raw).value.body;
      && (Contains(raw, Separator) ==>
            && |b| + |Separator| <= |raw|
            && raw[|raw| - |b| - |Separator|..] == Separator + b
            && forall j :: 0 <= j < |raw| - |b| - |Separator| ==> !OccursAt(raw, Separator, j))
      && (!Contains(raw, Separator) ==> b == "")
  {
    DecodeValue(raw);
    MessageBody(raw);
  }

  /** The same, for the split alone. */
  lemma MessageBody(raw: string)
    ensures var b := SplitMessage(raw).1;
      && (Contains(raw, Separator) ==>
            && |b| + |Separator| <= |raw|
            && raw[|raw| - |b| - |Separator|..] == Separator + b
            && forall j :: 0 <= j < |raw| - |b| - |Separator| ==> !OccursAt(raw, Separator, j))
      && (!Contains(raw, Separator) ==> b == "")
  {
    var (h, b) := SplitMessage(raw);
    if Contains(raw, Separator) {
      assert raw == h + (Separator + b);
    }
  }

  // ---------------------------------------------------------------------
  // The header lines

  /** The block split at "\n", trimmed, with "" and "0" dropped: the lines of
      two parts of a block are those of the first part followed by those of
      the second, so the surviving lines keep their order. */
  lemma HeaderLinesAppend(a: string, b: string)
    ensures HeaderLines(a + "\n" + b) == HeaderLines(a) + HeaderLines(b)
  {
    ExplodeAppend(a, b, '\n');
    TrimAllAppend(Explode(a, '\n'), Explode(b, '\n'));
    DropFalsyAppend(TrimAll(Explode(a, '\n')), TrimAll(Explode(b, '\n')));
  }

  /** A block without "\n" is one line: it survives, trimmed, unless it is
      "" or "0" once trimmed. */
  lemma HeaderLinesOne(line: string)
    requires '\n' !in line
    ensures HeaderLines(line) == if IsFalsy(Trim(line)) then [] else [Trim(line)]
  {
    assert SplitAtChar(line, '\n').None?;
    assert Explode(line, '\n') == [line];
    assert TrimAll([line]) == [Trim(line)];
  }

  // ---------------------------------------------------------------------
  // The $_SERVER entries

  /** The trimmed name of a header line, lower-cased and normalized. */
  function HeaderName(line: string): string
    requires ':' in line
  {
    NormalizeName(ToLower(SplitHeader(line).value.0))
  }

  /** The trimmed value of a header line. */
  function HeaderValue(line: string): string
    requires ':' in line
  {
    SplitHeader(line).value.1
  }

  /** A header line that names Content-Type or Content-Length, in any case. */
  predicate IsContentLine(line: string)
    requires ':' in line
  {
    IsContentHeader(ToLower(SplitHeader(line).value.0))
  }

  /** A header line writes the HTTP_-prefixed key and, for a content header,
      the unprefixed one; no other key. */
  lemma LineWritesKeys(line: string)
    requires ':' in line
    ensures forall e :: 0 <= e < |LineWrites(line)| ==>
      LineWrites(line)[e].0 == "HTTP_" + HeaderName(line) ||
      (IsContentLine(line) && LineWrites(line)[e].0 == HeaderName(line))
  {
  }

  /** The header lines write no key that every line's keys avoid. */
  lemma {:induction false} HeaderEntriesAvoid(hs: seq<string>, k: string)
    requires HeadersWellFormed(hs)
    requires forall j :: 0 <= j < |hs| ==>
      k != "HTTP_" + HeaderName(hs[j]) && (IsContentLine(hs[j]) ==> k != HeaderName(hs[j]))
    ensures forall e :: 0 <= e < |HeaderEntries(hs)| ==> HeaderEntries(hs)[e].0 != k
    decreases |hs|
  {
    if hs != [] {
      var n := |hs| - 1;
      HeaderEntriesSnoc(hs, n);
      assert hs[..n + 1] == hs;
      var init := hs[..n];
      assert forall j :: 0 <= j < |init| ==> init[j] == hs[j];
      HeaderEntriesAvoid(init, k);
      LineWritesKeys(hs[n]);
    }
  }

  /** The unprefixed key of a content header starts with 'C'. */
  lemma ContentNameInitial(line: string)
    requires ':' in line && IsContentLine(line)
    ensures |HeaderName(line)| > 0 && HeaderName(line)[0] == 'C'
  {
    var lower := ToLower(SplitHeader(line).value.0);
    assert lower[0] == 'c';
    NormalizeNameAt(lower);
  }

  /** Every key a header line writes starts with 'H' (HTTP_...) or 'C'
      (CONTENT_TYPE, CONTENT_LENGTH). */
  lemma HeaderEntriesAvoidOther(hs: seq<string>, k: string)
    requires HeadersWellFormed(hs)
    requires k != [] && k[0] != 'H' && k[0] != 'C'
    ensures forall e :: 0 <= e < |HeaderEntries(hs)| ==> HeaderEntries(hs)[e].0 != k
  {
    forall j | 0 <= j < |hs|
      ensures k != "HTTP_" + HeaderName(hs[j]) && (IsContentLine(hs[j]) ==> k != HeaderName(hs[j]))
    {
      assert ("HTTP_" + HeaderName(hs[j]))[0] == 'H';
      if IsContentLine(hs[j]) {
        ContentNameInitial(hs[j]);
      }
    }
    HeaderEntriesAvoid(hs, k);
  }

  /** The assignments of two runs of header lines are those of the first
      run followed by those of the second. */
  lemma {:induction false} HeaderEntriesAppend(a: seq<string>, b: seq<string>)
    requires HeadersWellFormed(a) && HeadersWellFormed(b)
    ensures HeadersWellFormed(a + b)
    ensures HeaderEntries(a + b) == HeaderEntries(a) + HeaderEntries(b)
    decreases |b|
  {
    WellFormedAppend(a, b);
    if b == [] {
      assert a + b == a;
    } else {
      var ab := a + b;
      var init, last := b[..|b| - 1], b[|b| - 1];
      WellFormedPrefix(b, init);
      HeaderEntriesAppend(a, init);
      assert ab[..|ab| - 1] == a + init && ab[|ab| - 1] == last;
      var x, y, z := HeaderEntries(a), HeaderEntries(init), LineWrites(last);
      assert HeaderEntries(ab) == (x + y) + z;
      assert HeaderEntries(b) == y + z;
      AppendAssoc(x, y, z);
    }
  }

  /** Regrouping a concatenation, as a lemma so that the heavy contexts
      above need no sequence extensionality of their own. */
  lemma AppendAssoc<T>(x: seq<T>, y: seq<T>, z: seq<T>)
    ensures (x + y) + z == x + (y + z)
  {
  }

  lemma WellFormedAppend(a: seq<string>, b: seq<string>)
    requires HeadersWellFormed(a) && HeadersWellFormed(b)
    ensures HeadersWellFormed(a + b)
  {
    var ab := a + b;
    forall j | 0 <= j < |ab| ensures ':' in ab[j] {
      if j >= |a| {
        assert ab[j] == b[j - |a|];
      }
    }
  }

  lemma WellFormedPrefix(b: seq<string>, init: seq<string>)
    requires HeadersWellFormed(b) && |init| <= |b| && init == b[..|init|]
    ensures HeadersWellFormed(init)
  {
    assert forall j :: 0 <= j < |init| ==> init[j] == b[j];
  }

  /** The header lines around line `i`: the entries of the lines before it,
      its own writes, and the entries of the lines after it. */
  lemma HeaderEntriesAround(hs: seq<string>, i: nat)
    requires HeadersWellFormed(hs) && i < |hs|
    ensures HeadersWellFormed(hs[..i]) && HeadersWellFormed(hs[i + 1..])
    ensures HeaderEntries(hs) == HeaderEntries(hs[..i]) + LineWrites(hs[i]) + HeaderEntries(hs[i + 1..])
  {
    var front, rest := hs[..i + 1], hs[i + 1..];
    HeaderEntriesSnoc(hs, i);
    WellFormedSuffix(hs, rest, i + 1);
    HeaderEntriesAppend(front, rest);
    TakeDrop(hs, i + 1);
  }

  /** A sequence is its prefix followed by its suffix, as a lemma for the
      same reason. */
  lemma TakeDrop<T>(s: seq<T>, n: nat)
    requires n <= |s|
    ensures s[..n] + s[n..] == s
  {
  }

  lemma WellFormedSuffix(hs: seq<string>, rest: seq<string>, n: nat)
    requires HeadersWellFormed(hs) && n <= |hs| && rest == hs[n..]
    ensures HeadersWellFormed(rest)
  {
    assert forall j :: 0 <= j < |rest| ==> rest[j] == hs[n + j];
  }

  /** Once a header line has written its HTTP_ key, lines with other names
      do not touch it. */
  lemma LaterLinesAvoid(hs: seq<string>, i: nat, k: string, rest: seq<string>)
    requires HeadersWellFormed(hs) && i < |hs| && rest == hs[i + 1..]
    requires k == "HTTP_" + HeaderName(hs[i])
    requires forall j :: i < j < |hs| ==> HeaderName(hs[j]) != HeaderName(hs[i])
    ensures HeadersWellFormed(rest)
    ensures forall e :: 0 <= e < |HeaderEntries(rest)| ==> HeaderEntries(rest)[e].0 != k
  {
    assert forall j :: 0 <= j < |rest| ==> rest[j] == hs[i + 1 + j];
    forall j | 0 <= j < |rest|
      ensures k != "HTTP_" + HeaderName(rest[j]) && (IsContentLine(rest[j]) ==> k != HeaderName(rest[j]))
    {
      var n, m := HeaderName(hs[i]), HeaderName(rest[j]);
      assert n != m;
      assert ("HTTP_" + n)[5..] == n && ("HTTP_" + m)[5..] == m;
      if IsContentLine(rest[j]) {
        ContentNameInitial(rest[j]);
        assert k[0] == 'H';
      }
    }
    HeaderEntriesAvoid(rest, k);
  }

  /** Last write wins among the header lines: after the last line with a
      given name, its HTTP_ key holds that line's value, whatever it held
      before. */
  lemma HeaderLastWins(hs: seq<string>, i: nat, d: Option<string>)
    requires HeadersWellFormed(hs) && i < |hs|
    requires forall j :: i < j < |hs| ==> HeaderName(hs[j]) != HeaderName(hs[i])
    ensures LastValue(HeaderEntries(hs), "HTTP_" + HeaderName(hs[i]), d) == Some(HeaderValue(hs[i]))
  {
    var k := "HTTP_" + HeaderName(hs[i]);
    HeaderEntriesAround(hs, i);
    var before, ws, after := HeaderEntries(hs[..i]), LineWrites(hs[i]), HeaderEntries(hs[i + 1..]);
    LastValueAppend(before + ws, after, k, d);
    LastValueAppend(before, ws, k, d);
    assert ws[|ws| - 1] == (k, HeaderValue(hs[i]));
    LaterLinesAvoid(hs, i, k, hs[i + 1..]);
    LastValueAbsent(after, k, Some(HeaderValue(hs[i])));
  }

  /** Later lines do not touch the unprefixed key of a content header
      unless they are content headers with the same name: every HTTP_ key
      starts with 'H', the unprefixed key with 'C'. */
  lemma LaterContentLinesAvoid(hs: seq<string>, i: nat, rest: seq<string>)
    requires HeadersWellFormed(hs) && i < |hs| && rest == hs[i + 1..] && IsContentLine(hs[i])
    requires forall j :: i < j < |hs| && IsContentLine(hs[j]) ==> HeaderName(hs[j]) != HeaderName(hs[i])
    ensures HeadersWellFormed(rest)
    ensures forall e :: 0 <= e < |HeaderEntries(rest)| ==> HeaderEntries(rest)[e].0 != HeaderName(hs[i])
  {
    var k := HeaderName(hs[i]);
    assert forall j :: 0 <= j < |rest| ==> rest[j] == hs[i + 1 + j];
    ContentNameInitial(hs[i]);
    forall j | 0 <= j < |rest|
      ensures k != "HTTP_" + HeaderName(rest[j]) && (IsContentLine(rest[j]) ==> k != HeaderName(rest[j]))
    {
      assert ("HTTP_" + HeaderName(rest[j]))[0] == 'H';
    }
    HeaderEntriesAvoid(rest, k);
  }

  /** The same for the unprefixed key of a content header, which only a
      later content header of the same name overwrites: a `Content_Type`
      line normalizes to the same name but writes only HTTP_CONTENT_TYPE. */
  lemma ContentHeaderLastWins(hs: seq<string>, i: nat, d: Option<string>)
    requires HeadersWellFormed(hs) && i < |hs| && IsContentLine(hs[i])
    requires forall j :: i < j < |hs| && IsContentLine(hs[j]) ==> HeaderName(hs[j]) != HeaderName(hs[i])
    ensures LastValue(HeaderEntries(hs), HeaderName(hs[i]), d) == Some(HeaderValue(hs[i]))
  {
    var k := HeaderName(hs[i]);
    HeaderEntriesAround(hs, i);
    var before, ws, after := HeaderEntries(hs[..i]), LineWrites(hs[i]), HeaderEntries(hs[i + 1..]);
    LastValueAppend(before + ws, after, k, d);
    LastValueAppend(before, ws, k, d);
    assert |ws| == 2 && ws[0] == (k, HeaderValue(hs[i]));
    assert ws[1].0 != k by {
      assert |ws[1].0| == |k| + 5;
    }
    assert ws[..1] == [ws[0]];
    LaterContentLinesAvoid(hs, i, hs[i + 1..]);
    LastValueAbsent(after, k, Some(HeaderValue(hs[i])));
  }

  /** The header assignments leave the three request-line entries first. */
  lemma ServerPrefix(rl: RequestLine, hs: seq<string>)
    requires HeadersWellFormed(hs)
    ensures var s := PutAll([], RequestLineWrites(rl) + HeaderEntries(hs));
      |s| >= 3 && s[..3] == RequestLineWrites(rl)
  {
    var w := RequestLineWrites(rl);
    var he := HeaderEntries(hs);
    RequestLineServer(rl);
    PutAllAppend([], w, he);
    HeaderEntriesAvoidOther(hs, "REQUEST_METHOD");
    HeaderEntriesAvoidOther(hs, "REQUEST_URI");
    HeaderEntriesAvoidOther(hs, "SERVER_PROTOCOL");
    assert Keys(w[..3]) == ["REQUEST_METHOD", "REQUEST_URI", "SERVER_PROTOCOL"];
    assert w[..3] == w;
    PutAllKeepsPrefix(w, he, 3);
  }

  /** Entries that begin with the request-line writes of a matching line
      put that line back together. */
  lemma RequestLineEntries(line: string, rl: RequestLine, s: Assoc)
    requires SplitRequestLine(line) == Some(rl)
    requires |s| >= 3 && s[..3] == RequestLineWrites(rl)
    ensures s[0].0 == "REQUEST_METHOD" && s[1].0 == "REQUEST_URI" && s[2].0 == "SERVER_PROTOCOL"
    ensures line == s[0].1 + " " + s[1].1 + " " + s[2].1
    ensures ' ' !in s[1].1 && ' ' !in s[2].1
  {
    SplitRequestLineShape(line);
    assert s[0] == s[..3][0] && s[1] == s[..3][1] && s[2] == s[..3][2];
  }

  /** $_SERVER begins with REQUEST_METHOD, REQUEST_URI and SERVER_PROTOCOL,
      in that order; they put the request line back together, REQUEST_URI
      still percent-encoded, and neither REQUEST_URI nor SERVER_PROTOCOL
      holds a space. */
  lemma ServerBeginsWithRequestLine(raw: string)
    requires Decode(raw).Success?
    ensures Lines(raw) != []
    ensures var s := Decode(raw).value.server;
      && |s| >= 3
      && s[0].0 == "REQUEST_METHOD" && s[1].0 == "REQUEST_URI" && s[2].0 == "SERVER_PROTOCOL"
      && Lines(raw)[0] == s[0].1 + " " + s[1].1 + " " + s[2].1
      && ' ' !in s[1].1 && ' ' !in s[2].1
  {
    DecodeValue(raw);
    var rl := SplitRequestLine(Lines(raw)[0]).value;
    ServerPrefix(rl, Headers(raw));
    RequestLineEntries(Lines(raw)[0], rl, Decode(raw).value.server);
  }

  /** The $_SERVER array for a request line and its header lines. */
  function ServerOf(rl: RequestLine, hs: seq<string>): Assoc
    requires HeadersWellFormed(hs)
  {
    PutAll([], RequestLineWrites(rl) + HeaderEntries(hs))
  }

  lemma ServerOfGet(rl: RequestLine, hs: seq<string>, k: string)
    requires HeadersWellFormed(hs)
    ensures Get(ServerOf(rl, hs), k) == LastValue(HeaderEntries(hs), k, LastValue(RequestLineWrites(rl), k, None))
  {
    GetPutAll([], RequestLineWrites(rl) + HeaderEntries(hs), k);
    LastValueAppend(RequestLineWrites(rl), HeaderEntries(hs), k, None);
  }

  /** The raw-text form of what a successful run puts in $_SERVER. */
  lemma DecodeServer(raw: string)
    requires Decode(raw).Success?
    ensures Lines(raw) != [] && SplitRequestLine(Lines(raw)[0]).Some? && HeadersWellFormed(Headers(raw))
    ensures Decode(raw).value.server == ServerOf(SplitRequestLine(Lines(raw)[0]).value, Headers(raw))
  {
    DecodeValue(raw);
  }

  /** A header line's value is in $_SERVER under HTTP_ and its normalized
      name, unless a later line has the same name. */
  lemma HeaderRecorded(raw: string, i: nat)
    requires Decode(raw).Success?
    requires HeadersWellFormed(Headers(raw)) && i < |Headers(raw)|
    requires forall j :: i < j < |Headers(raw)| ==> HeaderName(Headers(raw)[j]) != HeaderName(Headers(raw)[i])
    ensures Get(Decode(raw).value.server, "HTTP_" + HeaderName(Headers(raw)[i])) == Some(HeaderValue(Headers(raw)[i]))
  {
    DecodeServer(raw);
    var rl, hs := SplitRequestLine(Lines(raw)[0]).value, Headers(raw);
    var k := "HTTP_" + HeaderName(hs[i]);
    ServerOfGet(rl, hs, k);
    HeaderLastWins(hs, i, LastValue(RequestLineWrites(rl), k, None));
  }

  /** A Content-Type or Content-Length line's value is in $_SERVER also
      under the unprefixed normalized name, unless a later content header
      has the same name. */
  lemma ContentHeaderRecorded(raw: string, i: nat)
    requires Decode(raw).Success?
    requires HeadersWellFormed(Headers(raw)) && i < |Headers(raw)| && IsContentLine(Headers(raw)[i])
    requires forall j :: i < j < |Headers(raw)| && IsContentLine(Headers(raw)[j]) ==>
      HeaderName(Headers(raw)[j]) != HeaderName(Headers(raw)[i])
    ensures Get(Decode(raw).value.server, HeaderName(Headers(raw)[i])) == Some(HeaderValue(Headers(raw)[i]))
  {
    DecodeServer(raw);
    var rl, hs := SplitRequestLine(Lines(raw)[0]).value, Headers(raw);
    var k := HeaderName(hs[i]);
    ServerOfGet(rl, hs, k);
    ContentHeaderLastWins(hs, i, LastValue(RequestLineWrites(rl), k, None));
  }

  /** The keys one header line writes. */
  predicate WritesKey(line: string, k: string)
    requires ':' in line
  {
    k == "HTTP_" + HeaderName(line) || (IsContentLine(line) && k == HeaderName(line))
  }

  lemma LineWritesHas(line: string, k: string)
    requires ':' in line
    ensures k in Keys(LineWrites(line)) <==> WritesKey(line, k)
  {
    var ws := LineWrites(line);
    LineWritesKeys(line);
    if WritesKey(line, k) {
      if k == "HTTP_" + HeaderName(line) {
        assert Keys(ws)[|ws| - 1] == k;
      } else {
        assert Keys(ws)[0] == k;
      }
    }
  }

  /** A key the header lines write comes from one of them. */
  lemma {:induction false} HeaderEntriesKeyLine(hs: seq<string>, k: string) returns (j: nat)
    requires HeadersWellFormed(hs) && k in Keys(HeaderEntries(hs))
    ensures j < |hs| && WritesKey(hs[j], k)
    decreases |hs|
  {
    var n := |hs| - 1;
    HeaderEntriesSnoc(hs, n);
    assert hs[..n + 1] == hs;
    var init := hs[..n];
    KeysAppend(HeaderEntries(init), LineWrites(hs[n]));
    LineWritesHas(hs[n], k);
    if k in Keys(HeaderEntries(init)) {
      j := HeaderEntriesKeyLine(init, k);
      assert init[j] == hs[j];
    } else {
      j := n;
    }
  }

  /** Every key a header line writes is among the keys the lines write. */
  lemma LineKeyInEntries(hs: seq<string>, j: nat, k: string)
    requires HeadersWellFormed(hs) && j < |hs| && WritesKey(hs[j], k)
    ensures k in Keys(HeaderEntries(hs))
  {
    HeaderEntriesAround(hs, j);
    var x, y, z := HeaderEntries(hs[..j]), LineWrites(hs[j]), HeaderEntries(hs[j + 1..]);
    LineWritesHas(hs[j], k);
    KeysAppend(x, y);
    KeysAppend(x + y, z);
  }

  /** The header lines write exactly the keys their lines write. */
  lemma HeaderEntriesKeys(hs: seq<string>, k: string)
    requires HeadersWellFormed(hs)
    ensures k in Keys(HeaderEntries(hs)) <==> exists j :: 0 <= j < |hs| && WritesKey(hs[j], k)
  {
    if k in Keys(HeaderEntries(hs)) {
      var j := HeaderEntriesKeyLine(hs, k);
    }
    if exists j :: 0 <= j < |hs| && WritesKey(hs[j], k) {
      var j :| 0 <= j < |hs| && WritesKey(hs[j], k);
      LineKeyInEntries(hs, j, k);
    }
  }

  /** $_SERVER holds exactly the three request-line keys and the keys the
      header lines write. */
  lemma ServerKeys(raw: string, k: string)
    requires Decode(raw).Success?
    ensures HeadersWellFormed(Headers(raw))
    ensures k in Keys(Decode(raw).value.server) <==>
      || k == "REQUEST_METHOD" || k == "REQUEST_URI" || k == "SERVER_PROTOCOL"
      || exists j :: 0 <= j < |Headers(raw)| && WritesKey(Headers(raw)[j], k)
  {
    DecodeServer(raw);
    ServerOfKeys(SplitRequestLine(Lines(raw)[0]).value, Headers(raw), k);
  }

  lemma ServerOfKeys(rl: RequestLine, hs: seq<string>, k: string)
    requires HeadersWellFormed(hs)
    ensures k in Keys(ServerOf(rl, hs)) <==>
      || k == "REQUEST_METHOD" || k == "REQUEST_URI" || k == "SERVER_PROTOCOL"
      || exists j :: 0 <= j < |hs| && WritesKey(hs[j], k)
  {
    var w, he := RequestLineWrites(rl), HeaderEntries(hs);
    PutAllKeys([], w + he, k);
    HeaderEntriesKeys(hs, k);
    KeysAppend(w, he);
    assert Keys([]) == [];
    assert Keys(w) == ["REQUEST_METHOD", "REQUEST_URI", "SERVER_PROTOCOL"];
  }

  // ---------------------------------------------------------------------
  // The $_GET entries

  /** The query chunks of the raw text. */
  function Chunks(raw: string): seq<string> {
    QueryChunks(Query(raw))
  }

  /** The raw-text form of what a successful run puts in $_GET. */
  lemma DecodeGet(raw: string)
    requires Decode(raw).Success?
    ensures QueryWellFormed(Query(raw))
    ensures Decode(raw).value.get == PutAll([], QueryPairs(Query(raw)))
  {
    DecodeValue(raw);
  }

  lemma QueryLastWins(q: string, i: nat)
    requires QueryWellFormed(q) && i < |QueryChunks(q)|
    requires forall j :: i < j < |QueryChunks(q)| ==>
      DecodePair(QueryChunks(q)[j]).value.0 != DecodePair(QueryChunks(q)[i]).value.0
    ensures Get(PutAll([], QueryPairs(q)), DecodePair(QueryChunks(q)[i]).value.0) == Some(DecodePair(QueryChunks(q)[i]).value.1)
  {
    var cs, ps := QueryChunks(q), QueryPairs(q);
    DecodePairsAt(cs, i);
    forall j | i < j < |ps| ensures ps[j].0 != ps[i].0 {
      DecodePairsAt(cs, j);
    }
    GetPutAll([], ps, ps[i].0);
    LastValueAt(ps, i, None);
  }

  /** A query chunk's decoded value is in $_GET under its decoded key,
      unless a later chunk decodes to the same key. */
  lemma QueryParameterRecorded(raw: string, i: nat)
    requires Decode(raw).Success?
    requires QueryWellFormed(Query(raw)) && i < |Chunks(raw)|
    requires forall j :: i < j < |Chunks(raw)| ==>
      DecodePair(Chunks(raw)[j]).value.0 != DecodePair(Chunks(raw)[i]).value.0
    ensures Get(Decode(raw).value.get, DecodePair(Chunks(raw)[i]).value.0) == Some(DecodePair(Chunks(raw)[i]).value.1)
  {
    DecodeGet(raw);
    QueryLastWins(Query(raw), i);
  }

  /** The $_GET array a query string gives holds exactly the decoded keys
      of its chunks. */
  lemma QueryKeys(q: string, k: string)
    requires QueryWellFormed(q)
    ensures k in Keys(PutAll([], QueryPairs(q))) <==>
      exists j :: 0 <= j < |QueryChunks(q)| && DecodePair(QueryChunks(q)[j]).value.0 == k
  {
    var cs, ps := QueryChunks(q), QueryPairs(q);
    PutAllKeys([], ps, k);
    assert Keys([]) == [];
    if k in Keys(ps) {
      var j :| 0 <= j < |ps| && Keys(ps)[j] == k;
      DecodePairsAt(cs, j);
    }
    if exists j :: 0 <= j < |cs| && DecodePair(cs[j]).value.0 == k {
      var j :| 0 <= j < |cs| && DecodePair(cs[j]).value.0 == k;
      DecodePairsAt(cs, j);
      assert Keys(ps)[j] == k;
    }
  }

  /** A decoded key holds no space: every one became '_'. */
  lemma DecodedKeyHasNoSpace(chunk: string)
    requires '=' in chunk
    ensures ' ' !in DecodePair(chunk).value.0
  {
    var (key, _) := SplitAtChar(chunk, '=').value;
    ReplaceCharAt(UrlDecode(key), ' ', '_');
  }

  lemma QueryKeysHaveNoSpace(q: string)
    requires QueryWellFormed(q)
    ensures forall i :: 0 <= i < |PutAll([], QueryPairs(q))| ==> ' ' !in PutAll([], QueryPairs(q))[i].0
  {
    var get := PutAll([], QueryPairs(q));
    forall i | 0 <= i < |get| ensures ' ' !in get[i].0 {
      var k := get[i].0;
      assert Keys(get)[i] == k;
      QueryKeys(q, k);
      var j :| 0 <= j < |QueryChunks(q)| && DecodePair(QueryChunks(q)[j]).value.0 == k;
      DecodedKeyHasNoSpace(QueryChunks(q)[j]);
    }
  }

  /** No key of $_GET holds a space. */
  lemma GetKeysHaveNoSpace(raw: string)
    requires Decode(raw).Success?
    ensures forall i :: 0 <= i < |Decode(raw).value.get| ==> ' ' !in Decode(raw).value.get[i].0
  {
    DecodeGet(raw);
    QueryKeysHaveNoSpace(Query(raw));
  }

  /** $_GET is empty exactly when the query string is. */
  lemma GetEmptyIff(raw: string)
    requires Decode(raw).Success?
    ensures Decode(raw).value.get == [] <==> Query(raw) == ""
  {
    DecodeGet(raw);
    var q := Query(raw);
    if q != "" {
      var ps := QueryPairs(q);
      assert |ps| > 0;
      assert PutAll([], ps) == Put(PutAll([], ps[..|ps| - 1]), ps[|ps| - 1].0, ps[|ps| - 1].1);
    }
  }

  // ---------------------------------------------------------------------
  // Query strings built by urlencode

  /** Keys and values that are PHP strings. */
  predicate ByteEntries(ps: seq<Entry>) {
    forall i :: 0 <= i < |ps| ==> IsByteString(ps[i].0) && IsByteString(ps[i].1)
  }

  /** urlencode(key) . '=' . urlencode(value). */
  function EncodeChunk(e: Entry): string
    requires IsByteString(e.0) && IsByteString(e.1)
  {
    UrlEncode(e.0) + "=" + UrlEncode(e.1)
  }

  /** The chunks of a query string built from `ps`, in order. */
  function EncodeChunks(ps: seq<Entry>): (cs: seq<string>)
    requires ByteEntries(ps)
    ensures |cs| == |ps|
    decreases |ps|
  {
    if ps == [] then [] else [EncodeChunk(ps[0])] + EncodeChunks(ps[1..])
  }

  lemma {:induction false} EncodeChunksAt(ps: seq<Entry>)
    requires ByteEntries(ps)
    ensures forall i :: 0 <= i < |ps| ==> EncodeChunks(ps)[i] == EncodeChunk(ps[i])
    decreases |ps|
  {
    if ps != [] {
      var tail := ps[1..];
      assert forall i :: 0 <= i < |tail| ==> tail[i] == ps[i + 1];
      EncodeChunksAt(tail);
      var cs, rest := EncodeChunks(ps), EncodeChunks(tail);
      assert cs == [EncodeChunk(ps[0])] + rest;
      forall i | 1 <= i < |ps| ensures cs[i] == EncodeChunk(ps[i]) {
        assert cs[i] == rest[i - 1];
      }
    }
  }

  /** An encoded chunk has one '=', no '&', and decodes to its key, with
      spaces turned into '_', and its value. */
  lemma DecodeEncodedChunk(e: Entry)
    requires IsByteString(e.0) && IsByteString(e.1)
    ensures '=' in EncodeChunk(e) && '&' !in EncodeChunk(e)
    ensures DecodePair(EncodeChunk(e)) == Some((ReplaceChar(e.0, ' ', '_'), e.1))
  {
    var k, v := UrlEncode(e.0), UrlEncode(e.1);
    var c := EncodeChunk(e);
    assert c == k + ['='] + v;
    assert c[|k|] == '=';
    assert '=' !in k;
    assert '&' !in c by {
      forall i | 0 <= i < |c| ensures c[i] != '&' {
        if i < |k| {
          assert c[i] == k[i];
        } else if i > |k| {
          assert c[i] == v[i - |k| - 1];
        }
      }
    }
    var (before, after) := SplitAtChar(c, '=').value;
    SplitUnique(k, v, before, after, '=');
    UrlDecodeEncode(e.0);
    UrlDecodeEncode(e.1);
  }

  /** parseQueryString undoes the encoding of a list of pairs: it yields
      the pairs in order, each key with its spaces turned into '_'. */
  lemma QueryRoundTrip(ps: seq<Entry>)
    requires ByteEntries(ps)
    ensures var q := Join(EncodeChunks(ps), '&');
      && QueryWellFormed(q) && |QueryPairs(q)| == |ps|
      && forall i :: 0 <= i < |ps| ==> QueryPairs(q)[i] == (ReplaceChar(ps[i].0, ' ', '_'), ps[i].1)
  {
    var cs := EncodeChunks(ps);
    var q := Join(cs, '&');
    EncodeChunksAt(ps);
    forall i | 0 <= i < |ps| ensures '=' in cs[i] && '&' !in cs[i] {
      DecodeEncodedChunk(ps[i]);
    }
    if ps != [] {
      ExplodeJoin(cs, '&');
      assert q != "" by {
        assert '=' in cs[0];
        if |cs| == 1 {
          assert q == cs[0];
        } else {
          assert q == cs[0] + ['&'] + Join(cs[1..], '&');
        }
      }
      assert QueryChunks(q) == cs;
      forall i | 0 <= i < |ps| ensures QueryPairs(q)[i] == (ReplaceChar(ps[i].0, ' ', '_'), ps[i].1) {
        DecodePairsAt(cs, i);
        DecodeEncodedChunk(ps[i]);
      }
    }
  }
}
