# http-request-parser in Dafny

A model of `Toflar\HttpRequestParser\Parser` (src/Parser.php). The parser
takes the text of one HTTP/1.x request and builds the arrays PHP would
give a script: `$_GET`, `$_POST`, `$_COOKIE`, `$_FILES`, `$_SERVER`, and
the body string. It does this lazily, on the first call of any getter.

The model has two layers.

- `RequestParser.Decode(raw)` is a pure function. It states what one run
  of `parse()` leaves in `get`, `server` and `body`. On the inputs on
  which `parse()` raises a warning or a TypeError, it returns that
  problem as a `ParseError` instead.
- `RequestParser.Parser` is a class with the source's fields. Its methods
  (`Parse`, `ParsePath`, `ParseHeaders`, `ParseBody`, `ParseQueryString`,
  `SetHeaderToServer`, and the six getters) do the work step by step, as
  the PHP code does. The class invariant `Valid()` says two things:
  before parsing, every array is empty; after parsing, the fields equal
  `Decode(raw)`. Each method is proved against the function that
  specifies it.

What the source promises is proved about `Decode` in module
`ParserProperties`:

- when a run succeeds;
- where the body comes from;
- which keys `$_SERVER` and `$_GET` end up holding;
- later header lines and query chunks override earlier ones
  ("last write wins");
- the query decoder undoes `urlencode`.

Modules:

- `Wrappers`: `Option` and `Result`.
- `PhpStrings`: the PHP string functions the parser calls. These are
  `strpos`, `explode` (with and without a limit of 2), `trim`,
  `array_filter` on strings, `strtolower`, `strtoupper` and `str_replace`
  of one character.
- `UrlCodec`: `urldecode`, and `urlencode` as its partner.
- `OrderedMap`: PHP arrays with string keys, as association lists. An
  assignment to an existing key keeps the key's position; an assignment
  to a new key appends it.
- `RequestParser`: the decoding steps, `Decode`, and the class `Parser`.
- `ParserProperties`: the properties of a whole run, stated on the raw
  text.

PHP strings are sequences of bytes. Here they are `string`, one character
per byte. `urldecode` produces characters below 256.

Points where this revision differs from what PHP's own `$_SERVER` and
`$_GET` would give, or where the code is easy to misread:

- The request-line pattern's first group is greedy. The path and the
  protocol are therefore taken from around the last two spaces.
- A request line that does not match is not replaced by empty fields.
  `parsePath(null)` then raises a TypeError, and the model returns a
  `ParseError` (see "Left out").
- A query chunk without '=', or a header line without ':', makes PHP
  raise an "Undefined array key 1" warning. PHP then goes on with an
  empty value; the model returns a `ParseError` (see "Left out").
- Content-Type and Content-Length are recognised by their lower-cased
  name. A `Content_Type` line normalizes to the same name but writes only
  `HTTP_CONTENT_TYPE`.
- Lines are split at "\n" only; "\r" is removed by `trim`.
- Cookies, the `Authorization` header and POST bodies are not decoded by
  this revision of the code. The `cookie`, `post` and `files` arrays are
  never written.

## Model

| member | source | states |
|---|---|---|
| RequestParser.Decode | src/Parser.php:113-146 | one run of parse(): Success with get, server and body, or the ParseError for the first warning or TypeError PHP raises; no ensures of its own: DecodeSucceeds, DecodeValue and the other ParserProperties lemmas state its properties, and Parser.Valid ties the class to it |
| RequestParser.DecodeLines | src/Parser.php:129-143 | the part of Decode after the split of the message; no ensures of its own: DecodeParts gives its success case |
| RequestParser.SplitRequestLine | src/Parser.php:131 | the greedy request-line pattern; no ensures of its own: SplitRequestLineShape and RequestLineUnique characterise it both ways |
| RequestParser.QueryString | src/Parser.php:150-154 | the text after the first '?', or ""; no ensures of its own: QueryStringAfterMark characterises it |
| RequestParser.HeaderLines | src/Parser.php:126-127 | explode at "\n", trim, drop "" and "0"; no ensures of its own: HeaderLinesKeep, HeaderLinesAppend and HeaderLinesOne characterise it |
| RequestParser.QueryPairs | src/Parser.php:194-206 | one decoded pair per chunk; the pairs themselves in DecodePairsAt |
| RequestParser.DecodePairs | src/Parser.php:196-204 | one pair per chunk; the i-th pair in DecodePairsAt |
| RequestParser.NormalizeName | src/Parser.php:213 | same length as the lower-cased name; the per-character mapping in NormalizeNameAt |
| RequestParser.RequestLineWrites | src/Parser.php:132-134 | the three request-line assignments in order; no ensures of its own: RequestLineServer shows they land in that order |
| RequestParser.LineWrites | src/Parser.php:162-171 | HeaderWrites of the split, trimmed line; no ensures of its own: LineWritesHas gives its keys |
| RequestParser.HeaderEntries | src/Parser.php:161-172 | the assignments of all header lines in order; no ensures of its own: HeaderEntriesAppend, HeaderEntriesAround and HeaderEntriesKeys characterise it |
| RequestParser.Parser.Valid | src/Parser.php:21-64 | the class invariant: post, cookie and files stay empty; before parsing get, server and body are empty, after it they equal Decode(raw) |
| OrderedMap.Put | src/Parser.php:206 | `$a[$k] = $v`: at most one entry longer; its meaning in PutGet, PutNew and PutInPlace |
| OrderedMap.PutAll | src/Parser.php:196-207 | a run of assignments: grows by at most one entry per assignment; its meaning in GetPutAll, PutAllAppend and PutAllKeys |
| PhpStrings.TrimAll | src/Parser.php:127 | array_map('trim'): same length; element by element in TrimAllAt |
| PhpStrings.DropFalsy | src/Parser.php:127 | array_filter: never longer; the kept elements in DropFalsyMembers, order in DropFalsyAppend |
| PhpStrings.ToLower | src/Parser.php:212 | strtolower: same length; the per-character mapping in ToLowerAt |
| PhpStrings.ToUpper | src/Parser.php:213 | strtoupper: same length; the per-character mapping in ToUpperAt |
| PhpStrings.ReplaceChar | src/Parser.php:204 | str_replace of one character: same length; position by position in ReplaceCharAt |
| RequestParser.Parser.constructor | src/Parser.php:66-69 | stores the raw text; every array is empty, the body is "" and the parser has not parsed yet |
| RequestParser.Parser.GetGet | src/Parser.php:71-76 | parses on the first call only; returns `$this->get`, which is Decode's query array; a later call changes nothing |
| RequestParser.Parser.GetPost | src/Parser.php:78-83 | parses on the first call only; returns `$this->post`, which stays empty |
| RequestParser.Parser.GetCookie | src/Parser.php:85-90 | parses on the first call only; returns `$this->cookie`, which stays empty |
| RequestParser.Parser.GetFiles | src/Parser.php:92-97 | parses on the first call only; returns `$this->files`, which stays empty |
| RequestParser.Parser.GetServer | src/Parser.php:99-104 | parses on the first call only; returns `$this->server`, which is Decode's server array |
| RequestParser.Parser.GetBody | src/Parser.php:106-111 | parses on the first call only; returns `$this->body`, which is Decode's body |
| RequestParser.Parser.Parse | src/Parser.php:113-146 | a parser that has already parsed is left unchanged; otherwise one run leaves get, server and body equal to Decode(raw), and the parser marked parsed |
| RequestParser.Parser.ParseRaw | src/Parser.php:119-143 | starting from empty arrays, splitting and then decoding the lines gives exactly Decode(raw) |
| RequestParser.Parser.SplitRaw | src/Parser.php:119-124 | returns the header block and the body that SplitMessage specifies |
| RequestParser.Parser.ParseLines | src/Parser.php:129-143 | the request line, query string, headers and body, written into empty arrays, make up the successful DecodeLines result |
| RequestParser.Parser.ParseRequestLine | src/Parser.php:130-134 | server becomes exactly REQUEST_METHOD, REQUEST_URI, SERVER_PROTOCOL from the matched line, in that order |
| RequestParser.Parser.ParsePath | src/Parser.php:148-157 | get becomes the old get with the decoded pairs of the text after the first '?' assigned in order |
| RequestParser.Parser.ParseHeaders | src/Parser.php:159-173 | server becomes the old server with every header line's writes assigned, line after line (loop invariant over the processed prefix) |
| RequestParser.Parser.ParseBody | src/Parser.php:175-185 | the body field becomes the given text, unchanged |
| RequestParser.Parser.ParseQueryString | src/Parser.php:187-208 | get becomes the old get with each chunk's decoded pair assigned in order; an empty query string changes nothing (loop invariant over the processed chunks) |
| RequestParser.Parser.SetHeaderToServer | src/Parser.php:210-224 | server becomes the old server with HeaderWrites(name, value) assigned: the unprefixed entry for content headers, then the HTTP_ entry |
| RequestParser.SplitMessage | src/Parser.php:119-124 | if the text holds "\r\n\r\n", it is header block + separator + body, and the separator does not occur earlier; otherwise the block is the whole text and the body is "" |
| RequestParser.HeaderLinesKeep | src/Parser.php:126-127 | a string is a header line iff it is the trim of some "\n"-piece and is neither "" nor "0"; every header line is trimmed and truthy |
| RequestParser.SplitRequestLineShape | src/Parser.php:131 | a match puts the line back together as method + " " + path + " " + protocol, with no space in path or protocol; no match iff the line has fewer than two spaces |
| RequestParser.RequestLineUnique | src/Parser.php:131 | a line built from method, path and protocol, with no space in path or protocol, matches with exactly those three groups |
| RequestParser.QueryStringAfterMark | src/Parser.php:150-154 | without '?' the query string is ""; with one, the path ends in "?" + query, and there is no '?' before that mark |
| RequestParser.QueryChunks | src/Parser.php:189-194 | an empty query has no chunks; otherwise there is at least one chunk (a chunk itself may be empty, as in `a=1&&b=2`), and the chunks joined by '&' give the query back |
| RequestParser.DecodePair | src/Parser.php:197-204 | a chunk decodes exactly when it holds '=' |
| RequestParser.DecodePairSplit | src/Parser.php:197-204 | a chunk `k=v` with no '=' in `k` gives the url-decoded `k` with spaces made '_' as key and the url-decoded `v`, which may hold further '=', as value |
| RequestParser.DecodePairsAt | src/Parser.php:196-204 | the i-th pair is the decoding of the i-th chunk |
| RequestParser.SplitHeader | src/Parser.php:162-166 | a line splits exactly when it holds ':'; name and value are both trimmed, and SplitHeaderSplit says which text they are |
| RequestParser.SplitHeaderSplit | src/Parser.php:162-166 | a line `n:v` with no ':' in `n` gives the trimmed `n` as name and the trimmed `v`, which may hold further ':', as value |
| RequestParser.NormalizeNameAt | src/Parser.php:212-213 | the normalized name has no '-' and no lower-case letter; each character is the upper-cased original, with '-' becoming '_' |
| RequestParser.HeaderWrites | src/Parser.php:210-224 | the last write is ("HTTP_" + normalized name, value); there are two writes iff the lower-cased name is content-type or content-length, and then the first is (normalized name, value) |
| RequestParser.FirstWithoutAll | src/Parser.php:162 | FirstWithout finds nothing iff every chunk or line holds the separator; every one before the one it finds holds it |
| RequestParser.DecodeParts | src/Parser.php:129-143 | a successful run has a matching request line, well-formed chunks and header lines, and its arrays are those assignments applied to empty arrays |
| RequestParser.RequestLineServer | src/Parser.php:132-134 | the three request-line keys are distinct, so assigning them to an empty array lays them out in order |
| ParserProperties.DecodeSucceeds | src/Parser.php:126-137 | Decode succeeds (PHP raises no warning and no TypeError) iff there is a header line, the first line has two spaces, every query chunk holds '=', and every later line holds ':' |
| ParserProperties.DecodeValue | src/Parser.php:113-146 | the arrays of a successful run are the query pairs, and the request-line and header writes, applied in order to empty arrays; the body is the split-off body |
| ParserProperties.BodyAfterFirstSeparator | src/Parser.php:119-124 | the body is the text after the first "\r\n\r\n", as it stands; without one the body is "" |
| ParserProperties.MessageBody | src/Parser.php:119-124 | the same, for the split of the message alone |
| ParserProperties.HeaderLinesAppend | src/Parser.php:126-127 | header lines of two blocks joined by "\n" are the lines of the first block followed by those of the second; order is kept |
| ParserProperties.HeaderLinesOne | src/Parser.php:126-127 | a block without "\n" gives its trimmed text as its only line, or nothing when that is "" or "0" |
| ParserProperties.HeaderEntriesAppend | src/Parser.php:159-173 | the writes of two runs of header lines are those of the first run followed by those of the second |
| ParserProperties.HeaderEntriesAround | src/Parser.php:161-172 | the writes of the header lines are the writes before line i, then line i's, then those after it |
| ParserProperties.HeaderEntriesAvoidOther | src/Parser.php:215-223 | no header line writes a key that starts with neither 'H' nor 'C', so REQUEST_* and SERVER_PROTOCOL are never overwritten |
| ParserProperties.HeaderLastWins | src/Parser.php:223 | when no later line has the same normalized name, line i's value is the last one written under HTTP_ + that name |
| ParserProperties.ContentHeaderLastWins | src/Parser.php:217-220 | the unprefixed key of a Content-Type or Content-Length line holds its value, when no later content header has the same name; a later `Content_Type` line does not overwrite it |
| ParserProperties.ServerPrefix | src/Parser.php:132-140 | after all header writes, the first three server entries are still the request-line entries |
| ParserProperties.ServerBeginsWithRequestLine | src/Parser.php:130-134 | $_SERVER starts with REQUEST_METHOD, REQUEST_URI, SERVER_PROTOCOL, whose values joined by spaces are the first line; URI and protocol have no space |
| ParserProperties.ServerOfGet | src/Parser.php:132-140 | looking a key up in the server array gives the last header write for it, else the request-line write, else nothing |
| ParserProperties.DecodeServer | src/Parser.php:129-140 | $_SERVER of a successful run is the server array of its request line and header lines |
| ParserProperties.HeaderRecorded | src/Parser.php:161-171 | a header line's trimmed value is in $_SERVER under HTTP_ + its normalized name, when no later line has that name |
| ParserProperties.LaterContentLinesAvoid | src/Parser.php:215-223 | lines after a content header write its unprefixed key only if they are content headers with the same name |
| ParserProperties.ContentHeaderRecorded | src/Parser.php:215-220 | a Content-Type or Content-Length line's value is also in $_SERVER under CONTENT_TYPE or CONTENT_LENGTH, when no later content header has the same name |
| ParserProperties.LineWritesHas | src/Parser.php:215-223 | the keys one line writes are HTTP_ + its name, and its bare name if it is a content header |
| ParserProperties.HeaderEntriesKeyLine | src/Parser.php:161-171 | every key the header lines write comes from a line that writes it |
| ParserProperties.HeaderEntriesKeys | src/Parser.php:161-171 | a key is written by the header lines iff some line writes it |
| ParserProperties.ServerKeys | src/Parser.php:132-140 | $_SERVER holds a key iff it is REQUEST_METHOD, REQUEST_URI or SERVER_PROTOCOL, or some header line writes it |
| ParserProperties.DecodeGet | src/Parser.php:187-208 | $_GET of a successful run is the decoded query pairs applied in order to an empty array |
| ParserProperties.QueryLastWins | src/Parser.php:196-207 | a chunk's decoded value is stored under its decoded key, when no later chunk decodes to the same key |
| ParserProperties.QueryParameterRecorded | src/Parser.php:196-207 | the same, for the query string of the raw request |
| ParserProperties.QueryKeys | src/Parser.php:196-206 | $_GET holds a key iff some chunk decodes to that key |
| ParserProperties.DecodedKeyHasNoSpace | src/Parser.php:203-204 | a decoded key holds no space |
| ParserProperties.GetKeysHaveNoSpace | src/Parser.php:200-206 | no key of $_GET holds a space |
| ParserProperties.GetEmptyIff | src/Parser.php:150-191 | $_GET is empty iff the query string is empty |
| ParserProperties.DecodeEncodedChunk | src/Parser.php:197-204 | a chunk urlencode(key)=urlencode(value) holds '=' and no '&', and decodes to (key with spaces as '_', value) |
| ParserProperties.QueryRoundTrip | src/Parser.php:194-206 | a query string joined from encoded pairs is well formed, has one pair per input, and gives back each key (spaces as '_') and value in order |
| PhpStrings.StrPos | src/Parser.php:119 | the index found is an occurrence with none earlier; None iff there is no occurrence |
| PhpStrings.SplitFirst | src/Parser.php:120 | explode with limit 2: the text is before + separator + after, with no earlier occurrence; None iff there is no occurrence |
| PhpStrings.SplitAtChar | src/Parser.php:151 | the text is before + c + after, with no c in before; None iff c is absent |
| PhpStrings.Explode | src/Parser.php:126 | at least one piece; the pieces joined by the separator give the text back |
| PhpStrings.ExplodePieces | src/Parser.php:194 | no piece holds the separator |
| PhpStrings.ExplodeJoin | src/Parser.php:194 | explode undoes join when no piece holds the separator |
| PhpStrings.ExplodeAppend | src/Parser.php:126 | exploding a + c + b gives the pieces of a followed by those of b |
| PhpStrings.LastIndexOf | src/Parser.php:131 | the index holds c, and no c follows it; None iff c is absent |
| PhpStrings.Trim | src/Parser.php:165-166 | the result is no longer than the text and neither starts nor ends with " \t\n\r\0\x0B" |
| PhpStrings.TrimShape | src/Parser.php:165-166 | the result is a contiguous part of the text, and what is cut on either side is trim characters only |
| PhpStrings.TrimExact | src/Parser.php:165-166 | trimming trim characters + trimmed x + trim characters gives x |
| PhpStrings.TrimIdempotent | src/Parser.php:127 | trimming twice is trimming once |
| PhpStrings.TrimAllAt | src/Parser.php:127 | array_map('trim') trims each element in place |
| PhpStrings.DropFalsyMembers | src/Parser.php:127 | array_filter keeps exactly the elements that are neither "" nor "0" |
| PhpStrings.DropFalsyAppend | src/Parser.php:127 | array_filter maps concatenation to concatenation, so it keeps order |
| PhpStrings.ToLowerAt | src/Parser.php:212 | strtolower maps each character with ASCII case mapping, where it stands |
| PhpStrings.ToUpperAt | src/Parser.php:213 | strtoupper maps each character with ASCII case mapping, where it stands |
| PhpStrings.ReplaceCharAt | src/Parser.php:204 | str_replace of one character replaces exactly its occurrences and keeps the rest |
| UrlCodec.UrlDecode | src/Parser.php:200-201 | never longer than its input; keeps byte strings byte strings; text without '%' or '+' is unchanged |
| UrlCodec.UrlDecodeEncode | src/Parser.php:199-201 | urldecode undoes urlencode on every byte string |
| UrlCodec.UrlDecodeSpelled | src/Parser.php:200-201 | any text made of spellings of the bytes of `s` (a byte other than '%' or '+' as itself, '+' for a space, '%' and two hex digits of either case) decodes to `s` |
| UrlCodec.BadPercent | src/Parser.php:200-201 | a '%' not followed by two hex digits is kept as it is and decoding goes on after it |
| OrderedMap.Get | src/Parser.php:206 | a key has a value iff it is among the array's keys |
| OrderedMap.PutGet | src/Parser.php:206 | after an assignment the key holds the new value and every other key keeps its value |
| OrderedMap.PutNew | src/Parser.php:132-134 | assigning a new key appends the entry |
| OrderedMap.PutInPlace | src/Parser.php:206 | assigning an existing key replaces its value where it stands, and nothing else moves |
| OrderedMap.PutAllDistinct | src/Parser.php:206 | assignments never produce a duplicate key |
| OrderedMap.GetPutAll | src/Parser.php:196-207 | after a run of assignments a key holds the last value assigned to it, else its old value |
| OrderedMap.PutAllAppend | src/Parser.php:161-172 | assigning two runs of entries is assigning the first, then the second |
| OrderedMap.PutAllKeys | src/Parser.php:206 | the keys after a run of assignments are the old keys and the assigned ones |
| OrderedMap.PutAllKeepsPrefix | src/Parser.php:132-140 | assignments to keys outside a prefix leave that prefix in place |
| OrderedMap.LastValueAt | src/Parser.php:196-207 | the last entry for a key sets its final value |

## Left out

- Malformed requests. The source raises a warning or a TypeError where
  the model returns a `ParseError`:
  - a request line with fewer than two spaces: `parsePath(null)` raises a
    TypeError;
  - no line left after filtering: the same TypeError;
  - a query chunk without '=': an "undefined array key" warning;
  - a header line without ':': the same warning.

  In each case `Decode` returns the `ParseError` and the class methods
  require `Decode(raw).Success?`. After the warning PHP finishes the run,
  with the null value turned into "" (`?x` gives `x` the value "", and a
  line `Bad` gives `HTTP_BAD` the value ""). That outcome, and the
  partial state left after the TypeError, are not modelled.
- RequestParser.Parser.Parse: state that a failed run may leave behind is
  not modelled, because failure is excluded by the precondition.
- Keys that look like integers. PHP turns a key such as "1" into the
  integer 1. Keys stay strings here; order and last-write-wins are the
  same either way.
- `preg_match`: modelled by its meaning for this pattern (a split at the
  last two spaces) rather than by a regular-expression engine. The first
  `.*` is greedy and `.` matches every character except "\n", and lines
  hold no "\n".
- Case mapping is ASCII only, as `strtolower` and `strtoupper` are from
  PHP 8.2 on. Locale-dependent mapping is not modelled.
- Cookies, basic auth, POST bodies and file uploads. The source marks
  them TODO and never writes `cookie`, `post` or `files`, so the model
  keeps them empty.
- The tests' fixture files are read from disk. Reading them is I/O and
  is not modelled.
- Concurrency: the class is single-threaded PHP, and none is modelled.
- Concrete example requests are not stated as lemmas. Evaluating
  `Decode` on a literal request costs the verifier far more than the
  general lemmas do. The general lemmas give the same facts. For the
  query `foo%20bar=what%20ever`: UrlDecodeSpelled decodes `foo%20bar` to
  `foo bar` and `what%20ever` to `what ever`, DecodePairSplit turns the
  chunk into the pair (`foo_bar`, `what ever`), and
  QueryParameterRecorded puts that pair into `$_GET`. For a header
  line `Name: value`, SplitHeaderSplit gives the trimmed name and value,
  NormalizeNameAt the normalised name and HeaderRecorded the
  `HTTP_` entry, and
  ServerBeginsWithRequestLine gives `REQUEST_URI` as written, still
  encoded.
