/** Request URIs and their queries, with percent-encoding (section 2.1 of RFC 3986) as Go's net/url reads it. */
module Uri {
  import opened Wrappers
  import opened Varint
  import opened Separated

  const SPACE: byte := 0x20
  const PERCENT: byte := 0x25
  const AMPERSAND: byte := 0x26
  const PLUS: byte := 0x2B
  const SLASH: byte := 0x2F
  const SEMICOLON: byte := 0x3B
  const EQUALS: byte := 0x3D
  const QUESTION: byte := 0x3F
  const DELETE: byte := 0x7F

  datatype Pair = Pair(key: Text, val: Text)

  /** A request URI that parses: its decoded path and its raw query. */
  datatype Url = Url(path: Text, rawQuery: Text)

  // ---------- Percent-encoding ----------

  function HexValue(c: byte): Option<nat> {
    if 0x30 <= c <= 0x39 then Some(c - 0x30)
    else if 0x41 <= c <= 0x46 then Some(c - 0x41 + 10)
    else if 0x61 <= c <= 0x66 then Some(c - 0x61 + 10)
    else None
  }

  function HexDigit(v: nat): (c: byte)
    requires v < 16
    ensures HexValue(c) == Some(v) && (0x30 <= c <= 0x39 || 0x41 <= c <= 0x46)
  {
    if v < 10 then 0x30 + v else 0x41 + v - 10
  }

  /** A '+' is a space in queries only. */
  function Unescape(s: Text, plusIsSpace: bool): Option<Text> {
    if s == [] then Some([])
    else if s[0] == PERCENT then
      if |s| < 3 || HexValue(s[1]) == None || HexValue(s[2]) == None then None
      else Before((HexValue(s[1]).value * 16 + HexValue(s[2]).value) % 256, Unescape(s[3..], plusIsSpace))
    else Before(if s[0] == PLUS && plusIsSpace then SPACE else s[0], Unescape(s[1..], plusIsSpace))
  }

  function Before(c: byte, s: Option<Text>): Option<Text> {
    if s == None then None else Some([c] + s.value)
  }

  function Escape(s: Text): Text {
    if s == [] then [] else [PERCENT, HexDigit(s[0] / 16), HexDigit(s[0] % 16)] + Escape(s[1..])
  }

  /** Only '%' and hexadecimal digits. */
  predicate Escaped(s: Text) {
    forall c <- s :: c == PERCENT || 0x30 <= c <= 0x39 || 0x41 <= c <= 0x46
  }

  /** Any text can be written without separators. */
  lemma {:induction false} EscapeUndone(s: Text, plusIsSpace: bool)
    ensures Unescape(Escape(s), plusIsSpace) == Some(s) && Escaped(Escape(s))
  {
    hide HexValue, HexDigit, Escaped;
    if s == [] {
      NoneEscaped();
    } else {
      EscapeUndone(s[1..], plusIsSpace);
      OneEscaped(s[0], Escape(s[1..]), plusIsSpace);
      assert [s[0]] + s[1..] == s;
    }
  }

  lemma NoneEscaped()
    ensures Escaped([])
  {
  }

  lemma OneEscaped(c: byte, rest: Text, plusIsSpace: bool)
    ensures var e := [PERCENT, HexDigit(c / 16), HexDigit(c % 16)];
            Unescape(e + rest, plusIsSpace) == Before(c, Unescape(rest, plusIsSpace)) && (Escaped(rest) ==> Escaped(e + rest))
  {
    hide HexValue, HexDigit;
    var e := [PERCENT, HexDigit(c / 16), HexDigit(c % 16)];
    assert (e + rest)[3..] == rest;
  }

  // ---------- Plain text ----------

  /** A byte that stands for itself everywhere in a request. */
  predicate Ordinary(c: byte) {
    !Control(c) && c != PERCENT && c != AMPERSAND && c != PLUS && c != SEMICOLON && c != EQUALS && c != QUESTION
  }

  /** Text that is written as it is. */
  predicate Unreserved(s: Text) {
    forall i | 0 <= i < |s| :: Ordinary(s[i])
  }

  lemma {:induction false} UnreservedRead(s: Text, plusIsSpace: bool)
    requires Unreserved(s)
    ensures Unescape(s, plusIsSpace) == Some(s)
  {
    if s != [] {
      UnreservedRead(s[1..], plusIsSpace);
      assert [s[0]] + s[1..] == s;
    }
  }

  /** Plain text in front is read as it is. */
  lemma {:induction false} ReadsThrough(a: Text, t: Text, plusIsSpace: bool)
    requires Unreserved(a)
    ensures var rest := Unescape(t, plusIsSpace);
            Unescape(a + t, plusIsSpace) == if rest == None then None else Some(a + rest.value)
  {
    hide Unescape;
    var rest := Unescape(t, plusIsSpace);
    if a == [] {
      assert a + t == t;
      assert rest != None ==> a + rest.value == rest.value;
    } else {
      ReadsThrough(a[1..], t, plusIsSpace);
      OneRead(a[0], a[1..] + t, plusIsSpace);
      assert a + t == [a[0]] + (a[1..] + t);
      assert rest != None ==> [a[0]] + (a[1..] + rest.value) == a + rest.value;
    }
  }

  lemma OneRead(c: byte, t: Text, plusIsSpace: bool)
    requires Ordinary(c)
    ensures Unescape([c] + t, plusIsSpace) == Before(c, Unescape(t, plusIsSpace))
  {
    assert ([c] + t)[1..] == t;
  }

  /** In a query '+' is a space, elsewhere it is itself. */
  lemma PlusRead(a: Text, b: Text, plusIsSpace: bool)
    requires Unreserved(a) && Unreserved(b)
    ensures Unescape(a + ([PLUS] + b), plusIsSpace) == Some(a + ([if plusIsSpace then SPACE else PLUS] + b))
  {
    ReadsThrough(a, [PLUS] + b, plusIsSpace);
    UnreservedRead(b, plusIsSpace);
    assert ([PLUS] + b)[1..] == b;
  }

  /** A percent sign that two hexadecimal digits do not follow is malformed, wherever it stands. */
  lemma MalformedRead(a: Text, b: Text, plusIsSpace: bool)
    requires Unreserved(a) && (|b| < 2 || HexValue(b[0]) == None || HexValue(b[1]) == None)
    ensures Unescape(a + ([PERCENT] + b), plusIsSpace) == None
  {
    ReadsThrough(a, [PERCENT] + b, plusIsSpace);
  }

  // ---------- Queries ----------

  /** One piece of a query: malformed and empty ones are left out. */
  function DecodePiece(piece: Text): Option<Pair> {
    if SEMICOLON in piece || piece == [] then None
    else
      var k := Until(piece, EQUALS);
      match (Unescape(piece[..k], true), Unescape(if k < |piece| then piece[k + 1..] else [], true))
      case (Some(key), Some(val)) => Some(Pair(key, val))
      case _ => None
  }

  function Decoded(pieces: seq<Text>): seq<Pair> {
    if pieces == [] then []
    else (match DecodePiece(pieces[0]) case Some(p) => [p] case None => []) + Decoded(pieces[1..])
  }

  /** The pairs a raw query holds, in order. */
  function Query(rawQuery: Text): seq<Pair> {
    Decoded(Split(rawQuery, AMPERSAND))
  }

  function WritePair(p: Pair): (piece: Text) {
    Escape(p.key) + [EQUALS] + Escape(p.val)
  }

  /** Plain pieces: one with a name and a value, one with a name alone, and one with a semicolon, which is left out. */
  lemma PiecesRead(name: Text, val: Text)
    requires Unreserved(name) && Unreserved(val)
    ensures DecodePiece(name + [EQUALS] + val) == Some(Pair(name, val))
    ensures DecodePiece(name) == if name == [] then None else Some(Pair(name, []))
    ensures DecodePiece(name + [SEMICOLON] + val) == None
  {
    UnreservedRead(name, true);
    UnreservedRead(val, true);
    UnreservedRead([], true);
    var piece := name + [EQUALS] + val;
    assert piece[..|name|] == name && piece[|name| + 1..] == val;
    UntilIsFirst(piece, EQUALS, |name|);
    UntilIsFirst(name, EQUALS, |name|);
    assert name[..|name|] == name;
    assert (name + [SEMICOLON] + val)[|name|] == SEMICOLON;
  }

  lemma PairRead(p: Pair)
    ensures DecodePiece(WritePair(p)) == Some(p) && AMPERSAND !in WritePair(p)
    ensures forall c <- WritePair(p) :: c > SPACE && c != DELETE
  {
    hide Unescape, Escape;
    EscapeUndone(p.key, true);
    EscapeUndone(p.val, true);
    var piece, k := WritePair(p), |Escape(p.key)|;
    assert piece[..k] == Escape(p.key) && piece[k] == EQUALS && piece[k + 1..] == Escape(p.val);
    UntilIsFirst(piece, EQUALS, k);
  }

  // ---------- Requests ----------

  predicate Control(c: byte) {
    c < SPACE || c == DELETE
  }

  /** A request URI is mostly a path, with the query behind the first '?'; what other forms mean is up to the second argument. */
  function ParseRequestURI(uri: Text, other: Text -> Option<Url>): Option<Url> {
    if !Rooted(uri) then other(uri)
    else if exists c <- uri :: Control(c) then None
    else
      var k := Until(uri, QUESTION);
      match Unescape(uri[..k], false)
      case None => None
      case Some(path) => Some(Url(path, if k < |uri| then uri[k + 1..] else []))
  }

  predicate Rooted(uri: Text) {
    uri != [] && uri[0] == SLASH
  }

  lemma RootedPath(uri: Text, other: Text -> Option<Url>)
    requires Rooted(uri) && ParseRequestURI(uri, other) != None
    ensures Rooted(ParseRequestURI(uri, other).value.path)
  {
    var k := Until(uri, QUESTION);
    assert uri[..k][0] == SLASH;
  }

  lemma PathRead(path: Text) returns (raw: Text)
    requires Rooted(path)
    ensures Rooted(raw) && Unescape(raw, false) == Some(path)
    ensures QUESTION !in raw && forall c <- raw :: !Control(c)
  {
    raw := [SLASH] + Escape(path[1..]);
    EscapeUndone(path[1..], false);
    assert raw[1..] == Escape(path[1..]);
    assert [SLASH] + path[1..] == path;
  }

  lemma OnePieceQuery(p: Pair)
    ensures Query(WritePair(p)) == [p]
  {
    hide WritePair, DecodePiece;
    PairRead(p);
    var piece := WritePair(p);
    UntilIsFirst(piece, AMPERSAND, |piece|);
    assert Split(piece, AMPERSAND) == [piece];
    assert Decoded([piece]) == [p] + Decoded([]);
  }

  /** Every rooted path with any pair can be requested. */
  lemma OnePairRequest(path: Text, p: Pair, other: Text -> Option<Url>) returns (uri: Text)
    requires Rooted(path)
    ensures Rooted(uri) && ParseRequestURI(uri, other) == Some(Url(path, WritePair(p))) && Query(WritePair(p)) == [p]
  {
    hide WritePair, Query, DecodePiece, Unescape, Escape;
    var raw := PathRead(path);
    var query := WritePair(p);
    OnePieceQuery(p);
    PairRead(p);
    uri := raw + [QUESTION] + query;
    assert uri[..|raw|] == raw && uri[|raw| + 1..] == query;
    UntilIsFirst(uri, QUESTION, |raw|);
  }
}
