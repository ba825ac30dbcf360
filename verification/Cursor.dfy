// The opaque paging token (backend/internal/query/cursor.go): version byte, big-endian 64-bit
// milliseconds, id bytes, in unpadded base64url (section 5 of RFC 4648).

module Bytes {
  import opened Wrappers
  import opened Text

  type Byte = x: int | 0 <= x < 256

  // A Go string seen as the bytes it holds, one char per byte.
  type ByteString = s: string | forall c | c in s :: c < '\U{100}'

  function ToBytes(s: ByteString): seq<Byte> {
    seq(|s|, i requires 0 <= i < |s| => s[i] as int)
  }

  function FromBytes(b: seq<Byte>): ByteString {
    seq(|b|, i requires 0 <= i < |b| => b[i] as char)
  }

  lemma BytesRoundTrip(s: ByteString)
    ensures FromBytes(ToBytes(s)) == s
  {
  }

  // ---------------------------------------------------------------- base64url

  type Sextet = x: int | 0 <= x < 64

  // The URL-safe alphabet: A-Z, a-z, 0-9, '-', '_'.
  function Symbol(v: Sextet): char {
    if v < 26 then (v + 65) as char
    else if v < 52 then (v + 71) as char
    else if v < 62 then (v - 4) as char
    else if v == 62 then '-'
    else '_'
  }

  function ValueOf(c: char): Option<Sextet> {
    if 'A' <= c <= 'Z' then Some(c as int - 65)
    else if 'a' <= c <= 'z' then Some(c as int - 71)
    else if '0' <= c <= '9' then Some(c as int + 4)
    else if c == '-' then Some(62)
    else if c == '_' then Some(63)
    else None
  }

  lemma SymbolHasItsValue(v: Sextet)
    ensures ValueOf(Symbol(v)) == Some(v)
    ensures !IsSpace(Symbol(v))
  {
  }

  // The alphabet in order: capital letters, small letters, digits, a hyphen, an underscore.
  lemma AlphabetIs(v: Sextet)
    ensures v < 26 ==> Symbol(v) as int - 'A' as int == v
    ensures 26 <= v < 52 ==> Symbol(v) as int - 'a' as int == v - 26
    ensures 52 <= v < 62 ==> Symbol(v) as int - '0' as int == v - 52
    ensures v == 62 ==> Symbol(v) == '-'
    ensures v == 63 ==> Symbol(v) == '_'
  {
  }

  // Three bytes become four symbols; one or two left over become two or three.
  function EncodeSextets(b: seq<Byte>): seq<Sextet> {
    if |b| == 0 then []
    else if |b| == 1 then [b[0] / 4, b[0] % 4 * 16]
    else if |b| == 2 then [b[0] / 4, b[0] % 4 * 16 + b[1] / 16, b[1] % 16 * 4]
    else [b[0] / 4, b[0] % 4 * 16 + b[1] / 16, b[1] % 16 * 4 + b[2] / 64, b[2] % 64] + EncodeSextets(b[3..])
  }

  // Go's decoder is not strict: the unused low bits of the last symbol are ignored.
  function DecodeSextets(v: seq<Sextet>): Option<seq<Byte>> {
    if |v| == 0 then Some([])
    else if |v| == 1 then None
    else if |v| == 2 then Some([Join(v[0], 4, v[1] / 16)])
    else if |v| == 3 then Some([Join(v[0], 4, v[1] / 16), Join(v[1] % 16, 16, v[2] / 4)])
    else
      match DecodeSextets(v[4..])
      case None => None
      case Some(rest) =>
        Some([Join(v[0], 4, v[1] / 16), Join(v[1] % 16, 16, v[2] / 4), Join(v[2] % 4, 64, v[3])] + rest)
  }

  function Join(high: nat, width: nat, low: nat): Byte
    requires low < width && (width == 4 || width == 16 || width == 64) && high < 256 / width
  {
    high * width + low
  }

  // A byte cut in two and joined again.
  lemma JoinsBack(x: Byte)
    ensures Join(x / 4, 4, x % 4 * 16 / 16) == x
    ensures Join(x / 16, 16, x % 16 * 4 / 4) == x
    ensures Join(x / 64, 64, x % 64) == x
  {
  }

  // What the symbols between two bytes carry for each of them.
  lemma SharedSymbol(x: Byte, y: Byte)
    ensures (x % 4 * 16 + y / 16) / 16 == x % 4 && (x % 4 * 16 + y / 16) % 16 == y / 16
    ensures (x % 16 * 4 + y / 64) / 4 == x % 16 && (x % 16 * 4 + y / 64) % 4 == y / 64
  {
  }

  lemma {:induction false} SextetsRoundTrip(b: seq<Byte>)
    ensures DecodeSextets(EncodeSextets(b)) == Some(b)
  {
    if |b| >= 3 {
      SextetsRoundTrip(b[3..]);
      FullGroup(b, EncodeSextets(b), EncodeSextets(b[3..]));
    } else if |b| == 2 {
      hide Join;
      JoinsBack(b[0]);
      JoinsBack(b[1]);
      SharedSymbol(b[0], b[1]);
      assert b == [b[0], b[1]];
    } else if |b| == 1 {
      JoinsBack(b[0]);
      assert b == [b[0]];
    }
  }

  lemma FullGroup(b: seq<Byte>, v: seq<Sextet>, rest: seq<Sextet>)
    requires |b| >= 3 && DecodeSextets(rest) == Some(b[3..])
    requires v == [b[0] / 4, b[0] % 4 * 16 + b[1] / 16, b[1] % 16 * 4 + b[2] / 64, b[2] % 64] + rest
    ensures DecodeSextets(v) == Some(b)
  {
    hide Join;
    JoinsBack(b[0]);
    JoinsBack(b[1]);
    JoinsBack(b[2]);
    SharedSymbol(b[0], b[1]);
    SharedSymbol(b[1], b[2]);
    assert v[4..] == rest;
    assert b == [b[0], b[1], b[2]] + b[3..];
  }

  function Symbols(v: seq<Sextet>): string {
    seq(|v|, i requires 0 <= i < |v| => Symbol(v[i]))
  }

  // The decoder skips line breaks and refuses any other character outside the alphabet.
  function Values(s: string): Option<seq<Sextet>> {
    if s == [] then Some([])
    else if s[0] == '\r' || s[0] == '\n' then Values(s[1..])
    else
      match ValueOf(s[0])
      case None => None
      case Some(v) =>
        match Values(s[1..])
        case None => None
        case Some(rest) => Some([v] + rest)
  }

  function Encode(b: seq<Byte>): string {
    Symbols(EncodeSextets(b))
  }

  function Decode(s: string): Option<seq<Byte>> {
    match Values(s)
    case None => None
    case Some(v) => DecodeSextets(v)
  }

  lemma {:induction false} ValuesOfSymbols(v: seq<Sextet>)
    ensures Values(Symbols(v)) == Some(v)
    ensures forall c | c in Symbols(v) :: !IsSpace(c)
  {
    if v != [] {
      ValuesOfSymbols(v[1..]);
      SymbolHasItsValue(v[0]);
      assert Symbols(v) == [Symbol(v[0])] + Symbols(v[1..]);
      assert v == [v[0]] + v[1..];
    }
  }

  // A line break changes nothing wherever it stands, and a text is refused exactly when some other
  // character of it is not in the alphabet.
  lemma {:induction false} LineBreaksAreSkipped(a: string, c: char, b: string)
    requires c == '\r' || c == '\n'
    ensures Values(a + [c] + b) == Values(a + b)
  {
    if a == "" {
      assert a + [c] + b == [c] + b && ([c] + b)[1..] == b && a + b == b;
    } else {
      LineBreaksAreSkipped(a[1..], c, b);
      assert (a + [c] + b)[1..] == a[1..] + [c] + b && (a + b)[1..] == a[1..] + b;
      hide ValueOf;
    }
  }

  lemma {:induction false} RefusedExactlyWhen(s: string)
    ensures Values(s).None? <==> exists c | c in s :: ValueOf(c).None? && c != '\r' && c != '\n'
  {
    if s != "" {
      RefusedExactlyWhen(s[1..]);
      assert s == [s[0]] + s[1..];
      hide ValueOf;
    }
  }

  // Decoding undoes encoding, and an encoded text has no character a trim would take.
  lemma Base64RoundTrip(b: seq<Byte>)
    ensures Decode(Encode(b)) == Some(b)
    ensures TrimSpace(Encode(b)) == Encode(b)
  {
    ValuesOfSymbols(EncodeSextets(b));
    SextetsRoundTrip(b);
    TrimKeepsUnspaced(Encode(b));
  }

  // Three bytes, two and one, as section 5 of RFC 4648 writes them.
  lemma Base64Examples()
    ensures Encode([77, 97, 110]) == "TWFu" && Encode([251, 255]) == "-_8" && Encode([77]) == "TQ" && Encode([]) == ""
  {
    assert [77, 97, 110][3..] == [];
  }

  // ---------------------------------------------------------------- big-endian integers

  function Pow256(k: nat): nat {
    if k == 0 then 1 else 256 * Pow256(k - 1)
  }

  function BigEndian(n: nat, k: nat): (b: seq<Byte>)
    ensures |b| == k
  {
    if k == 0 then [] else BigEndian(n / 256, k - 1) + [n % 256]
  }

  function FromBigEndian(b: seq<Byte>): nat {
    if b == [] then 0 else FromBigEndian(b[..|b| - 1]) * 256 + b[|b| - 1]
  }

  // The most significant byte comes first.
  lemma BigEndianExample()
    ensures BigEndian(0x0102_0304, 4) == [1, 2, 3, 4]
  {
    assert BigEndian(0x0102, 2) == [1, 2];
    assert BigEndian(0x0102_03, 3) == [1, 2] + [3];
  }

  lemma {:induction false} BigEndianRoundTrip(n: nat, k: nat)
    requires n < Pow256(k)
    ensures FromBigEndian(BigEndian(n, k)) == n
  {
    if k > 0 {
      BigEndianRoundTrip(n / 256, k - 1);
      assert BigEndian(n, k)[..k - 1] == BigEndian(n / 256, k - 1);
    }
  }

  const TWO_64: nat := 0x1_0000_0000_0000_0000

  lemma Pow256Is2To64()
    ensures Pow256(8) == TWO_64
  {
    assert Pow256(4) == 0x1_0000_0000;
    assert Pow256(8) == 256 * (256 * (256 * (256 * Pow256(4))));
  }
}

module Cursors {
  import opened Wrappers
  import opened Text
  import opened Bytes

  // Year 1, Go's zero time, in Unix milliseconds.
  const ZERO_TIME_MS: int := -62_135_596_800_000
  const MAX_CURSOR_MS: int := 4_102_444_800_000
  const CURSOR_VERSION: Byte := 1

  type Int64 = x: int | -0x8000_0000_0000_0000 <= x < 0x8000_0000_0000_0000

  // The last row a page returned: its time in milliseconds and its id.
  datatype Cursor = Cursor(eventTime: Int64, id: ByteString)

  const FIRST_PAGE := Cursor(ZERO_TIME_MS, "")

  predicate IsZero(c: Cursor) {
    c.eventTime == ZERO_TIME_MS && c.id == ""
  }

  // A position a token can stand for.
  predicate IsPosition(c: Cursor) {
    c.id != "" && 0 <= c.eventTime <= MAX_CURSOR_MS
  }

  // Go's conversion of a signed to an unsigned 64-bit integer.
  function ToUint64(x: Int64): nat {
    if x < 0 then x + TWO_64 else x
  }

  function EncodeCursor(c: Cursor): string {
    if IsZero(c) then ""
    else Encode([CURSOR_VERSION] + BigEndian(ToUint64(c.eventTime), 8) + ToBytes(c.id))
  }

  function DecodeCursor(token: string): Option<Cursor> {
    var trimmed := TrimSpace(token);
    if trimmed == "" then Some(FIRST_PAGE)
    else
      match Decode(trimmed)
      case None => None
      case Some(payload) =>
        if |payload| < 9 || payload[0] != CURSOR_VERSION then None
        else
          var id := FromBytes(payload[9..]);
          var raw := FromBigEndian(payload[1..9]);
          if id == "" || raw > MAX_CURSOR_MS then None
          else Some(Cursor(raw, id))
  }

  lemma PayloadRoundTrip(c: Cursor)
    requires !IsZero(c)
    ensures EncodeCursor(c) != "" && TrimSpace(EncodeCursor(c)) == EncodeCursor(c)
    ensures var payload := [CURSOR_VERSION] + BigEndian(ToUint64(c.eventTime), 8) + ToBytes(c.id);
      && Decode(EncodeCursor(c)) == Some(payload)
      && FromBytes(payload[9..]) == c.id
      && FromBigEndian(payload[1..9]) == ToUint64(c.eventTime)
  {
    var stamp := BigEndian(ToUint64(c.eventTime), 8);
    var payload := [CURSOR_VERSION] + stamp + ToBytes(c.id);
    Base64RoundTrip(payload);
    Pow256Is2To64();
    BigEndianRoundTrip(ToUint64(c.eventTime), 8);
    BytesRoundTrip(c.id);
    assert payload[1..9] == stamp && payload[9..] == ToBytes(c.id);
    assert |Encode(payload)| == |EncodeSextets(payload)| >= 4;
  }

  // A token leads back to its cursor exactly for the first page and for real positions.
  lemma CursorRoundTrip(c: Cursor)
    ensures DecodeCursor(EncodeCursor(c)) == Some(c) <==> IsZero(c) || IsPosition(c)
    ensures !IsZero(c) && !IsPosition(c) ==> DecodeCursor(EncodeCursor(c)) == None
  {
    if IsZero(c) {
      assert TrimSpace("") == "";
    } else {
      PayloadRoundTrip(c);
      hide Decode, FromBigEndian, BigEndian, TrimSpace, FromBytes, ToBytes, Encode;
    }
  }

  // Whatever text a client sends, a token that is accepted names the first page or a position.
  lemma AcceptedTokensArePositions(token: string)
    requires DecodeCursor(token).Some?
    ensures IsZero(DecodeCursor(token).value) || IsPosition(DecodeCursor(token).value)
  {
    hide Decode, FromBigEndian, TrimSpace, FromBytes;
  }

  // A position has an id and a time from 1970 to the start of 2100; the first page is year one without
  // an id.
  lemma PositionsAre(c: Cursor)
    ensures IsPosition(c) <==> c.id != "" && 0 <= c.eventTime <= 4_102_444_800_000
    ensures IsZero(c) <==> c.eventTime == -62_135_596_800_000 && c.id == ""
  {
  }

  // What a token holds: a version byte, the time in eight bytes, the id.
  lemma TokenHolds(c: Cursor)
    requires IsPosition(c)
    ensures Decode(EncodeCursor(c)) == Some([1] + BigEndian(c.eventTime, 8) + ToBytes(c.id))
  {
    PayloadRoundTrip(c);
    hide Decode, BigEndian, ToBytes, EncodeCursor;
  }

  // Distinct positions have distinct, non-empty tokens.
  lemma TokensAreDistinct(c: Cursor, d: Cursor)
    requires IsPosition(c) && IsPosition(d) && EncodeCursor(c) == EncodeCursor(d)
    ensures c == d && EncodeCursor(c) != ""
  {
    CursorRoundTrip(c);
    CursorRoundTrip(d);
    PayloadRoundTrip(c);
  }

  // ---------------------------------------------------------------- the order pages walk

  // After: strictly later in (time descending, id descending) order.
  predicate After(c: Cursor, at: Int64, id: string) {
    if at < c.eventTime then true
    else if at == c.eventTime then Less(id, c.id)
    else false
  }

  // The tuple comparison (sort, tiebreak) < (?, ?) of the keyset predicate.
  predicate TupleLess(at: int, id: string, at': int, id': string) {
    at < at' || (at == at' && Less(id, id'))
  }

  // After is the comparison the database makes, and it is a strict total order.
  lemma AfterIsTheTupleComparison(c: Cursor, d: Cursor, e: Cursor)
    ensures After(c, d.eventTime, d.id) <==> TupleLess(d.eventTime, d.id, c.eventTime, c.id)
    ensures !After(c, c.eventTime, c.id)
    ensures After(c, d.eventTime, d.id) && After(d, e.eventTime, e.id) ==> After(c, e.eventTime, e.id)
    ensures c != d ==> After(c, d.eventTime, d.id) != After(d, c.eventTime, c.id)
  {
    LessIrreflexive(c.id);
    LessTotal(c.id, d.id);
    if Less(d.id, c.id) && Less(e.id, d.id) {
      LessTransitive(e.id, d.id, c.id);
    }
    if Less(c.id, d.id) {
      LessAsymmetric(c.id, d.id);
    }
  }
}
