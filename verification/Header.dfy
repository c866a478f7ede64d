/** The fixed-width message header and the framing built on it (common/Header.cpp:106-146,
common/IOUtility.cpp:44-64). */
module Header {
  import opened Options
  import opened Decimal

  datatype HeaderType = NoHeaderType | Authenticate | DhHandshake | Heartbeat | Session | HeaderError

  datatype Compressor = NoCompressor | LZ4 | Snappy | Zstd

  datatype Diagnostics = NoDiagnostics | DiagnosticsEnabled

  datatype Status =
    | NoStatus | SubtaskDone | TaskDone | BadHeaderStatus | CompressionProblem | EncryptionProblem
    | DecryptionProblem | DecompressionProblem | FifoProblem | TcpProblem | TcpTimeout | HeartbeatProblem
    | HeartbeatTimeout | MaxTotalObjects | MaxObjectsOfType | SessionStopped | Stopped | StatusError

  function HeaderTypeCode(x: HeaderType): char {
    match x
    case NoHeaderType => 'A'
    case Authenticate => 'B'
    case DhHandshake => 'C'
    case Heartbeat => 'D'
    case Session => 'E'
    case HeaderError => 'F'
  }

  function CompressorCode(x: Compressor): char {
    match x
    case NoCompressor => 'A'
    case LZ4 => 'B'
    case Snappy => 'C'
    case Zstd => 'D'
  }

  function DiagnosticsCode(x: Diagnostics): char {
    match x
    case NoDiagnostics => 'A'
    case DiagnosticsEnabled => 'B'
  }

  function StatusCode(x: Status): char {
    match x
    case NoStatus => 'A'
    case SubtaskDone => 'B'
    case TaskDone => 'C'
    case BadHeaderStatus => 'D'
    case CompressionProblem => 'E'
    case EncryptionProblem => 'F'
    case DecryptionProblem => 'G'
    case DecompressionProblem => 'H'
    case FifoProblem => 'I'
    case TcpProblem => 'J'
    case TcpTimeout => 'K'
    case HeartbeatProblem => 'L'
    case HeartbeatTimeout => 'M'
    case MaxTotalObjects => 'N'
    case MaxObjectsOfType => 'O'
    case SessionStopped => 'P'
    case Stopped => 'Q'
    case StatusError => 'R'
  }

  /** `HEADER`. The four enumerations are kept as their character codes: a variable of such a type may
  hold one of the two invalid values, or what a cast left in it. */
  datatype Header = Header(
    headerType: char,
    field1: nat,
    field2: nat,
    compressor: char,
    diagnostics: char,
    status: char,
    field3: nat,
    field4: nat
  )

  const INVALID_LOW := '@'
  const HEADERTYPE_HIGH := 'G'
  const COMPRESSORS_HIGH := 'E'
  const DIAGNOSTICS_HIGH := 'C'
  const STATUS_HIGH := 'S'
  const HEADER_SIZE: nat := 44
  const FIELD_LIMIT: nat := 10_000_000_000

  /** Between the two invalid codes of an enumeration. */
  predicate IsEnumerated(code: char, high: char) {
    INVALID_LOW < code < high
  }

  ghost predicate IsHeaderType(code: char) {
    exists x :: code == HeaderTypeCode(x)
  }

  ghost predicate IsCompressor(code: char) {
    exists x :: code == CompressorCode(x)
  }

  ghost predicate IsDiagnostics(code: char) {
    exists x :: code == DiagnosticsCode(x)
  }

  ghost predicate IsStatus(code: char) {
    exists x :: code == StatusCode(x)
  }

  /** The four codes are those of enumerators. */
  ghost predicate ValidCodes(h: Header) {
    IsHeaderType(h.headerType) && IsCompressor(h.compressor) && IsDiagnostics(h.diagnostics) && IsStatus(h.status)
  }

  /** What passes `deserializeEnumeration` is the code of an enumerator, and all of them pass: there are
  no gaps in the values. */
  lemma EnumeratedIff(code: char)
    ensures IsEnumerated(code, HEADERTYPE_HIGH) <==> IsHeaderType(code)
    ensures IsEnumerated(code, COMPRESSORS_HIGH) <==> IsCompressor(code)
    ensures IsEnumerated(code, DIAGNOSTICS_HIGH) <==> IsDiagnostics(code)
    ensures IsEnumerated(code, STATUS_HIGH) <==> IsStatus(code)
  {
    HeaderTypes(code);
    Compressors(code);
    BothDiagnostics(code);
    Statuses(code);
  }

  lemma HeaderTypes(code: char)
    ensures IsEnumerated(code, HEADERTYPE_HIGH) ==> IsHeaderType(code)
  {
    if IsEnumerated(code, HEADERTYPE_HIGH) {
      var all := [NoHeaderType, Authenticate, DhHandshake, Heartbeat, Session, HeaderError];
      assert code == HeaderTypeCode(all[(code - 'A') as int]);
    }
  }

  lemma Compressors(code: char)
    ensures IsEnumerated(code, COMPRESSORS_HIGH) ==> IsCompressor(code)
  {
    if IsEnumerated(code, COMPRESSORS_HIGH) {
      var all := [NoCompressor, LZ4, Snappy, Zstd];
      assert code == CompressorCode(all[(code - 'A') as int]);
    }
  }

  lemma BothDiagnostics(code: char)
    ensures IsEnumerated(code, DIAGNOSTICS_HIGH) ==> IsDiagnostics(code)
  {
    if IsEnumerated(code, DIAGNOSTICS_HIGH) {
      var all := [NoDiagnostics, DiagnosticsEnabled];
      assert code == DiagnosticsCode(all[(code - 'A') as int]);
    }
  }

  lemma Statuses(code: char)
    ensures IsEnumerated(code, STATUS_HIGH) ==> IsStatus(code)
  {
    if IsEnumerated(code, STATUS_HIGH) {
      var all := [NoStatus, SubtaskDone, TaskDone, BadHeaderStatus, CompressionProblem, EncryptionProblem,
                  DecryptionProblem, DecompressionProblem, FifoProblem, TcpProblem, TcpTimeout, HeartbeatProblem,
                  HeartbeatTimeout, MaxTotalObjects, MaxObjectsOfType, SessionStopped, Stopped, StatusError];
      assert code == StatusCode(all[(code - 'A') as int]);
    }
  }

  /** A header with enumerators in it. */
  function HeaderOf(headerType: HeaderType, field1: nat, field2: nat, compressor: Compressor, diagnostics: Diagnostics,
                    status: Status, field3: nat, field4: nat): Header {
    Header(HeaderTypeCode(headerType), field1, field2, CompressorCode(compressor), DiagnosticsCode(diagnostics),
           StatusCode(status), field3, field4)
  }

  /** Different enumerators have different codes. */
  lemma HeaderOfInjective(t1: HeaderType, c1: Compressor, d1: Diagnostics, s1: Status, a: nat, b: nat, c: nat, d: nat,
                          t2: HeaderType, c2: Compressor, d2: Diagnostics, s2: Status)
    ensures HeaderOf(t1, a, b, c1, d1, s1, c, d) == HeaderOf(t2, a, b, c2, d2, s2, c, d)
            <==> t1 == t2 && c1 == c2 && d1 == d2 && s1 == s2
  {
    StatusCodesDiffer(s1, s2);
    hide StatusCode;
  }

  lemma StatusCodesDiffer(x: Status, y: Status)
    ensures StatusCode(x) == StatusCode(y) <==> x == y
  {
  }

  /** Sizes that ten digits can hold. */
  predicate ValidSizes(h: Header) {
    h.field1 < FIELD_LIMIT && h.field2 < FIELD_LIMIT && h.field3 < FIELD_LIMIT && h.field4 < FIELD_LIMIT
  }

  ghost function Serialized(h: Header): (s: string)
    ensures |s| == HEADER_SIZE
  {
    [h.headerType] + ToCharsBoost(h.field1, true) + ToCharsBoost(h.field2, true)
    + [h.compressor] + [h.diagnostics] + [h.status]
    + ToCharsBoost(h.field3, true) + ToCharsBoost(h.field4, true)
  }

  datatype Parsed = Ok(header: Header) | BadHeader | ConversionFailed

  /** `deserialize`. The fourth size is parsed from the bytes of the third. */
  method Deserialize(buffer: string) returns (r: Parsed)
    requires |buffer| >= HEADER_SIZE
    ensures r == Deserialized(buffer)
    ensures r.Ok? <==>
      && IsHeaderType(buffer[0]) && IsCompressor(buffer[21]) && IsDiagnostics(buffer[22]) && IsStatus(buffer[23])
      && FromChars(buffer[1..11]).Some? && FromChars(buffer[11..21]).Some? && FromChars(buffer[24..34]).Some?
  {
    hide IsHeaderType, IsCompressor, IsDiagnostics, IsStatus, FromChars;
    EnumeratedIff(buffer[0]);
    EnumeratedIff(buffer[21]);
    EnumeratedIff(buffer[22]);
    EnumeratedIff(buffer[23]);
    hide IsEnumerated;
    if !IsEnumerated(buffer[0], HEADERTYPE_HIGH) {
      return BadHeader;
    }
    var offset := 1;
    var field1 := FromChars(buffer[offset..offset + 10]);
    if field1.None? {
      return ConversionFailed;
    }
    offset := offset + 10;
    var field2 := FromChars(buffer[offset..offset + 10]);
    if field2.None? {
      return ConversionFailed;
    }
    offset := offset + 10;
    if !IsEnumerated(buffer[offset], COMPRESSORS_HIGH) {
      return BadHeader;
    }
    var compressor := buffer[offset];
    offset := offset + 1;
    if !IsEnumerated(buffer[offset], DIAGNOSTICS_HIGH) {
      return BadHeader;
    }
    var diagnostics := buffer[offset];
    offset := offset + 1;
    if !IsEnumerated(buffer[offset], STATUS_HIGH) {
      return BadHeader;
    }
    var status := buffer[offset];
    offset := offset + 1;
    var third := buffer[offset..offset + 10];
    var field3 := FromChars(third);
    if field3.None? {
      return ConversionFailed;
    }
    var field4 := FromChars(third);
    if field4.None? {
      return ConversionFailed;
    }
    return Ok(Header(buffer[0], field1.value, field2.value, compressor, diagnostics, status, field3.value, field4.value));
  }

  ghost function Deserialized(buffer: string): Parsed
    requires |buffer| >= HEADER_SIZE
  {
    var field1, field2, field3 := FromChars(buffer[1..11]), FromChars(buffer[11..21]), FromChars(buffer[24..34]);
    if !IsEnumerated(buffer[0], HEADERTYPE_HIGH) then BadHeader
    else if field1.None? || field2.None? then ConversionFailed
    else if !IsEnumerated(buffer[21], COMPRESSORS_HIGH) || !IsEnumerated(buffer[22], DIAGNOSTICS_HIGH)
            || !IsEnumerated(buffer[23], STATUS_HIGH) then BadHeader
    else if field3.None? then ConversionFailed
    else
      Ok(Header(buffer[0], field1.value, field2.value, buffer[21], buffer[22], buffer[23], field3.value, field3.value))
  }

  lemma Slices(h: Header, rest: string)
    ensures var s := Serialized(h) + rest;
      s[0] == h.headerType && s[1..11] == ToCharsBoost(h.field1, true) && s[11..21] == ToCharsBoost(h.field2, true)
      && s[21] == h.compressor && s[22] == h.diagnostics && s[23] == h.status
      && s[24..34] == ToCharsBoost(h.field3, true)
  {
    hide ToCharsBoost;
  }

  /** What a serialized header parses to. */
  lemma Reparsed(h: Header, rest: string)
    requires ValidSizes(h)
    ensures Deserialized(Serialized(h) + rest) == if ValidCodes(h) then Ok(h.(field4 := h.field3)) else BadHeader
  {
    hide ToCharsBoost, FromChars, IsEnumerated, IsHeaderType, IsCompressor, IsDiagnostics, IsStatus;
    EnumeratedIff(h.headerType);
    EnumeratedIff(h.compressor);
    EnumeratedIff(h.diagnostics);
    EnumeratedIff(h.status);
    Slices(h, rest);
    FixedRoundTrip(h.field1);
    FixedRoundTrip(h.field2);
    FixedRoundTrip(h.field3);
  }

  /** `serialize`: the bytes parse back to the header, but for the fourth size, whatever follows
  them; a header with an invalid code is rejected. */
  method Serialize(h: Header) returns (s: string)
    ensures |s| == HEADER_SIZE && s == Serialized(h)
    ensures ValidSizes(h) ==> forall rest :: Deserialized(s + rest)
                                             == if ValidCodes(h) then Ok(h.(field4 := h.field3)) else BadHeader
  {
    s := [h.headerType];
    s := s + ToCharsBoost(h.field1, true);
    s := s + ToCharsBoost(h.field2, true);
    s := s + [h.compressor];
    s := s + [h.diagnostics];
    s := s + [h.status];
    s := s + ToCharsBoost(h.field3, true);
    s := s + ToCharsBoost(h.field4, true);
    hide *;
    if ValidSizes(h) {
      forall rest ensures Deserialized(s + rest) == if ValidCodes(h) then Ok(h.(field4 := h.field3)) else BadHeader {
        Reparsed(h, rest);
      }
    }
  }

  /** What comes back of a header: everything but the fourth size, which comes back as the third. */
  lemma HeaderRoundTrip(h: Header, rest: string)
    requires ValidCodes(h) && ValidSizes(h)
    ensures Deserialized(Serialized(h) + rest) == Ok(h.(field4 := h.field3))
  {
    hide *;
    Reparsed(h, rest);
  }

  /** Every combination of enumerators comes back. */
  lemma EnumeratorsComeBack(headerType: HeaderType, compressor: Compressor, diagnostics: Diagnostics, status: Status,
                            field1: nat, field2: nat, field3: nat, field4: nat, rest: string)
    requires ValidSizes(HeaderOf(headerType, field1, field2, compressor, diagnostics, status, field3, field4))
    ensures Deserialized(Serialized(HeaderOf(headerType, field1, field2, compressor, diagnostics, status, field3, field4)) + rest)
            == Ok(HeaderOf(headerType, field1, field2, compressor, diagnostics, status, field3, field3))
  {
    hide Deserialized, Serialized;
    HeaderRoundTrip(HeaderOf(headerType, field1, field2, compressor, diagnostics, status, field3, field4), rest);
  }

  /** A header parses back to itself if and only if its third and fourth sizes are equal. */
  lemma HeaderRoundTripIff(h: Header, rest: string)
    requires ValidCodes(h) && ValidSizes(h)
    ensures Deserialized(Serialized(h) + rest) == Ok(h) <==> h.field3 == h.field4
  {
    HeaderRoundTrip(h, rest);
  }

  /** A header is accepted if and only if its four codes are valid. */
  lemma AcceptedIff(h: Header, rest: string)
    requires ValidSizes(h)
    ensures Deserialized(Serialized(h) + rest).Ok? <==> ValidCodes(h)
  {
    hide *;
    Reparsed(h, rest);
  }

  // ------------------------------------------------------------------------------ framing

  /** `std::string_view::substr`: up to n bytes. */
  function Substr(s: string, from: nat, n: nat): string
    requires from <= |s|
  {
    if from + n <= |s| then s[from..from + n] else s[from..]
  }

  datatype Unframed = Unframed(header: Header, fields: seq<string>) | Rejected | Exception

  function SizeOf(h: Header, i: nat): nat {
    if i == 0 then h.field1 else if i == 1 then h.field2 else if i == 2 then h.field3 else h.field4
  }

  /** `processMessage`, into strings that may hold something already. */
  method ProcessMessage(message: string, outputs: seq<string>) returns (r: Unframed)
    requires |outputs| <= 4
    ensures r == Processed(message, outputs)
  {
    hide Deserialized, FromChars;
    if |message| < HEADER_SIZE {
      return Rejected;
    }
    var parsed := Deserialize(message);
    match parsed {
      case BadHeader => return Rejected;
      case ConversionFailed => return Exception;
      case Ok(header) =>
        var payload := message[HEADER_SIZE..];
        var fields := outputs;
        var shift: nat := 0;
        for i := 0 to |outputs|
          invariant |fields| == |outputs|
          invariant Distribute(header, payload, outputs, 0, 0) == Distribute(header, payload, fields, shift, i)
        {
          if SizeOf(header, i) > 0 {
            if shift > |payload| {
              return Exception;
            }
            fields := fields[i := Substr(payload, shift, SizeOf(header, i))];
            shift := shift + SizeOf(header, i);
          }
        }
        return Unframed(header, fields);
    }
  }

  /** The fields from number i on, cut from the payload at `shift`; nothing is done for size 0. */
  ghost function Distribute(h: Header, payload: string, fields: seq<string>, shift: nat, i: nat): Option<seq<string>>
    requires i <= |fields| <= 4
    decreases |fields| - i
  {
    if i == |fields| then Some(fields)
    else if SizeOf(h, i) == 0 then Distribute(h, payload, fields, shift, i + 1)
    else if shift > |payload| then None
    else
      Distribute(h, payload, fields[i := Substr(payload, shift, SizeOf(h, i))], shift + SizeOf(h, i), i + 1)
  }

  ghost function Processed(message: string, outputs: seq<string>): Unframed
    requires |outputs| <= 4
  {
    if |message| < HEADER_SIZE then Rejected
    else
      match Deserialized(message)
      case BadHeader => Rejected
      case ConversionFailed => Exception
      case Ok(header) =>
        match Distribute(header, message[HEADER_SIZE..], outputs, 0, 0)
        case None => Exception
        case Some(fields) => Unframed(header, fields)
  }

  /** The payloads a header announces. */
  ghost predicate Announces(h: Header, p1: string, p2: string, p3: string, p4: string) {
    h.field1 == |p1| && h.field2 == |p2| && h.field3 == |p3| && h.field4 == |p4|
  }

  /** Up to three payloads come back, each in its own fresh string. */
  lemma ThreePayloads(h: Header, p1: string, p2: string, p3: string, n: nat)
    requires ValidCodes(h) && ValidSizes(h) && Announces(h, p1, p2, p3, "") && n <= 3
    ensures Processed(Serialized(h) + (p1 + p2 + p3), seq(n, _ => ""))
            == Unframed(h.(field4 := h.field3), [p1, p2, p3][..n])
  {
    hide Serialized, Deserialized, ToCharsBoost, FromChars;
    var rest := p1 + p2 + p3;
    var message := Serialized(h) + rest;
    HeaderRoundTrip(h, rest);
    assert message[HEADER_SIZE..] == rest;
    ThreeFields(h.(field4 := h.field3), p1, p2, p3, "", n);
    assert p1 + p2 + p3 + "" == rest;
  }

  lemma FieldOne(h: Header, payload: string, fields: seq<string>, shift: nat, i: nat, p: string)
    requires i < |fields| <= 4 && fields[i] == "" && SizeOf(h, i) == |p|
    requires shift + |p| <= |payload| && payload[shift..shift + |p|] == p
    ensures Distribute(h, payload, fields, shift, i) == Distribute(h, payload, fields[i := p], shift + |p|, i + 1)
  {
    if |p| == 0 {
      assert fields[i := p] == fields;
    }
  }

  lemma ThreeFields(h: Header, p1: string, p2: string, p3: string, p4: string, n: nat)
    requires h.field1 == |p1| && h.field2 == |p2| && h.field3 == |p3| && n <= 3
    ensures Distribute(h, p1 + p2 + p3 + p4, seq(n, _ => ""), 0, 0) == Some([p1, p2, p3][..n])
  {
    hide Distribute;
    var payload := p1 + p2 + p3 + p4;
    var e := seq(n, _ => "");
    if n > 0 {
      FieldOne(h, payload, e, 0, 0, p1);
      if n > 1 {
        FieldOne(h, payload, e[0 := p1], |p1|, 1, p2);
        if n > 2 {
          FieldOne(h, payload, e[0 := p1][1 := p2], |p1| + |p2|, 2, p3);
        }
      }
    }
    var all := if n == 0 then e else if n == 1 then e[0 := p1] else if n == 2 then e[0 := p1][1 := p2]
               else e[0 := p1][1 := p2][2 := p3];
    assert all == [p1, p2, p3][..n];
    AllDistributed(h, payload, all, |p1| + |p2| + |p3|);
    AllDistributed(h, payload, all, |p1| + |p2|);
    AllDistributed(h, payload, all, |p1|);
    AllDistributed(h, payload, all, 0);
  }

  lemma AllDistributed(h: Header, payload: string, fields: seq<string>, shift: nat)
    requires |fields| <= 4
    ensures Distribute(h, payload, fields, shift, |fields|) == Some(fields)
  {
  }

  /** Four payloads come back if and only if the third is at least as long as the fourth. */
  lemma FourPayloadsIff(h: Header, p1: string, p2: string, p3: string, p4: string)
    requires ValidCodes(h) && ValidSizes(h) && Announces(h, p1, p2, p3, p4)
    ensures Processed(Serialized(h) + (p1 + p2 + p3 + p4), ["", "", "", ""])
            == Unframed(h.(field4 := h.field3), [p1, p2, p3, p4])
            <==> |p3| >= |p4|
  {
    hide Serialized, Deserialized, ToCharsBoost, FromChars, Distribute;
    var rest := p1 + p2 + p3 + p4;
    var message := Serialized(h) + rest;
    var g := h.(field4 := h.field3);
    HeaderRoundTrip(h, rest);
    assert message[HEADER_SIZE..] == rest;
    var e := ["", "", "", ""];
    FieldOne(g, rest, e, 0, 0, p1);
    FieldOne(g, rest, e[0 := p1], |p1|, 1, p2);
    FieldOne(g, rest, e[0 := p1][1 := p2], |p1| + |p2|, 2, p3);
    var before := [p1, p2, p3, ""];
    assert e[0 := p1][1 := p2][2 := p3] == before;
    FourthField(g, rest, before, |p1| + |p2| + |p3|, p4);
    var cut := if |p3| >= |p4| then p4 else p4[..|p3|];
    assert before[3 := cut] == [p1, p2, p3, cut];
    assert [p1, p2, p3, cut][3] == cut && [p1, p2, p3, p4][3] == p4;
    assert |p3| < |p4| ==> |cut| < |p4|;
  }

  /** The fourth string gets as many bytes as the third payload has, if there are as many. */
  lemma FourthField(h: Header, payload: string, before: seq<string>, shift: nat, p4: string)
    requires |before| == 4 && before[3] == "" && shift + |p4| == |payload| && payload[shift..] == p4
    ensures var cut := if h.field4 >= |p4| then p4 else p4[..h.field4];
      Distribute(h, payload, before, shift, 3) == Some(before[3 := cut])
  {
    var cut := if h.field4 >= |p4| then p4 else p4[..h.field4];
    if h.field4 == 0 {
      assert before[3 := cut] == before;
    } else {
      assert Substr(payload, shift, h.field4) == cut;
      AllDistributed(h, payload, before[3 := cut], shift + h.field4);
    }
  }
}
