/** The body of a PostgreSQL ErrorResponse or NoticeResponse message: a run of
    (tag byte, NUL-terminated string) fields closed by a zero tag byte, as
    described in "Error and Notice Message Fields" of the PostgreSQL
    Frontend/Backend Protocol. */
module PgResponse {
  import opened Wrappers

  /** A byte of the wire format, written as the character with the same code so
      that ASCII literals read as they do in `b"..."`. */
  type Byte = char
  type Bytes = seq<Byte>

  const NUL: Byte := '\0'

  datatype Severity = Panic | Fatal | Error | Warning | Notice | Debug | Info | Log

  /** The protocol errors the decoder reports. */
  datatype ProtocolError =
    | Truncated                       // the buffer ended before a tag byte or a string's NUL
    | MissingField(name: string)      // a mandatory field never appeared
    | UnexpectedSeverity(text: Bytes) // the severity text is none of the eight known spellings

  // ---------------------------------------------------------------------------
  // Severity

  /** `Severity::is_error`. */
  predicate IsError(s: Severity)
  {
    match s
    case Panic | Fatal | Error => true
    case _ => false
  }

  /** The server's ordering of message levels, least severe first (PostgreSQL's
      elevels: DEBUG < LOG < INFO < NOTICE < WARNING < ERROR < FATAL < PANIC). */
  function Level(s: Severity): nat
  {
    match s
    case Debug => 0
    case Log => 1
    case Info => 2
    case Notice => 3
    case Warning => 4
    case Error => 5
    case Fatal => 6
    case Panic => 7
  }

  /** A message is an error exactly when its level is ERROR or above. */
  lemma IsErrorIffAtLeastError(s: Severity)
    ensures IsError(s) <==> Level(s) >= Level(Error)
  {
  }

  /** The upper-case spelling the server sends for each severity. */
  function SeverityText(s: Severity): Bytes
  {
    match s
    case Panic => "PANIC"
    case Fatal => "FATAL"
    case Error => "ERROR"
    case Warning => "WARNING"
    case Notice => "NOTICE"
    case Debug => "DEBUG"
    case Info => "INFO"
    case Log => "LOG"
  }

  /** `Severity::from_str`: succeeds exactly on the eight spellings. */
  function ParseSeverity(text: Bytes): (r: Result<Severity, ProtocolError>)
    ensures r.Ok? ==> SeverityText(r.value) == text
    ensures r.Err? ==> r.error == UnexpectedSeverity(text)
  {
    if text == "PANIC" then Ok(Panic)
    else if text == "FATAL" then Ok(Fatal)
    else if text == "ERROR" then Ok(Error)
    else if text == "WARNING" then Ok(Warning)
    else if text == "NOTICE" then Ok(Notice)
    else if text == "DEBUG" then Ok(Debug)
    else if text == "INFO" then Ok(Info)
    else if text == "LOG" then Ok(Log)
    else Err(UnexpectedSeverity(text))
  }

  /** Each spelling parses back to its own severity. */
  lemma ParseSeverityText(s: Severity)
    ensures ParseSeverity(SeverityText(s)) == Ok(s)
  {
  }

  lemma ParseSeverityFailsIff(text: Bytes)
    ensures ParseSeverity(text).Err? <==> forall s: Severity :: SeverityText(s) != text
  {
    if ParseSeverity(text).Err? {
      forall s: Severity ensures SeverityText(s) != text {
        ParseSeverityText(s);
      }
    }
  }

  // ---------------------------------------------------------------------------
  // Reading from the buffer (`Buf::get_u8`, `Buf::get_str_nul`)

  /** Takes one byte off the front; fails on an empty buffer. */
  function GetU8(buf: Bytes): (r: Result<(Byte, Bytes), ProtocolError>)
    ensures r.Ok? <==> |buf| > 0
    ensures r.Ok? ==> buf == [r.value.0] + r.value.1
    ensures r.Err? ==> r.error == Truncated
  {
    if |buf| == 0 then Err(Truncated) else Ok((buf[0], buf[1..]))
  }

  /** The position of the first NUL, or `|buf|` when there is none. */
  function NulIndex(buf: Bytes): (i: nat)
    ensures i <= |buf|
    ensures forall j :: 0 <= j < i ==> buf[j] != NUL
    ensures i < |buf| ==> buf[i] == NUL
  {
    if |buf| == 0 || buf[0] == NUL then 0 else 1 + NulIndex(buf[1..])
  }

  /** Takes a NUL-terminated string off the front, dropping the NUL; fails when
      the buffer holds no NUL. */
  function GetStrNul(buf: Bytes): (r: Result<(Bytes, Bytes), ProtocolError>)
    ensures r.Ok? <==> NUL in buf
    ensures r.Ok? ==> buf == r.value.0 + [NUL] + r.value.1 && NUL !in r.value.0
    ensures r.Err? ==> r.error == Truncated
  {
    var i := NulIndex(buf);
    if i < |buf| then
      assert buf == buf[..i] + [NUL] + buf[i + 1..];
      Ok((buf[..i], buf[i + 1..]))
    else
      Err(Truncated)
  }

  /** A string followed by its NUL is taken off whole, whatever follows. */
  lemma GetStrNulSplit(value: Bytes, tail: Bytes)
    requires NUL !in value
    ensures GetStrNul(value + [NUL] + tail) == Ok((value, tail))
  {
    var buf := value + [NUL] + tail;
    var i := NulIndex(buf);
    assert buf[|value|] == NUL;
    assert i == |value|;
    assert buf[..i] == value;
    assert buf[i + 1..] == tail;
  }

  // ---------------------------------------------------------------------------
  // The field layer: what is on the wire

  datatype RawField = RawField(tag: Byte, value: Bytes)

  /** A field that can be written: its tag is not the terminator and its text
      holds no NUL. */
  predicate Encodable(f: RawField)
  {
    f.tag != NUL && NUL !in f.value
  }

  predicate AllEncodable(fs: seq<RawField>)
  {
    forall i :: 0 <= i < |fs| ==> Encodable(fs[i])
  }

  function EncodeField(f: RawField): Bytes
  {
    [f.tag] + f.value + [NUL]
  }

  /** The fields on the wire, without the terminating zero tag. */
  function EncodeFields(fs: seq<RawField>): Bytes
  {
    if fs == [] then [] else EncodeField(fs[0]) + EncodeFields(fs[1..])
  }

  /** A whole message body: the fields, then the zero tag. */
  function Encode(fs: seq<RawField>): Bytes
  {
    EncodeFields(fs) + [NUL]
  }

  lemma {:induction false} EncodeFieldsAppend(fs: seq<RawField>, f: RawField)
    ensures EncodeFields(fs + [f]) == EncodeFields(fs) + EncodeField(f)
  {
    if fs != [] {
      assert (fs + [f])[1..] == fs[1..] + [f];
      EncodeFieldsAppend(fs[1..], f);
    }
  }

  lemma EncodeCons(f: RawField, fs: seq<RawField>)
    requires Encodable(f) && AllEncodable(fs)
    ensures Encode([f] + fs) == EncodeField(f) + Encode(fs)
    ensures EncodeFields([f] + fs) == EncodeField(f) + EncodeFields(fs)
    ensures AllEncodable([f] + fs)
  {
    assert ([f] + fs)[1..] == fs;
    forall i | 0 <= i < |[f] + fs| ensures Encodable(([f] + fs)[i]) {
      if i > 0 { assert ([f] + fs)[i] == fs[i - 1]; }
    }
  }

  lemma PrefixExtend(head: Bytes, a: Bytes, b: Bytes)
    requires a <= b
    ensures head + a <= head + b
  {
    assert (head + b)[..|head + a|] == head + b[..|a|];
  }

  /** The loop of `Response::read` seen as a whole: the fields before the zero
      tag, in order, or `Truncated` when the bytes run out first. Bytes after the
      zero tag are never looked at. */
  function Scan(buf: Bytes): (r: Result<seq<RawField>, ProtocolError>)
    ensures r.Ok? ==> AllEncodable(r.value) && Encode(r.value) <= buf
    ensures r.Err? ==> r.error == Truncated
    decreases |buf|
  {
    match GetU8(buf)
    case Err(e) => Err(e)
    case Ok((tag, afterTag)) =>
      if tag == NUL then Ok([])
      else
        match GetStrNul(afterTag)
        case Err(e) => Err(e)
        case Ok((value, rest)) =>
          match Scan(rest)
          case Err(e) => Err(e)
          case Ok(fs) =>
            ScanCons(buf, RawField(tag, value), afterTag, rest, fs);
            Ok([RawField(tag, value)] + fs)
  }

  /** A field read off the front of `buf`, in front of a body that starts
      `rest`, makes a body that starts `buf`. */
  lemma ScanCons(buf: Bytes, f: RawField, afterTag: Bytes, rest: Bytes, fs: seq<RawField>)
    requires buf == [f.tag] + afterTag && f.tag != NUL
    requires afterTag == f.value + [NUL] + rest && NUL !in f.value
    requires AllEncodable(fs) && Encode(fs) <= rest
    ensures AllEncodable([f] + fs) && Encode([f] + fs) <= buf
  {
    EncodeCons(f, fs);
    assert buf == EncodeField(f) + rest;
    PrefixExtend(EncodeField(f), Encode(fs), rest);
  }

  /** `fs` in front of a scan's fields; a failure stays a failure. */
  function Prepend(fs: seq<RawField>, r: Result<seq<RawField>, ProtocolError>): Result<seq<RawField>, ProtocolError>
  {
    match r
    case Err(e) => Err(e)
    case Ok(gs) => Ok(fs + gs)
  }

  lemma PrependTwice(a: seq<RawField>, b: seq<RawField>, r: Result<seq<RawField>, ProtocolError>)
    ensures Prepend(a, Prepend(b, r)) == Prepend(a + b, r)
  {
    if r.Ok? {
      assert a + (b + r.value) == (a + b) + r.value;
    }
  }

  /** One field, then whatever the rest scans to. */
  lemma ScanStep(f: RawField, after: Bytes)
    requires Encodable(f)
    ensures Scan(EncodeField(f) + after) == Prepend([f], Scan(after))
  {
    var buf := EncodeField(f) + after;
    assert buf == [f.tag] + (f.value + [NUL] + after);
    assert GetU8(buf) == Ok((f.tag, f.value + [NUL] + after));
    GetStrNulSplit(f.value, after);
  }

  /** Scanning past fields already read leaves those fields in front of what
      the remaining bytes scan to. */
  lemma {:induction false} ScanAfter(seen: seq<RawField>, rest: Bytes)
    requires AllEncodable(seen)
    ensures Scan(EncodeFields(seen) + rest) == Prepend(seen, Scan(rest))
  {
    var buf := EncodeFields(seen) + rest;
    if seen == [] {
      assert buf == rest;
      if Scan(rest).Ok? {
        assert [] + Scan(rest).value == Scan(rest).value;
      }
    } else {
      var f, tail := seen[0], seen[1..];
      assert seen == [f] + tail;
      assert AllEncodable(tail) by {
        forall i | 0 <= i < |tail| ensures Encodable(tail[i]) { assert tail[i] == seen[i + 1]; }
      }
      EncodeCons(f, tail);
      var after := EncodeFields(tail) + rest;
      assert buf == EncodeField(f) + after;
      ScanStep(f, after);
      ScanAfter(tail, rest);
      var r := Scan(rest);
      assert Scan(buf) == Prepend([f], Prepend(tail, r));
      PrependTwice([f], tail, r);
    }
  }

  /** Round trip: writing fields and reading them back gives the same fields,
      whatever trails the terminator. */
  lemma ScanEncode(fs: seq<RawField>, trailing: Bytes)
    requires AllEncodable(fs)
    ensures Scan(Encode(fs) + trailing) == Ok(fs)
  {
    assert Encode(fs) + trailing == EncodeFields(fs) + ([NUL] + trailing);
    ScanAfter(fs, [NUL] + trailing);
    assert fs + [] == fs;
  }

  /** Scanning succeeds exactly when the buffer begins with a well-formed body. */
  lemma ScanOkIff(buf: Bytes)
    ensures Scan(buf).Ok? <==> exists fs :: AllEncodable(fs) && Encode(fs) <= buf
  {
    if exists fs :: AllEncodable(fs) && Encode(fs) <= buf {
      var fs :| AllEncodable(fs) && Encode(fs) <= buf;
      ScanEncode(fs, buf[|Encode(fs)|..]);
      assert buf == Encode(fs) + buf[|Encode(fs)|..];
    }
  }

  /** Truncated input fails: no proper prefix of a body scans. */
  lemma ScanTruncated(fs: seq<RawField>, k: nat)
    requires AllEncodable(fs)
    requires k < |Encode(fs)|
    ensures Scan(Encode(fs)[..k]) == Err(Truncated)
  {
    var cut := Encode(fs)[..k];
    if Scan(cut).Ok? {
      var gs := Scan(cut).value;
      ScanEncode(fs, []);
      assert Encode(fs) + [] == Encode(fs);
      var trailing := Encode(fs)[|Encode(gs)|..];
      assert Encode(gs) + trailing == Encode(fs);
      ScanEncode(gs, trailing);
      assert false;
    }
  }

  // ---------------------------------------------------------------------------
  // The assembled response

  /** The value last written under `tag`, if any: a repeated tag overwrites. */
  function LastValue(fs: seq<RawField>, tag: Byte): Option<Bytes>
  {
    if fs == [] then None
    else if fs[|fs| - 1].tag == tag then Some(fs[|fs| - 1].value)
    else LastValue(fs[..|fs| - 1], tag)
  }

  predicate HasTag(fs: seq<RawField>, tag: Byte)
  {
    exists i :: 0 <= i < |fs| && fs[i].tag == tag
  }

  /** `LastValue` finds a value exactly when the tag occurs, and the value it
      finds is that of the tag's last occurrence. */
  lemma {:induction false} LastValueIsLast(fs: seq<RawField>, tag: Byte)
    ensures LastValue(fs, tag).Some? <==> HasTag(fs, tag)
    ensures LastValue(fs, tag).Some? ==>
      exists i :: 0 <= i < |fs| && fs[i] == RawField(tag, LastValue(fs, tag).value) &&
                  forall j :: i < j < |fs| ==> fs[j].tag != tag
  {
    if fs != [] && fs[|fs| - 1].tag != tag {
      var init := fs[..|fs| - 1];
      LastValueIsLast(init, tag);
      assert forall i :: 0 <= i < |init| ==> init[i] == fs[i];
      if HasTag(fs, tag) {
        var i :| 0 <= i < |fs| && fs[i].tag == tag;
        assert init[i].tag == tag;
      }
    } else if fs != [] {
      assert fs[|fs| - 1].tag == tag;
    }
  }

  lemma LastValueSnoc(fs: seq<RawField>, f: RawField, tag: Byte)
    ensures LastValue(fs + [f], tag) == if f.tag == tag then Some(f.value) else LastValue(fs, tag)
  {
    assert (fs + [f])[..|fs|] == fs;
  }

  predicate IsMandatory(tag: Byte)
  {
    tag == 'S' || tag == 'C' || tag == 'M'
  }

  /** The optional-field map the loop builds: every tag but S, C and M, with the
      value it was last given. */
  function Others(fs: seq<RawField>): (m: map<Byte, Bytes>)
    ensures forall t :: t in m <==> !IsMandatory(t) && LastValue(fs, t).Some?
    ensures forall t :: t in m ==> m[t] == LastValue(fs, t).value
  {
    if fs == [] then map[]
    else
      var last := fs[|fs| - 1];
      var m := Others(fs[..|fs| - 1]);
      if IsMandatory(last.tag) then m else m[last.tag := last.value]
  }

  lemma OthersSnoc(fs: seq<RawField>, f: RawField)
    ensures Others(fs + [f]) == if IsMandatory(f.tag) then Others(fs) else Others(fs)[f.tag := f.value]
  {
    assert (fs + [f])[..|fs|] == fs;
  }

  /** Error and notice fields; severity, code and message are always present. */
  datatype Response = Response(severity: Bytes, code: Bytes, message: Bytes, fields: map<Byte, Bytes>)
  {
    function Code(): Bytes { code }

    function Message(): Bytes { message }

    /** `Response::field`: the three mandatory fields by their tags, every other
        tag from the map. */
    function Field(tag: Byte): Option<Bytes>
    {
      if tag == 'S' then Some(severity)
      else if tag == 'C' then Some(code)
      else if tag == 'M' then Some(message)
      else if tag in fields then Some(fields[tag])
      else None
    }

    /** `Response::severity`: lazily parses the non-localized V field when there
        is one, the localized S field otherwise. */
    function Severity(): Result<Severity, ProtocolError>
    {
      ParseSeverity(if 'V' in fields then fields['V'] else severity)
    }
  }

  /** What `Response::read` returns once the fields are known: the mandatory
      fields are checked in the order severity, code, message. */
  function Assemble(fs: seq<RawField>): Result<Response, ProtocolError>
  {
    match LastValue(fs, 'S')
    case None => Err(MissingField("severity"))
    case Some(severity) =>
      match LastValue(fs, 'C')
      case None => Err(MissingField("code"))
      case Some(code) =>
        match LastValue(fs, 'M')
        case None => Err(MissingField("message"))
        case Some(message) => Ok(Response(severity, code, message, Others(fs)))
  }

  function Decode(buf: Bytes): Result<Response, ProtocolError>
  {
    match Scan(buf)
    case Err(e) => Err(e)
    case Ok(fs) => Assemble(fs)
  }

  /** Where the loop of `Response::read` stands before a tag byte, having read
      the fields `seen`: the outcome of decoding the whole buffer is decided by
      the next bytes when they end the body or cut it short. */
  lemma DecodeAtTag(buf: Bytes, seen: seq<RawField>, rest: Bytes)
    requires AllEncodable(seen) && buf == EncodeFields(seen) + rest
    ensures |rest| == 0 ==> Decode(buf) == Err(Truncated)
    ensures |rest| > 0 && rest[0] == NUL ==> Decode(buf) == Assemble(seen)
    ensures |rest| > 0 && rest[0] != NUL && NUL !in rest[1..] ==> Decode(buf) == Err(Truncated)
  {
    ScanAfter(seen, rest);
    if |rest| > 0 && rest[0] == NUL {
      assert GetU8(rest) == Ok((NUL, rest[1..]));
      assert seen + [] == seen;
    }
  }

  /** One more field read: the loop's view of the buffer moves past it. */
  lemma ReadAdvance(buf: Bytes, seen: seq<RawField>, rest: Bytes, f: RawField, after: Bytes)
    requires AllEncodable(seen) && buf == EncodeFields(seen) + rest
    requires rest == [f.tag] + (f.value + [NUL] + after)
    requires f.tag != NUL && NUL !in f.value
    ensures AllEncodable(seen + [f]) && buf == EncodeFields(seen + [f]) + after
  {
    EncodeFieldsAppend(seen, f);
    assert rest == EncodeField(f) + after;
    assert forall i :: 0 <= i < |seen| ==> (seen + [f])[i] == seen[i];
  }

  /** `Response::read`: walks the buffer field by field, keeping the last S, C
      and M and putting every other tag in the map. */
  method Read(buf: Bytes) returns (r: Result<Response, ProtocolError>)
    ensures r == Decode(buf)
  {
    var severity: Option<Bytes> := None;
    var code: Option<Bytes> := None;
    var message: Option<Bytes> := None;
    var other: map<Byte, Bytes> := map[];
    var rest := buf;
    ghost var seen: seq<RawField> := [];

    while true
      invariant AllEncodable(seen)
      invariant buf == EncodeFields(seen) + rest
      invariant severity == LastValue(seen, 'S')
      invariant code == LastValue(seen, 'C')
      invariant message == LastValue(seen, 'M')
      invariant other == Others(seen)
      decreases |rest|
    {
      DecodeAtTag(buf, seen, rest);
      var tag := GetU8(rest);
      if tag.Err? {
        return Err(tag.error);
      }
      var fieldType := tag.value.0;
      if fieldType == NUL {
        break;
      }
      var value := GetStrNul(tag.value.1);
      if value.Err? {
        return Err(value.error);
      }
      var fieldValue := value.value.0;
      ghost var f := RawField(fieldType, fieldValue);
      ReadAdvance(buf, seen, rest, f, value.value.1);
      rest := value.value.1;

      if fieldType == 'S' {
        severity := Some(fieldValue);
      } else if fieldType == 'C' {
        code := Some(fieldValue);
      } else if fieldType == 'M' {
        message := Some(fieldValue);
      } else {
        other := other[fieldType := fieldValue];
      }

      LastValueSnoc(seen, f, 'S');
      LastValueSnoc(seen, f, 'C');
      LastValueSnoc(seen, f, 'M');
      OthersSnoc(seen, f);
      seen := seen + [f];
    }

    if severity.None? {
      return Err(MissingField("severity"));
    }
    if code.None? {
      return Err(MissingField("code"));
    }
    if message.None? {
      return Err(MissingField("message"));
    }
    r := Ok(Response(severity.value, code.value, message.value, other));
  }

  // ---------------------------------------------------------------------------
  // Properties of the decoder

  /** Reading is scanning the fields, then assembling them. */
  lemma DecodeIsAssemble(buf: Bytes)
    ensures Scan(buf).Err? ==> Decode(buf) == Err(Truncated)
    ensures Scan(buf).Ok? ==> Decode(buf) == Assemble(Scan(buf).value)
  {
  }

  /** At the byte level: the body written for any fields, followed by any
      bytes at all, decodes to the response assembled from those fields. */
  lemma DecodeEncoded(fs: seq<RawField>, trailing: Bytes)
    requires AllEncodable(fs)
    ensures Decode(Encode(fs) + trailing) == Assemble(fs)
  {
    ScanEncode(fs, trailing);
  }

  /** Assembling succeeds exactly when S, C and M each appear; otherwise the
      first of severity, code, message that is missing is named. */
  lemma AssembleOutcome(fs: seq<RawField>)
    ensures !HasTag(fs, 'S') ==> Assemble(fs) == Err(MissingField("severity"))
    ensures HasTag(fs, 'S') && !HasTag(fs, 'C') ==> Assemble(fs) == Err(MissingField("code"))
    ensures HasTag(fs, 'S') && HasTag(fs, 'C') && !HasTag(fs, 'M') ==> Assemble(fs) == Err(MissingField("message"))
    ensures Assemble(fs).Ok? <==> HasTag(fs, 'S') && HasTag(fs, 'C') && HasTag(fs, 'M')
  {
    LastValueIsLast(fs, 'S');
    LastValueIsLast(fs, 'C');
    LastValueIsLast(fs, 'M');
  }

  /** Every tag, mandatory or not, reads back as the value last written under it. */
  lemma AssembleField(fs: seq<RawField>, tag: Byte)
    requires Assemble(fs).Ok?
    ensures Assemble(fs).value.Field(tag) == LastValue(fs, tag)
  {
  }

  /** The optional-field map never holds S, C, M or the zero tag. */
  lemma AssembleOptionalKeys(fs: seq<RawField>)
    requires AllEncodable(fs)
    requires Assemble(fs).Ok?
    ensures var m := Assemble(fs).value.fields;
            'S' !in m && 'C' !in m && 'M' !in m && NUL !in m
  {
    LastValueIsLast(fs, NUL);
  }

  /** The severity is read from the V field when it appears, from S otherwise. */
  lemma AssembleSeverity(fs: seq<RawField>)
    requires Assemble(fs).Ok?
    ensures LastValue(fs, 'S').Some?
    ensures var text := if LastValue(fs, 'V').Some? then LastValue(fs, 'V').value else LastValue(fs, 'S').value;
            Assemble(fs).value.Severity() == ParseSeverity(text)
  {
    LastValueIsLast(fs, 'V');
  }

  /** Writing a tag again replaces its value and leaves every other tag alone. */
  lemma AssembleRepeatedTag(fs: seq<RawField>, f: RawField, tag: Byte)
    requires Assemble(fs + [f]).Ok?
    ensures Assemble(fs + [f]).value.Field(tag) ==
            if tag == f.tag then Some(f.value) else LastValue(fs, tag)
  {
    assert (fs + [f])[..|fs|] == fs;
    AssembleField(fs + [f], tag);
  }

  /** The message text of the sample notice below; like the unit test's byte
      string it is written in two pieces. */
  const SampleMessage: Bytes := "extension \"uuid-ossp\" already exists, " + "skipping"

  /** The sample notice from the driver's unit test, grouped by field. */
  const Sample: Bytes :=
    ("S" + "NOTICE" + "\0") + ("V" + "NOTICE" + "\0") + ("C" + "42710" + "\0") +
    ("M" + SampleMessage + "\0") + ("F" + "extension.c" + "\0") + ("L" + "1656" + "\0") +
    ("R" + "CreateExtension" + "\0") + "\0"

  const SampleFields: seq<RawField> := [
    RawField('S', "NOTICE"),
    RawField('V', "NOTICE"),
    RawField('C', "42710"),
    RawField('M', SampleMessage),
    RawField('F', "extension.c"),
    RawField('L', "1656"),
    RawField('R', "CreateExtension")
  ]

  lemma SampleMessageHasNoNul()
    ensures NUL !in SampleMessage
  {
  }

  lemma SampleFieldsEncodable()
    ensures AllEncodable(SampleFields)
  {
    SampleMessageHasNoNul();
    forall i | 0 <= i < |SampleFields|
      ensures Encodable(SampleFields[i])
    {
      if i == 3 {
        assert SampleFields[3] == RawField('M', SampleMessage);
      }
    }
  }

  /** The sample, field by field. */
  lemma SamplePieces()
    ensures Sample == EncodeField(SampleFields[0]) + EncodeField(SampleFields[1]) + EncodeField(SampleFields[2]) +
                      EncodeField(SampleFields[3]) + EncodeField(SampleFields[4]) + EncodeField(SampleFields[5]) +
                      EncodeField(SampleFields[6]) + [NUL]
  {
  }

  lemma SampleIsEncoded()
    ensures AllEncodable(SampleFields)
    ensures Sample == Encode(SampleFields)
  {
    SampleFieldsEncodable();
    SamplePieces();
    var f0, f1, f2, f3, f4, f5, f6 :=
      SampleFields[0], SampleFields[1], SampleFields[2], SampleFields[3], SampleFields[4], SampleFields[5], SampleFields[6];
    assert SampleFields == [f0, f1, f2, f3, f4, f5, f6];
    EncodeFieldsAppend([], f0);
    assert [] + [f0] == [f0];
    assert EncodeFields([f0]) == EncodeField(f0);
    EncodeFieldsAppend([f0], f1);
    assert [f0] + [f1] == [f0, f1];
    EncodeFieldsAppend([f0, f1], f2);
    assert [f0, f1] + [f2] == [f0, f1, f2];
    EncodeFieldsAppend([f0, f1, f2], f3);
    assert [f0, f1, f2] + [f3] == [f0, f1, f2, f3];
    EncodeFieldsAppend([f0, f1, f2, f3], f4);
    assert [f0, f1, f2, f3] + [f4] == [f0, f1, f2, f3, f4];
    EncodeFieldsAppend([f0, f1, f2, f3, f4], f5);
    assert [f0, f1, f2, f3, f4] + [f5] == [f0, f1, f2, f3, f4, f5];
    EncodeFieldsAppend([f0, f1, f2, f3, f4, f5], f6);
    assert [f0, f1, f2, f3, f4, f5] + [f6] == SampleFields;
    assert Encode(SampleFields) == EncodeFields(SampleFields) + [NUL];
  }

  lemma SampleLastValues()
    ensures LastValue(SampleFields, 'S') == Some("NOTICE")
    ensures LastValue(SampleFields, 'V') == Some("NOTICE")
    ensures LastValue(SampleFields, 'C') == Some("42710")
    ensures LastValue(SampleFields, 'M') == Some(SampleMessage)
    ensures LastValue(SampleFields, 'F') == Some("extension.c")
    ensures LastValue(SampleFields, 'L') == Some("1656")
    ensures LastValue(SampleFields, 'R') == Some("CreateExtension")
  {
    var f0, f1, f2, f3, f4, f5, f6 :=
      SampleFields[0], SampleFields[1], SampleFields[2], SampleFields[3], SampleFields[4], SampleFields[5], SampleFields[6];
    assert [] + [f0] == [f0];
    forall t { LastValueSnoc([], f0, t); }
    assert [f0] + [f1] == [f0, f1];
    forall t { LastValueSnoc([f0], f1, t); }
    assert [f0, f1] + [f2] == [f0, f1, f2];
    forall t { LastValueSnoc([f0, f1], f2, t); }
    assert [f0, f1, f2] + [f3] == [f0, f1, f2, f3];
    forall t { LastValueSnoc([f0, f1, f2], f3, t); }
    assert [f0, f1, f2, f3] + [f4] == [f0, f1, f2, f3, f4];
    forall t { LastValueSnoc([f0, f1, f2, f3], f4, t); }
    assert [f0, f1, f2, f3, f4] + [f5] == [f0, f1, f2, f3, f4, f5];
    forall t { LastValueSnoc([f0, f1, f2, f3, f4], f5, t); }
    assert [f0, f1, f2, f3, f4, f5] + [f6] == SampleFields;
    forall t { LastValueSnoc([f0, f1, f2, f3, f4, f5], f6, t); }
  }

  /** The unit test's expectations, read through `severity()` and `field()`. */
  lemma DecodeSample()
    ensures Decode(Sample).Ok?
    ensures Decode(Sample).value.Severity() == Ok(Notice)
    ensures Decode(Sample).value.Code() == "42710"
    ensures Decode(Sample).value.Message() == SampleMessage
    ensures Decode(Sample).value.Field('F') == Some("extension.c")
    ensures Decode(Sample).value.Field('L') == Some("1656")
    ensures Decode(Sample).value.Field('R') == Some("CreateExtension")
  {
    SampleIsEncoded();
    ScanEncode(SampleFields, []);
    assert Sample + [] == Sample;
    SampleLastValues();
    AssembleField(SampleFields, 'F');
    AssembleField(SampleFields, 'L');
    AssembleField(SampleFields, 'R');
    AssembleSeverity(SampleFields);
  }
}
