/**
 * The per-message path: decode a versioned envelope into a scan and its
 * response text, Upsert the resulting record, and acknowledge or
 * negatively acknowledge the message by the outcome. JSON unmarshalling is
 * not modelled: messages arrive already parsed, or as Malformed.
 */
module Processor {
  import opened Wrappers
  import opened Records
  import opened Memory
  import MemoryLaws
  import Base64

  /** The two data_version values on the wire. */
  const V1: int := 1
  const V2: int := 2

  /**
   * The "data" member as a JSON object with string members, or anything that
   * does not unmarshal into the version's data struct.
   */
  datatype RawData =
    | DataMalformed
    | DataObject(fields: map<string, string>)

  /** rawScan: the envelope after the first json.Unmarshal, or Malformed if that failed. */
  datatype Envelope =
    | Malformed
    | Envelope(ip: string, port: Uint32, service: string, timestamp: Int64,
               dataVersion: int, data: RawData)

  /** scanning.Scan as the decoder fills it. */
  datatype Scan = Scan(ip: string, port: Uint32, service: string, timestamp: Int64, dataVersion: int)

  datatype Decoded = Decoded(scan: Scan, response: string)

  datatype DecodeError =
    | MalformedScan
    | MalformedV1Data
    | MalformedV2Data
    | UnknownVersion(version: int)

  /** Go's string([]byte): each byte becomes one char of the byte string. */
  function BytesToString(bs: seq<Base64.Byte>): (s: string)
    ensures |s| == |bs|
    ensures forall i :: 0 <= i < |s| ==> s[i] as int == bs[i]
  {
    seq(|bs|, i requires 0 <= i < |bs| => bs[i] as char)
  }

  /** A byte string: every char stands for one byte. */
  ghost predicate IsByteString(s: string)
  {
    forall i :: 0 <= i < |s| ==> s[i] as int < 256
  }

  /** Go's []byte(s) for a byte string. */
  function StringToBytes(s: string): (bs: seq<Base64.Byte>)
    requires IsByteString(s)
    ensures BytesToString(bs) == s
  {
    seq(|s|, i requires 0 <= i < |s| => s[i] as int)
  }

  /**
   * V1 data: response_bytes_utf8 is a base64 string that encoding/json
   * decodes into bytes; a missing member leaves the byte slice nil, read as "".
   */
  function V1Response(data: RawData): (r: Result<string, DecodeError>)
    ensures r.Failure? ==> r.error == MalformedV1Data
    ensures r.Success? <==>
              && data.DataObject?
              && ("response_bytes_utf8" in data.fields ==> Base64.Decode(data.fields["response_bytes_utf8"]).Some?)
    ensures data.DataObject? && "response_bytes_utf8" !in data.fields ==> r == Success("")
    ensures data.DataObject? && "response_bytes_utf8" in data.fields
              && Base64.Decode(data.fields["response_bytes_utf8"]).Some? ==>
              r == Success(BytesToString(Base64.Decode(data.fields["response_bytes_utf8"]).value))
  {
    match data
    case DataMalformed => Failure(MalformedV1Data)
    case DataObject(fields) =>
      if "response_bytes_utf8" !in fields then Success("")
      else
        match Base64.Decode(fields["response_bytes_utf8"])
        case None => Failure(MalformedV1Data)
        case Some(bs) => Success(BytesToString(bs))
  }

  /** V2 data: response_str is used as it is; a missing member reads as "". */
  function V2Response(data: RawData): (r: Result<string, DecodeError>)
    ensures r.Success? <==> data.DataObject?
    ensures r.Failure? ==> r.error == MalformedV2Data
    ensures data.DataObject? && "response_str" in data.fields ==> r == Success(data.fields["response_str"])
    ensures data.DataObject? && "response_str" !in data.fields ==> r == Success("")
  {
    match data
    case DataMalformed => Failure(MalformedV2Data)
    case DataObject(fields) =>
      Success(if "response_str" in fields then fields["response_str"] else "")
  }

  /** parseScan: dispatch on data_version, then copy the envelope's fields into the scan. */
  function ParseScan(e: Envelope): (r: Result<Decoded, DecodeError>)
    ensures r.Success? ==> e.Envelope? && (e.dataVersion == V1 || e.dataVersion == V2)
    ensures r.Success? ==> r.value.scan == Scan(e.ip, e.port, e.service, e.timestamp, e.dataVersion)
    ensures e.Malformed? ==> r == Failure(MalformedScan)
    ensures e.Envelope? && e.dataVersion != V1 && e.dataVersion != V2 ==>
              r == Failure(UnknownVersion(e.dataVersion))
  {
    match e
    case Malformed => Failure(MalformedScan)
    case Envelope(ip, port, service, timestamp, version, data) =>
      var response :=
        if version == V1 then V1Response(data)
        else if version == V2 then V2Response(data)
        else Failure(UnknownVersion(version));
      match response
      case Failure(err) => Failure(err)
      case Success(text) => Success(Decoded(Scan(ip, port, service, timestamp, version), text))
  }

  /** A V1 envelope whose response_bytes_utf8 decodes to some bytes yields those bytes as the response. */
  lemma V1DecodesBase64(e: Envelope, payload: seq<Base64.Byte>)
    requires e.Envelope? && e.dataVersion == V1 && e.data.DataObject?
    requires "response_bytes_utf8" in e.data.fields
    requires Base64.Decode(e.data.fields["response_bytes_utf8"]) == Some(payload)
    ensures ParseScan(e) == Success(Decoded(Scan(e.ip, e.port, e.service, e.timestamp, V1),
                                            BytesToString(payload)))
  {
  }

  /** A V1 envelope carrying the padded encoding of some bytes yields those bytes. */
  lemma V1DecodesEncoding(e: Envelope, payload: seq<Base64.Byte>)
    requires e.Envelope? && e.dataVersion == V1 && e.data.DataObject?
    requires "response_bytes_utf8" in e.data.fields
    requires e.data.fields["response_bytes_utf8"] == Base64.Encode(payload)
    ensures ParseScan(e) == Success(Decoded(Scan(e.ip, e.port, e.service, e.timestamp, V1),
                                            BytesToString(payload)))
  {
    Base64.DecodeEncode(payload);
    V1DecodesBase64(e, payload);
  }

  /**
   * The decoder is not strict: "YR==" has non-zero trailing bits, so it is
   * not what Encode gives for "a" ("YQ=="), yet it is accepted and yields "a".
   */
  lemma V1AcceptsNonCanonical(e: Envelope)
    requires e.Envelope? && e.dataVersion == V1
    requires e.data == DataObject(map["response_bytes_utf8" := "YR=="])
    ensures ParseScan(e).Success? && ParseScan(e).value.response == "a"
  {
    var text := "YR==";
    var a: seq<Base64.Byte> := [97];
    assert |text| == 4 && text[0] == 'Y' && text[1] == 'R' && text[2] == '=' && text[3] == '=';
    assert Base64.SkipNewlines(text) == text by {
      assert '\r' !in text && '\n' !in text;
    }
    assert Base64.DecodeQuantum('Y', 'R', '=', '=', true) == Some(a) by {
      assert Base64.IndexOf('Y') == Some(24) && Base64.IndexOf('R') == Some(17);
      assert Base64.Pack(24, 17, 0, 0) == 0x611000;
    }
    assert Base64.DecodeQuanta(text[4..]) == Some([]);
    assert a + [] == a;
    assert Base64.Decode(text) == Some(a);
    assert BytesToString(a) == "a";
  }

  /** A V2 envelope yields response_str unchanged. */
  lemma V2KeepsResponseString(e: Envelope)
    requires e.Envelope? && e.dataVersion == V2 && e.data.DataObject?
    requires "response_str" in e.data.fields
    ensures ParseScan(e).Success? && ParseScan(e).value.response == e.data.fields["response_str"]
  {
  }

  /**
   * Both wire versions carry the same payload to the same record: the V1
   * envelope with base64(s) and the V2 envelope with s decode to s.
   */
  lemma VersionsAgree(ip: string, port: Uint32, service: string, timestamp: Int64, s: string)
    requires IsByteString(s)
    ensures var v1 := Envelope(ip, port, service, timestamp, V1,
                               DataObject(map["response_bytes_utf8" := Base64.Encode(StringToBytes(s))]));
            var v2 := Envelope(ip, port, service, timestamp, V2, DataObject(map["response_str" := s]));
            && ParseScan(v1).Success? && ParseScan(v2).Success?
            && ParseScan(v1).value.response == s == ParseScan(v2).value.response
            && RecordOf(ParseScan(v1).value) == RecordOf(ParseScan(v2).value)
  {
    var v1 := Envelope(ip, port, service, timestamp, V1,
                       DataObject(map["response_bytes_utf8" := Base64.Encode(StringToBytes(s))]));
    V1DecodesEncoding(v1, StringToBytes(s));
  }

  /** The wire example: "aGVsbG8gd29ybGQ=" in a V1 envelope decodes to "hello world". */
  lemma HelloWorldV1(e: Envelope)
    requires e.Envelope? && e.dataVersion == V1
    requires e.data == DataObject(map["response_bytes_utf8" := "aGVsbG8gd29ybGQ="])
    ensures ParseScan(e).Success? && ParseScan(e).value.response == "hello world"
  {
    var bytes: seq<Base64.Byte> := [104, 101, 108, 108, 111, 32, 119, 111, 114, 108, 100];
    HelloWorldEncodes();
    assert BytesToString(bytes) == "hello world";
    V1DecodesEncoding(e, bytes);
  }

  /** The base64 of the eleven bytes of "hello world", one quantum at a time. */
  lemma HelloWorldEncodes()
    ensures Base64.Encode([104, 101, 108, 108, 111, 32, 119, 111, 114, 108, 100]) == "aGVsbG8gd29ybGQ="
  {
    var bytes: seq<Base64.Byte> := [104, 101, 108, 108, 111, 32, 119, 111, 114, 108, 100];
    assert Base64.Encode(bytes[9..]) == "bGQ=" by {
      assert Base64.Join(108, 100, 0) == 0x6c6400;
    }
    assert Base64.Quantum(Base64.Join(119, 111, 114)) == "d29y" by {
      assert Base64.Join(119, 111, 114) == 0x776f72;
    }
    assert Base64.Quantum(Base64.Join(108, 111, 32)) == "bG8g" by {
      assert Base64.Join(108, 111, 32) == 0x6c6f20;
    }
    assert Base64.Quantum(Base64.Join(104, 101, 108)) == "aGVs" by {
      assert Base64.Join(104, 101, 108) == 0x68656c;
    }
    assert bytes[6..][3..] == bytes[9..];
    assert bytes[3..][3..] == bytes[6..];
    assert bytes[3..] == [108, 111, 32, 119, 111, 114, 108, 100];
  }

  /** Any data_version other than V1 and V2, 999 for one, is rejected without a result. */
  lemma UnknownVersionRejected(e: Envelope)
    requires e.Envelope? && e.dataVersion == 999
    ensures ParseScan(e) == Failure(UnknownVersion(999))
  {
  }

  /**
   * A data member that does not unmarshal into the selected version's struct
   * is an error, and so is a V1 response_bytes_utf8 that is not valid base64.
   */
  lemma MalformedDataRejected(e: Envelope)
    requires e.Envelope? && (e.dataVersion == V1 || e.dataVersion == V2)
    requires || e.data.DataMalformed?
             || (e.dataVersion == V1 && "response_bytes_utf8" in e.data.fields
                 && Base64.Decode(e.data.fields["response_bytes_utf8"]).None?)
    ensures ParseScan(e) == Failure(if e.dataVersion == V1 then MalformedV1Data else MalformedV2Data)
  {
  }

  /* ---------------- processing one message ---------------- */

  /** The record Process builds from a decoded scan. */
  function RecordOf(d: Decoded): (r: ServiceRecord)
    ensures r.ip == d.scan.ip && r.port == d.scan.port && r.service == d.scan.service
    ensures r.lastTimestamp == d.scan.timestamp && r.response == d.response
  {
    ServiceRecord(d.scan.ip, d.scan.port, d.scan.service, d.scan.timestamp, d.response)
  }

  /**
   * The stored map after e is decoded and its record Upserted: unchanged when
   * decoding fails.
   */
  function Ingested(m: map<string, ServiceRecord>, e: Envelope): (m': map<string, ServiceRecord>)
    ensures Keyed(m) ==> Keyed(m')
    ensures ParseScan(e).Failure? ==> m' == m
    ensures ParseScan(e).Success? ==> KeyOf(RecordOf(ParseScan(e).value)) in m'
  {
    match ParseScan(e)
    case Failure(_) => m
    case Success(d) => Upserted(m, RecordOf(d))
  }

  /** Processing the same message twice leaves what processing it once left. */
  lemma RedeliveryIsHarmless(m: map<string, ServiceRecord>, e: Envelope)
    ensures Ingested(Ingested(m, e), e) == Ingested(m, e)
  {
    if ParseScan(e).Success? {
      MemoryLaws.UpsertIdempotent(m, RecordOf(ParseScan(e).value));
    }
  }

  /**
   * The stored map after e is delivered once per entry of faults, in order.
   * An entry is the error the store's Upsert reports on that attempt (None
   * when it succeeds); a failed Upsert writes nothing.
   */
  function Redelivered(m: map<string, ServiceRecord>, e: Envelope, faults: seq<Option<string>>): (m': map<string, ServiceRecord>)
    decreases |faults|
  {
    if faults == [] then m
    else
      var before := Redelivered(m, e, faults[..|faults| - 1]);
      if faults[|faults| - 1].Some? then before else Ingested(before, e)
  }

  /**
   * At-least-once delivery converges: however many attempts fail in the
   * store, once any one attempt gets through the store holds what a single
   * successful delivery leaves, and until then it is untouched.
   */
  lemma {:induction false} AtLeastOnceDelivery(m: map<string, ServiceRecord>, e: Envelope, faults: seq<Option<string>>)
    ensures Redelivered(m, e, faults) ==
            if exists i :: 0 <= i < |faults| && faults[i].None? then Ingested(m, e) else m
    decreases |faults|
  {
    if faults != [] {
      var n := |faults|;
      var p := faults[..n - 1];
      AtLeastOnceDelivery(m, e, p);
      assert forall i :: 0 <= i < |p| ==> p[i] == faults[i];
      if exists i :: 0 <= i < |p| && p[i].None? {
        RedeliveryIsHarmless(m, e);
      } else if faults[n - 1].Some? {
        assert !exists i :: 0 <= i < n && faults[i].None?;
      }
    }
  }

  /**
   * A message that does not decode is never stored, on any number of
   * redeliveries: Nacking it only brings it back.
   */
  lemma DecodeFailureIsPermanent(m: map<string, ServiceRecord>, e: Envelope, faults: seq<Option<string>>)
    requires ParseScan(e).Failure?
    ensures Redelivered(m, e, faults) == m
  {
    AtLeastOnceDelivery(m, e, faults);
  }

  datatype ProcessError =
    | ParseFailed(cause: DecodeError)
    | UpsertFailed(message: string)

  datatype Settlement = Ack | Nack

  /** The callback's choice: Nack when Process returned an error, Ack otherwise. */
  function Settle(err: Option<ProcessError>): (s: Settlement)
    ensures s == Nack <==> err.Some?
  {
    if err.Some? then Nack else Ack
  }

  class Processor {
    const store: MemoryStore

    constructor (s: MemoryStore)
      ensures store == s
    {
      store := s;
    }

    /**
     * Process: decode, then Upsert once. upsertFault is the error the store
     * reports for that Upsert (the memory store never reports one; another
     * store may). It errs exactly when decoding or the Upsert fails;
     * "applied" and "skipped" are both success. A failed decode or a failed
     * Upsert leaves the store unchanged.
     */
    method Process(e: Envelope, upsertFault: Option<string>) returns (err: Option<ProcessError>)
      requires store.Valid()
      modifies store
      ensures store.Valid()
      ensures err.Some? <==> ParseScan(e).Failure? || upsertFault.Some?
      ensures ParseScan(e).Failure? ==> err == Some(ParseFailed(ParseScan(e).error))
      ensures ParseScan(e).Success? && upsertFault.Some? ==> err == Some(UpsertFailed(upsertFault.value))
      ensures store.records == Redelivered(old(store.records), e, [upsertFault])
    {
      var parsed := ParseScan(e);
      if parsed.Failure? {
        return Some(ParseFailed(parsed.error));
      }
      var record := RecordOf(parsed.value);
      if upsertFault.Some? {
        return Some(UpsertFailed(upsertFault.value));
      }
      var _ := store.Upsert(record);
      return None;
    }

    /**
     * The Receive callback for one message: exactly one of Ack or Nack. It
     * Acks exactly when the message decoded and its Upsert succeeded, and
     * then the record is stored; a Nacked message leaves the store as it was.
     */
    method OnMessage(e: Envelope, upsertFault: Option<string>) returns (s: Settlement)
      requires store.Valid()
      modifies store
      ensures store.Valid()
      ensures s == Ack <==> ParseScan(e).Success? && upsertFault.None?
      ensures s == Ack ==> store.records == Ingested(old(store.records), e)
      ensures s == Nack ==> store.records == old(store.records)
    {
      var err := Process(e, upsertFault);
      s := Settle(err);
    }
  }
}
