/**
 Snapshots on the wire, and the TypeScript SDK's payload computed from what arrives there. The JSON text
 layer belongs to the standard libraries and appears as the record of fields it writes; times are the
 text of Rfc3339.Format.
 */
module Wire {
  import opened Decimal
  import opened Hex
  import opened Rfc3339
  import opened Signing
  import opened Sorting
  import opened Text
  import opened Wrappers

  datatype Snapshot = Snapshot(
    id: string,
    source: string,
    version: string,
    hashCount: int,
    createdAt: Instant,
    upstreamAt: Instant,
    blobURI: string,
    hashes: Option<seq<Hash>>,
    signature: Option<seq<bv8>>,
    signingKeyID: string)

  /** `snapshotWire`: the struct handed to and filled by the JSON library. */
  datatype SnapshotWire = SnapshotWire(
    id: string,
    source: string,
    version: string,
    hashCount: int,
    createdAt: Instant,
    upstreamAt: Instant,
    blobURI: string,
    hashesHex: Option<seq<string>>,
    signature: Option<seq<bv8>>,
    signingKeyID: string)

  /** The JSON object; an absent or null field is None. */
  datatype Json = Json(
    id: string,
    source: string,
    version: string,
    hashCount: int,
    createdAt: string,
    upstreamAt: string,
    blobURI: string,
    hashesHex: Option<seq<string>>,
    signature: Option<seq<bv8>>,
    signingKeyID: Option<string>)

  /** A nil slice has no elements. */
  function Elements<T>(slice: Option<seq<T>>): seq<T> {
    if slice.Some? then slice.value else []
  }

  // ----- Go -----

  function ToWire(s: Snapshot): SnapshotWire {
    SnapshotWire(s.id, s.source, s.version, s.hashCount, s.createdAt, s.upstreamAt, s.blobURI,
                 if s.hashes.Some? then Some(HexLines(s.hashes.value)) else None, s.signature, s.signingKeyID)
  }

  /** `json.Marshal`: empty `omitempty` fields disappear and years outside 0..9999 are an error. */
  function EncodeJson(w: SnapshotWire): Option<Json> {
    if !Encodable(w.createdAt) || !Encodable(w.upstreamAt) then None
    else Some(Json(w.id, w.source, w.version, w.hashCount, Format(w.createdAt), Format(w.upstreamAt), w.blobURI,
                   if Elements(w.hashesHex) == [] then None else w.hashesHex,
                   w.signature, if w.signingKeyID == "" then None else Some(w.signingKeyID)))
  }

  /** The instant a time text denotes; FormatInjective makes it unique. */
  ghost function ParseTime(text: string): Option<Instant> {
    if t :| Encodable(t) && Format(t) == text then Some(t) else None
  }

  /** `json.Unmarshal` into the wire struct. */
  ghost function DecodeJson(j: Json): Option<SnapshotWire> {
    match (ParseTime(j.createdAt), ParseTime(j.upstreamAt))
    case (Some(created), Some(upstream)) =>
      Some(SnapshotWire(j.id, j.source, j.version, j.hashCount, created, upstream, j.blobURI, j.hashesHex,
                        j.signature, if j.signingKeyID.Some? then j.signingKeyID.value else ""))
    case _ => None
  }

  /** A snapshot variable as `Sign` and `UnmarshalJSON` see it, through their receiver or argument. */
  class SnapshotCell {
    var value: Snapshot

    constructor (value: Snapshot)
      ensures this.value == value
    {
      this.value := value;
    }

    method MarshalJSON() returns (w: SnapshotWire)
      ensures w == ToWire(value)
    {
      var hexes: Option<seq<string>> := None;
      if value.hashes.Some? {
        var hashes := value.hashes.value;
        var texts := new string[|hashes|];
        for i := 0 to |hashes|
          invariant value == old(value)
          invariant forall j :: 0 <= j < i ==> texts[j] == HexLine(hashes[j])
        {
          texts[i] := Encode(hashes[i]);
        }
        assert texts[..] == HexLines(hashes);
        hexes := Some(texts[..]);
      }
      w := SnapshotWire(value.id, value.source, value.version, value.hashCount, value.createdAt, value.upstreamAt,
                        value.blobURI, hexes, value.signature, value.signingKeyID);
    }

    /** Overwrites the receiver with the decoded snapshot, or leaves it alone at the first bad hash. */
    method UnmarshalJSON(w: SnapshotWire) returns (ok: bool)
      modifies this
      ensures ok <==> forall i :: 0 <= i < |Elements(w.hashesHex)| ==> ParseHashHex(Elements(w.hashesHex)[i]).Ok?
      ensures !ok ==> value == old(value)
      ensures ok ==>
        && ToWire(value) == w.(hashesHex := ToWire(value).hashesHex)
        && (value.hashes.None? <==> w.hashesHex.None?)
        && Map(Lower, Elements(w.hashesHex)) == HexLines(Elements(value.hashes))
    {
      var hashes: Option<seq<Hash>> := None;
      if w.hashesHex.Some? {
        var texts := w.hashesHex.value;
        var out: seq<Hash> := [];
        for i := 0 to |texts|
          invariant |out| == i && value == old(value)
          invariant forall j :: 0 <= j < i ==> ParseHashHex(texts[j]).Ok? && Lower(texts[j]) == HexLine(out[j])
        {
          match ParseHashHex(texts[i]) {
            case Err(_) =>
              assert Elements(w.hashesHex)[i] == texts[i];
              return false;
            case Ok(h) =>
              ParseMeaning(texts[i], h);
              out := out + [h];
          }
        }
        hashes := Some(out);
      }
      value := Snapshot(w.id, w.source, w.version, w.hashCount, w.createdAt, w.upstreamAt, w.blobURI, hashes,
                        w.signature, w.signingKeyID);
      return true;
    }
  }

  // ----- TypeScript -----

  /** `Date.parse`: milliseconds since 1970; digits beyond the third after the point are dropped. */
  ghost function DateParse(text: string): Option<int> {
    match ParseTime(text)
    case None => None
    case Some(t) => Some(t / 1_000_000 - 62_167_219_200_000)
  }

  /** `snapshotSigningPayload`, or nothing when it throws on an unreadable date. */
  ghost function SnapshotSigningPayload(j: Json): Option<string> {
    var hashes := Sort(LexLe, Map(Lower, Elements(j.hashesHex)));
    match DateParse(j.createdAt)
    case None => None
    case Some(ms) => Some(j.id + "\n" + JoinLines(hashes) + "\n" + FormatInt(ms / 1000))
  }

  // ----- agreement -----

  lemma ParseTimeOfFormat(t: Instant)
    requires Encodable(t)
    ensures ParseTime(Format(t)) == Some(t)
  {
    hide Format, Encodable;
    var u :| Encodable(u) && Format(u) == Format(t) && ParseTime(Format(t)) == Some(u);
    FormatInjective(t, u);
  }

  /** Rounding to milliseconds and then to seconds is rounding to seconds, before 1970 too. */
  lemma FloorOfFloor(t: Instant)
    ensures (t / 1_000_000 - 62_167_219_200_000) / 1000 == Unix(t)
  {
    assert t / 1_000_000 / 1000 == t / 1_000_000_000;
  }

  lemma LowerHexLines(hashes: seq<Hash>)
    ensures Map(Lower, HexLines(hashes)) == HexLines(hashes)
  {
    forall i | 0 <= i < |hashes|
      ensures Lower(HexLines(hashes)[i]) == HexLines(hashes)[i]
    {
      EncodedText(hashes[i]);
    }
  }

  /**
   The SDK recomputes the very bytes the service signed, from the wire record of any snapshot that
   encodes: whatever the hash order, with a nil or an empty list, and at any fraction of a second.
   */
  lemma SdkPayloadAgrees(s: Snapshot)
    requires EncodeJson(ToWire(s)).Some?
    ensures SnapshotSigningPayload(EncodeJson(ToWire(s)).value) == Some(Payload(s.id, Elements(s.hashes), s.createdAt))
  {
    hide Format, Encodable, Encode, Unix;
    var j := EncodeJson(ToWire(s)).value;
    ParseTimeOfFormat(s.createdAt);
    FloorOfFloor(s.createdAt);
    LowerHexLines(Elements(s.hashes));
    assert Elements(j.hashesHex) == HexLines(Elements(s.hashes));
  }

  /** Each member of the JSON object carries the field of its name; an empty list and an empty key id leave theirs out. */
  lemma WireFields(s: Snapshot)
    ensures EncodeJson(ToWire(s)).Some? <==> Encodable(s.createdAt) && Encodable(s.upstreamAt)
    ensures EncodeJson(ToWire(s)).Some? ==>
      var j := EncodeJson(ToWire(s)).value;
      && j.id == s.id && j.source == s.source && j.version == s.version && j.hashCount == s.hashCount
      && j.createdAt == Format(s.createdAt) && j.upstreamAt == Format(s.upstreamAt) && j.blobURI == s.blobURI
      && j.hashesHex == (if Elements(s.hashes) == [] then None else Some(HexLines(s.hashes.value)))
      && j.signature == s.signature
      && j.signingKeyID == (if s.signingKeyID == "" then None else Some(s.signingKeyID))
  {
    hide Format, Encodable, Encode;
  }

  /** A snapshot sent and received is the snapshot itself, except that an empty hash list arrives as nil. */
  lemma WireRoundTrip(s: Snapshot)
    requires EncodeJson(ToWire(s)).Some?
    ensures var w := DecodeJson(EncodeJson(ToWire(s)).value);
      && w.Some?
      && w.value == ToWire(if s.hashes == Some([]) then s.(hashes := None) else s)
  {
    hide Format, Encodable, Encode, ParseTime;
    ParseTimeOfFormat(s.createdAt);
    ParseTimeOfFormat(s.upstreamAt);
    var none: seq<Hash> := [];
    assert HexLines(none) == [];
  }

  lemma ToWireInjective(s: Snapshot, t: Snapshot)
    requires ToWire(s) == ToWire(t)
    ensures s == t
  {
    if s.hashes.Some? {
      UnhexLines(s.hashes.value);
      UnhexLines(t.hashes.value);
    }
  }

  /** Marshalling and unmarshalling through the JSON layer restores the snapshot. */
  method SendAndReceive(sent: SnapshotCell, received: SnapshotCell) returns (ok: bool)
    requires sent != received && EncodeJson(ToWire(sent.value)).Some?
    modifies received
    ensures ok
    ensures received.value == if sent.value.hashes == Some([]) then sent.value.(hashes := None) else sent.value
  {
    var w := sent.MarshalJSON();
    var s := if sent.value.hashes == Some([]) then sent.value.(hashes := None) else sent.value;
    WireRoundTrip(sent.value);
    var arrived := ToWire(s);
    assert DecodeJson(EncodeJson(w).value) == Some(arrived);
    forall i | 0 <= i < |Elements(arrived.hashesHex)|
      ensures ParseHashHex(Elements(arrived.hashesHex)[i]).Ok?
    {
      ParseEncoded(s.hashes.value[i]);
    }
    ok := received.UnmarshalJSON(arrived);
    LowerHexLines(Elements(s.hashes));
    assert HexLines(Elements(received.value.hashes)) == HexLines(Elements(s.hashes));
    assert ToWire(received.value) == ToWire(s);
    ToWireInjective(received.value, s);
  }

  // ----- signatures -----

  /** Ed25519 as far as the payload is concerned: what verifies was signed, and one signature fits one payload. */
  datatype Scheme<!Key(!new)> = Scheme(sign: (Key, string) -> seq<bv8>, verify: (Key, string, seq<bv8>) -> bool)
  {
    ghost predicate Sound() {
      && (forall k, m :: sign(k, m) != [] && verify(k, m, sign(k, m)))
      && (forall k, m, n, sig :: verify(k, m, sig) && verify(k, n, sig) ==> m == n)
    }
  }

  function Signed<Key(!new)>(scheme: Scheme<Key>, key: Key, keyID: string, s: Snapshot): Snapshot {
    s.(signature := Some(scheme.sign(key, Payload(s.id, Elements(s.hashes), s.createdAt))), signingKeyID := keyID)
  }

  /** `Verify` in Go. */
  predicate GoVerifies<Key(!new)>(scheme: Scheme<Key>, key: Key, s: Snapshot) {
    Elements(s.signature) != [] && scheme.verify(key, Payload(s.id, Elements(s.hashes), s.createdAt), Elements(s.signature))
  }

  /** `verifySnapshotSignature` in the SDK. */
  ghost predicate SdkVerifies<Key(!new)>(scheme: Scheme<Key>, key: Key, j: Json) {
    && Elements(j.signature) != []
    && SnapshotSigningPayload(j).Some?
    && scheme.verify(key, SnapshotSigningPayload(j).value, Elements(j.signature))
  }

  /** Both sides accept what the service signed, and they agree on every snapshot that encodes. */
  lemma BothVerify<Key(!new)>(scheme: Scheme<Key>, key: Key, keyID: string, s: Snapshot)
    requires scheme.Sound() && EncodeJson(ToWire(s)).Some?
    ensures GoVerifies(scheme, key, s) <==> SdkVerifies(scheme, key, EncodeJson(ToWire(s)).value)
    ensures var t := Signed(scheme, key, keyID, s);
      GoVerifies(scheme, key, t) && SdkVerifies(scheme, key, EncodeJson(ToWire(t)).value)
  {
    SdkPayloadAgrees(s);
    SdkPayloadAgrees(Signed(scheme, key, keyID, s));
  }

  /** Moving a valid signature to another snapshot is accepted exactly when the signed content is the same. */
  lemma SignatureBinds<Key(!new)>(scheme: Scheme<Key>, key: Key, s: Snapshot, t: Snapshot)
    requires scheme.Sound() && GoVerifies(scheme, key, s) && t.signature == s.signature
    ensures GoVerifies(scheme, key, t) <==>
      && Unix(s.createdAt) == Unix(t.createdAt)
      && (SameContent(s.id, Elements(s.hashes), t.id, Elements(t.hashes))
          || Absorbs(s.id, Elements(s.hashes), t.id, Elements(t.hashes))
          || Absorbs(t.id, Elements(t.hashes), s.id, Elements(s.hashes)))
    ensures '\n' !in s.id && '\n' !in t.id ==>
      (GoVerifies(scheme, key, t) <==>
        SameContent(s.id, Elements(s.hashes), t.id, Elements(t.hashes)) && Unix(s.createdAt) == Unix(t.createdAt))
  {
    PayloadCollision(s.id, Elements(s.hashes), s.createdAt, t.id, Elements(t.hashes), t.createdAt);
    if '\n' !in s.id && '\n' !in t.id {
      PayloadCanonical(s.id, Elements(s.hashes), s.createdAt, t.id, Elements(t.hashes), t.createdAt);
    }
  }
}
