/** The user-based security model: trishul_snmp/security/usm.py. */
module Usm {
  import opened Wrappers
  import opened Octets
  import opened Ber
  import opened Asn1
  import opened Pdus
  import opened V3Messages

  datatype AuthProtocol = NoAuth | Md5 | Sha1 | Sha256

  datatype PrivProtocol = NoPriv | Des | Aes128

  datatype Engine = Engine(engineId: Bytes, boots: int, time: int)

  datatype User = User(username: Bytes, authProtocol: AuthProtocol, authKey: Bytes, authKeyLocalized: bool,
                       privProtocol: PrivProtocol, privKey: Bytes)

  /** The primitives the program takes from hashlib, hmac and cryptography. */
  datatype Crypto = Crypto(
    localize: (AuthProtocol, Bytes, Bytes) -> Bytes,
    mac: (AuthProtocol, Bytes, Bytes) -> Bytes,
    encrypt: (Bytes, Bytes, Bytes) -> Bytes,
    decrypt: (Bytes, Bytes, Bytes) -> Bytes)

  /** All that is asked of them: a MAC is long enough to be cut to 12 octets and a localised key to
      16, and a stream cipher keeps the length and is undone under the same key and initialisation
      vector, both of 16 octets. */
  ghost predicate Sound(c: Crypto) {
    && (forall p: AuthProtocol, k: Bytes, m: Bytes :: |Mac(c, p, k, m)| >= AUTH_TAG_LEN)
    && (forall p: AuthProtocol, k: Bytes, e: Bytes :: |Localize(c, p, k, e)| >= AES_BLOCK)
    && (forall k: Bytes, iv: Bytes, x: Bytes :: |k| == |iv| == AES_BLOCK ==>
          Decrypt(c, k, iv, Encrypt(c, k, iv, x)) == x)
    && (forall k: Bytes, iv: Bytes, x: Bytes :: |k| == |iv| == AES_BLOCK ==> |Encrypt(c, k, iv, x)| == |x|)
  }

  function Localize(c: Crypto, p: AuthProtocol, key: Bytes, engineId: Bytes): Bytes { c.localize(p, key, engineId) }

  function Mac(c: Crypto, p: AuthProtocol, key: Bytes, msg: Bytes): Bytes { c.mac(p, key, msg) }

  function Encrypt(c: Crypto, key: Bytes, iv: Bytes, x: Bytes): Bytes { c.encrypt(key, iv, x) }

  function Decrypt(c: Crypto, key: Bytes, iv: Bytes, x: Bytes): Bytes { c.decrypt(key, iv, x) }

  const AUTH_TAG_LEN: nat := 12
  const AES_BLOCK: nat := 16
  const MAX_MSG_SIZE := 65507
  const REPORT: Octet := 0xA8
  const ZERO_TAG: Bytes := [0, 0, 0, 0, 0, 0, 0, 0, 0, 0, 0, 0]

  /** The eight random octets drawn for one encryption. */
  type Salt = s: Bytes | |s| == 8 witness [0, 0, 0, 0, 0, 0, 0, 0]

  // Python slices, which clamp

  function Take(s: Bytes, n: nat): Bytes {
    if n > |s| then s else s[..n]
  }

  function Drop(s: Bytes, n: nat): Bytes {
    if n > |s| then [] else s[n..]
  }

  /** `raw[:offset] + tag + raw[offset + 12:]` */
  function ReplaceTag(raw: Bytes, offset: nat, tag: Bytes): Bytes {
    Take(raw, offset) + tag + Drop(raw, offset + AUTH_TAG_LEN)
  }

  // Authentication

  predicate AuthEnabled(user: User) { user.authProtocol != NoAuth }

  predicate PrivEnabled(user: User) { user.privProtocol != NoPriv }

  function HmacKey(c: Crypto, user: User, engineId: Bytes): Bytes {
    if user.authKey == [] then []
    else if user.authKeyLocalized then user.authKey
    else Localize(c, user.authProtocol, user.authKey, engineId)
  }

  function ComputeTag(c: Crypto, user: User, msg: Bytes, engineId: Bytes): Outcome<Bytes> {
    if user.authProtocol == NoAuth then Failure(ProtocolError)
    else Success(Take(Mac(c, user.authProtocol, HmacKey(c, user, engineId), msg), AUTH_TAG_LEN))
  }

  function Stamp(c: Crypto, user: User, raw: Bytes, engineId: Bytes): Outcome<Bytes> {
    var tag :- ComputeTag(c, user, raw, engineId);
    var view :- DecodeV3(raw);
    Success(ReplaceTag(raw, view.authOffset, tag))
  }

  function VerifyTag(c: Crypto, user: User, raw: Bytes, offset: nat, received: Bytes, engineId: Bytes): Outcome<Unit> {
    var expected :- ComputeTag(c, user, ReplaceTag(raw, offset, ZERO_TAG), engineId);
    if expected == Take(received, AUTH_TAG_LEN) then Success(Unit) else Failure(AuthenticationError)
  }

  // Privacy

  function PrivKey(c: Crypto, user: User, engineId: Bytes): Outcome<Bytes> {
    if user.privKey == [] then Failure(ProtocolError)
    else if user.authProtocol == NoAuth then Failure(ProtocolError)
    else Success(Take(Localize(c, user.authProtocol, user.privKey, engineId), 16))
  }

  /** `struct.pack(">I", n)` */
  function PackU32(n: int): Outcome<Bytes> {
    if 0 <= n < 0x1_0000_0000 then Success(ToBytes(n, 4)) else Failure(StructError)
  }

  function Iv(boots: int, time: int, salt: Bytes): Outcome<Bytes> {
    var b :- PackU32(boots);
    var t :- PackU32(time);
    Success(b + t + salt)
  }

  /** The privacy parameters and the encryptedPDU. */
  function EncryptScoped(c: Crypto, user: User, engine: Engine, scoped: Bytes, salt: Salt): Outcome<(Bytes, Bytes)> {
    if user.privProtocol != Aes128 then Failure(ProtocolError)
    else
      var key :- PrivKey(c, user, engine.engineId);
      var iv :- Iv(engine.boots, engine.time, salt);
      Success((salt, EncodeTlv(OCTET_STRING, Encrypt(c, key, iv, scoped))))
  }

  function DecryptScoped(c: Crypto, user: User, msgData: Bytes, usm: UsmParams): Outcome<Bytes> {
    if user.privProtocol != Aes128 then Failure(ProtocolError)
    else
      var t :- DecodeTlv(msgData, 0);
      if t.tag != OCTET_STRING || |usm.privParams| != 8 then Failure(ProtocolError)
      else
        var key :- PrivKey(c, user, usm.engineId);
        var iv :- Iv(usm.engineBoots, usm.engineTime, usm.privParams);
        Success(Decrypt(c, key, iv, t.content))
  }

  // Sealing and opening

  function MsgFlags(user: User, t: PduType): Octet {
    (if t == SnmpV2Trap || t == Response then 0 else 4)
    + (if AuthEnabled(user) then 1 else 0)
    + (if PrivEnabled(user) then 2 else 0)
  }

  predicate LevelMatches(flags: Octet, user: User) {
    (AuthFlag(flags) <==> AuthEnabled(user)) && (PrivFlag(flags) <==> PrivEnabled(user))
  }

  function SecurityParams(user: User, engine: Engine, flags: Octet, privParams: Bytes): UsmParams {
    UsmParams(engine.engineId, engine.boots, engine.time, user.username,
              if AuthFlag(flags) then ZERO_TAG else [], privParams)
  }

  /** What an encrypted or plain ScopedPDU is turned into before framing. */
  function Protected(c: Crypto, user: User, engine: Engine, flags: Octet, scoped: Bytes, salt: Salt)
    : Outcome<(Bytes, Bytes)>
  {
    if PrivFlag(flags) then EncryptScoped(c, user, engine, scoped, salt) else Success(([], scoped))
  }

  /** Encrypts, frames and authenticates a ScopedPDU at the level the flags say. */
  function SealScoped(c: Crypto, user: User, engine: Engine, flags: Octet, msgId: int, scoped: Bytes, salt: Salt)
    : Outcome<Bytes>
  {
    var (privParams, msgData) :- Protected(c, user, engine, flags, scoped, salt);
    var raw := EncodeV3(msgId, MAX_MSG_SIZE, flags, SecurityParams(user, engine, flags, privParams), msgData);
    if AuthFlag(flags) then Stamp(c, user, raw, engine.engineId) else Success(raw)
  }

  function Seal(c: Crypto, user: User, engine: Engine, contextName: Bytes, msgId: int, pdu: Pdu, salt: Salt)
    : Outcome<Bytes>
  {
    var scoped :- EncodeScopedPdu(engine.engineId, contextName, pdu);
    SealScoped(c, user, engine, MsgFlags(user, pdu.pduType), msgId, scoped, salt)
  }

  /** `unwrap_message`: `None` for messages of another user or engine. */
  function Open(c: Crypto, user: User, peerEngineId: Bytes, data: Bytes): Outcome<Option<Pdu>> {
    var decoded := DecodeV3(data);
    if decoded.Failure? then Success(None)
    else
      var view := decoded.value;
      if view.usm.username != user.username then Success(None)
      else if peerEngineId != [] && view.usm.engineId != peerEngineId then Success(None)
      else
        var _ :- if AuthEnabled(user)
                 then VerifyTag(c, user, data, view.authOffset, view.usm.authParams, view.usm.engineId)
                 else Success(Unit);
        var msgData :- if PrivEnabled(user) then DecryptScoped(c, user, view.msgData, view.usm)
                       else Success(view.msgData);
        var scoped := DecodeScopedPdu(msgData);
        Success(if scoped.Failure? then None else Some(scoped.value.2))
  }

  // Discovery

  const DISCOVERY_OID: seq<int> := [1, 3, 6, 1, 6, 3, 15, 1, 1, 4, 0]

  function ProbePdu(id: int): Pdu {
    Pdu(GetRequest, Body(id, 0, 0, [RawVarBind(DISCOVERY_OID, NullValue)]))
  }

  const NO_PARAMS := UsmParams([], 0, 0, [], [], [])

  function Probe(id: int): Outcome<Bytes> {
    var scoped :- EncodeScopedPdu([], [], ProbePdu(id));
    Success(EncodeV3(id, MAX_MSG_SIZE, 4, NO_PARAMS, scoped))
  }

  /** Accepts only a REPORT, with a well-formed body and a non-empty engine id. */
  function ParseDiscovery(data: Bytes): (r: Outcome<Engine>)
    ensures r.Failure? ==> r.error == ProtocolError
  {
    var view :- DecodeV3(data);
    var scoped :- DecodeScopedFields(view.msgData);
    var _ :- DecodeBody(scoped.content);
    if scoped.tag != REPORT || view.usm.engineId == [] then Failure(ProtocolError)
    else Success(Engine(view.usm.engineId, view.usm.engineBoots, view.usm.engineTime))
  }

  function SelectEngine(t: PduType, localEngine: Option<Engine>, peer: Engine): Outcome<Engine> {
    if t == SnmpV2Trap then (if localEngine.None? then Failure(ProtocolError) else Success(localEngine.value))
    else Success(peer)
  }

  /** Discovery takes nothing from a message that carries a PDU of an ordinary exchange. */
  lemma OnlyReportsAreParsed(data: Bytes)
    requires DecodeV3(data).Success? && DecodeScopedPdu(DecodeV3(data).value.msgData).Success?
    ensures ParseDiscovery(data) == Failure(ProtocolError)
  {
    hide DecodeV3, DecodeScopedFields, DecodeTlv, DecodeBody;
    var s := DecodeScopedFields(DecodeV3(data).value.msgData).value;
    TagKept(s.tag, s.content);
  }

  /** Discovery takes exactly REPORTs with a well-formed body and a non-empty engine id, and from them the
      engine they come from. */
  lemma DiscoveryExactly(data: Bytes, engine: Engine)
    ensures ParseDiscovery(data) == Success(engine)
       <==> && DecodeV3(data).Success?
            && var v := DecodeV3(data).value;
            && engine == Engine(v.usm.engineId, v.usm.engineBoots, v.usm.engineTime) && engine.engineId != []
            && var scoped := DecodeScopedFields(v.msgData);
            && scoped.Success? && scoped.value.tag == 0xA8 && DecodeBody(scoped.value.content).Success?
  {
    hide DecodeV3, DecodeScopedFields, DecodeBody;
  }

  lemma TagKept(tag: Octet, content: Bytes)
    requires DecodePdu(EncodeTlv(tag, content)).Success?
    ensures TypeOfTag(tag).Some?
  {
  }

  class UsmModel {
    const crypto: Crypto
    const user: User
    const contextName: Bytes
    const localEngine: Option<Engine>
    var peerEngineId: Bytes
    var peerEngineBoots: int
    var peerEngineTime: int
    var msgIdCounter: nat

    constructor (crypto: Crypto, user: User, contextName: Bytes, localEngine: Option<Engine>)
      ensures this.crypto == crypto && this.user == user
      ensures this.contextName == contextName && this.localEngine == localEngine
      ensures Peer() == Engine([], 0, 0) && msgIdCounter == 0
    {
      this.crypto, this.user, this.contextName, this.localEngine := crypto, user, contextName, localEngine;
      peerEngineId, peerEngineBoots, peerEngineTime, msgIdCounter := [], 0, 0, 0;
    }

    function Peer(): Engine
      reads this
    {
      Engine(peerEngineId, peerEngineBoots, peerEngineTime)
    }

    /** Every message gets a fresh message id; only a trap without a local engine gets none. */
    method WrapPdu(pdu: Pdu, salt: Salt) returns (r: Outcome<Bytes>)
      modifies this`msgIdCounter
      ensures pdu.pduType == SnmpV2Trap && localEngine.None? ==>
                r == Failure(ProtocolError) && msgIdCounter == old(msgIdCounter)
      ensures pdu.pduType == SnmpV2Trap && localEngine.Some? ==>
                && msgIdCounter == old(msgIdCounter) + 1
                && r == Seal(crypto, user, localEngine.value, contextName, msgIdCounter, pdu, salt)
      ensures pdu.pduType != SnmpV2Trap ==>
                && msgIdCounter == old(msgIdCounter) + 1
                && r == Seal(crypto, user, Engine(peerEngineId, peerEngineBoots, peerEngineTime), contextName,
                             msgIdCounter, pdu, salt)
    {
      var engine := SelectEngine(pdu.pduType, localEngine, Peer());
      if engine.Failure? {
        return Failure(engine.error);
      }
      msgIdCounter := msgIdCounter + 1;
      r := Seal(crypto, user, engine.value, contextName, msgIdCounter, pdu, salt);
    }

    /** A PDU comes out exactly of messages in the user's name, from the discovered engine if there is one,
        authentic if the user has authentication, and protecting a ScopedPDU that holds it. */
    method UnwrapMessage(data: Bytes) returns (r: Outcome<Option<Pdu>>)
      ensures r == Open(crypto, user, peerEngineId, data)
      ensures Sound(crypto) ==>
                forall pdu :: r == Success(Some(pdu)) <==> Holds(crypto, user, peerEngineId, data, pdu)
    {
      hide Sound, Open, Holds, DecodeV3;
      if Sound(crypto) {
        forall pdu
          ensures Open(crypto, user, peerEngineId, data) == Success(Some(pdu))
             <==> Holds(crypto, user, peerEngineId, data, pdu)
        {
          OpenExactly(crypto, user, peerEngineId, data, pdu);
        }
      }
      r := Open(crypto, user, peerEngineId, data);
    }

    method BuildDiscoveryProbe() returns (r: Outcome<Bytes>)
      modifies this`msgIdCounter
      ensures msgIdCounter == old(msgIdCounter) + 1
      ensures r == Probe(msgIdCounter)
    {
      msgIdCounter := msgIdCounter + 1;
      r := Probe(msgIdCounter);
    }

    /** The peer engine changes only when a REPORT was accepted, and then to what the REPORT says. */
    method ParseDiscoveryResponse(data: Bytes) returns (r: Outcome<Unit>)
      modifies this`peerEngineId, this`peerEngineBoots, this`peerEngineTime
      ensures var parsed := ParseDiscovery(data);
              if parsed.Failure? then r == Failure(parsed.error) && Peer() == old(Peer())
              else r == Success(Unit) && Peer() == parsed.value
    {
      var parsed := ParseDiscovery(data);
      if parsed.Failure? {
        return Failure(parsed.error);
      }
      peerEngineId, peerEngineBoots, peerEngineTime := parsed.value.engineId, parsed.value.boots, parsed.value.time;
      return Success(Unit);
    }
  }

  /** The assumptions can be met. */
  lemma SoundIsSatisfiable()
    ensures exists c: Crypto :: Sound(c)
  {
    var c := Crypto((_, _, _) => IDLE_KEY, (_, _, _) => ZERO_TAG, (_, _, x) => x, (_, _, x) => x);
    assert Sound(c);
  }

  const IDLE_KEY: Bytes := [0, 0, 0, 0, 0, 0, 0, 0, 0, 0, 0, 0, 0, 0, 0, 0]

  // Authenticity

  lemma ReplaceIsSplice(raw: Bytes, offset: nat, tag: Bytes)
    requires |tag| == AUTH_TAG_LEN && offset + AUTH_TAG_LEN <= |raw|
    ensures ReplaceTag(raw, offset, tag) == Splice(raw, offset, tag)
  {
  }

  lemma TagLength(c: Crypto, user: User, msg: Bytes, engineId: Bytes)
    requires Sound(c) && AuthEnabled(user)
    ensures ComputeTag(c, user, msg, engineId).Success?
    ensures |ComputeTag(c, user, msg, engineId).value| == AUTH_TAG_LEN
  {
  }

  /** Stamping a message whose field starts with 12 zeros: the result is read like the original except
      for those 12 octets, zeroing them gives back the very octets that were authenticated, and the
      receiver's check passes. */
  lemma StampVerifies(c: Crypto, user: User, raw: Bytes, engineId: Bytes)
    requires Sound(c) && AuthEnabled(user)
    requires DecodeV3(raw).Success? && ZERO_TAG <= DecodeV3(raw).value.usm.authParams
    ensures var v := DecodeV3(raw).value;
            var stamped := Stamp(c, user, raw, engineId);
            var tag := ComputeTag(c, user, raw, engineId);
            && tag.Success? && |tag.value| == AUTH_TAG_LEN
            && stamped.Success? && |stamped.value| == |raw|
            && var field := tag.value + v.usm.authParams[AUTH_TAG_LEN..];
            && DecodeV3(stamped.value) == Success(v.(usm := v.usm.(authParams := field)))
            && ReplaceTag(stamped.value, v.authOffset, ZERO_TAG) == raw
            && VerifyTag(c, user, stamped.value, v.authOffset, field, engineId) == Success(Unit)
  {
    hide DecodeV3, ComputeTag, Splice, Sound, ReplaceTag, At;
    TagLength(c, user, raw, engineId);
    var v := DecodeV3(raw).value;
    var field := v.usm.authParams;
    var tag := ComputeTag(c, user, raw, engineId).value;
    OffsetPointsAtAuthParams(raw);
    assert field == ZERO_TAG + field[AUTH_TAG_LEN..];
    AtSplit(raw, v.authOffset, ZERO_TAG, field[AUTH_TAG_LEN..]);
    ReplaceIsSplice(raw, v.authOffset, tag);
    ParseStability(raw, 0, tag);
    assert Splice(field, 0, tag) == tag + field[AUTH_TAG_LEN..];
    var stamped := Splice(raw, v.authOffset, tag);
    ReplaceIsSplice(stamped, v.authOffset, ZERO_TAG);
    Restored(raw, v.authOffset, ZERO_TAG, tag);
  }

  lemma Restored(raw: Bytes, p: nat, x: Bytes, y: Bytes)
    requires At(raw, p, x) && |y| == |x|
    ensures Splice(Splice(raw, p, y), p, x) == raw
  {
    assert forall i :: p <= i < p + |x| ==> raw[i] == raw[p..p + |x|][i - p];
  }

  lemma Overwritten(data: Bytes, p: nat, x: Bytes, y: Bytes)
    requires p + |x| <= |data| && |y| == |x|
    ensures Splice(Splice(data, p, x), p, y) == data <==> At(data, p, y)
  {
    var twice := Splice(Splice(data, p, x), p, y);
    assert twice[p..p + |y|] == y;
    if At(data, p, y) {
      forall i | 0 <= i < |data|
        ensures twice[i] == data[i]
      {
        assert p <= i < p + |y| ==> data[i] == data[p..p + |y|][i - p];
      }
    }
  }

  /** The receiver's check passes exactly on the messages that have room for a tag and that stamping
      produces: zeroing the first 12 octets of the field and stamping again gives back the message. */
  lemma AuthenticExactly(c: Crypto, user: User, data: Bytes)
    requires Sound(c) && AuthEnabled(user)
    requires DecodeV3(data).Success?
    ensures var v := DecodeV3(data).value;
            VerifyTag(c, user, data, v.authOffset, v.usm.authParams, v.usm.engineId).Success?
            <==> && |v.usm.authParams| >= AUTH_TAG_LEN
                 && Stamp(c, user, ReplaceTag(data, v.authOffset, ZERO_TAG), v.usm.engineId) == Success(data)
  {
    hide DecodeV3, ComputeTag, ReplaceTag, Splice, Sound;
    var v := DecodeV3(data).value;
    var field := v.usm.authParams;
    var zeroed := ReplaceTag(data, v.authOffset, ZERO_TAG);
    TagLength(c, user, zeroed, v.usm.engineId);
    if |field| >= AUTH_TAG_LEN {
      OffsetPointsAtAuthParams(data);
      assert field == field[..AUTH_TAG_LEN] + field[AUTH_TAG_LEN..];
      AtSplit(data, v.authOffset, field[..AUTH_TAG_LEN], field[AUTH_TAG_LEN..]);
      ReplaceIsSplice(data, v.authOffset, ZERO_TAG);
      ParseStability(data, 0, ZERO_TAG);
      var tag := ComputeTag(c, user, zeroed, v.usm.engineId).value;
      ReplaceIsSplice(zeroed, v.authOffset, tag);
      Overwritten(data, v.authOffset, ZERO_TAG, tag);
    }
  }

  /** Section 6.3.2 of RFC 3414, spelled out: the 12 octets at `offset` are the first of the MAC of the whole
      message with those 12 octets zeroed, under the user's key for the engine. */
  predicate Authentic(c: Crypto, user: User, data: Bytes, offset: nat, engineId: Bytes) {
    && offset + 12 <= |data|
    && var zeroed := data[..offset] + [0, 0, 0, 0, 0, 0, 0, 0, 0, 0, 0, 0] + data[offset + 12..];
    var key := if user.authKey == [] then []
               else if user.authKeyLocalized then user.authKey
               else c.localize(user.authProtocol, user.authKey, engineId);
    data[offset..offset + 12] <= c.mac(user.authProtocol, key, zeroed)
  }

  /** The receiver's check passes exactly on authentic messages, for fields of every length. */
  lemma CheckIsMac(c: Crypto, user: User, data: Bytes)
    requires Sound(c) && AuthEnabled(user)
    requires DecodeV3(data).Success?
    ensures var v := DecodeV3(data).value;
            VerifyTag(c, user, data, v.authOffset, v.usm.authParams, v.usm.engineId).Success?
            <==> |v.usm.authParams| >= 12 && Authentic(c, user, data, v.authOffset, v.usm.engineId)
  {
    hide DecodeV3, Sound;
    var v := DecodeV3(data).value;
    var field := v.usm.authParams;
    OffsetPointsAtAuthParams(data);
    var zeroed := ReplaceTag(data, v.authOffset, ZERO_TAG);
    TagLength(c, user, zeroed, v.usm.engineId);
    if |field| >= 12 {
      assert zeroed == data[..v.authOffset] + [0, 0, 0, 0, 0, 0, 0, 0, 0, 0, 0, 0] + data[v.authOffset + 12..];
      assert data[v.authOffset..v.authOffset + 12] == field[..12] by {
        assert field[..12] == data[v.authOffset..v.authOffset + |field|][..12];
      }
      MacIsLong(c, user.authProtocol, HmacKey(c, user, v.usm.engineId), zeroed);
    }
  }

  lemma MacIsLong(c: Crypto, p: AuthProtocol, key: Bytes, msg: Bytes)
    requires Sound(c)
    ensures |c.mac(p, key, msg)| >= 12
  {
    assert |Mac(c, p, key, msg)| >= AUTH_TAG_LEN;
  }

  /** Whatever is opened was sent in the user's name, by the engine the receiver is bound to if any,
      with an authentic tag if the user has authentication, and with an 8-octet salt and 32-bit boots
      and time if the user has privacy. */
  lemma OpenedIsAuthentic(c: Crypto, user: User, peerEngineId: Bytes, data: Bytes)
    requires Sound(c)
    requires Open(c, user, peerEngineId, data).Success? && Open(c, user, peerEngineId, data).value.Some?
    ensures DecodeV3(data).Success?
    ensures var v := DecodeV3(data).value;
            && v.usm.username == user.username
            && (peerEngineId != [] ==> v.usm.engineId == peerEngineId)
            && (AuthEnabled(user) ==>
                  && |v.usm.authParams| >= AUTH_TAG_LEN
                  && Authentic(c, user, data, v.authOffset, v.usm.engineId)
                  && Stamp(c, user, ReplaceTag(data, v.authOffset, ZERO_TAG), v.usm.engineId) == Success(data))
            && (PrivEnabled(user) ==>
                  && CanProtect(user, Engine(v.usm.engineId, v.usm.engineBoots, v.usm.engineTime))
                  && |v.usm.privParams| == 8)
  {
    hide DecodeV3, VerifyTag, DecodeTlv, DecodeScopedPdu, ReplaceTag, Stamp, Authentic, Sound;
    if AuthEnabled(user) {
      CheckIsMac(c, user, data);
      AuthenticExactly(c, user, data);
    }
  }

  /** The vector of section 3.1.2.1 of RFC 3826: boots, time and salt, 16 octets in all. */
  lemma IvLayout(boots: int, time: int, salt: Salt)
    ensures Iv(boots, time, salt).Success? <==> 0 <= boots < 0x1_0000_0000 && 0 <= time < 0x1_0000_0000
    ensures Iv(boots, time, salt).Success? ==>
              var iv := Iv(boots, time, salt).value;
              |iv| == 16 && FromBytes(iv[..4]) == boots && FromBytes(iv[4..8]) == time && iv[8..] == salt
  {
    hide ToBytes, FromBytes;
    assert Pow256(4) == 256 * Pow256(3) && Pow256(3) == 256 * Pow256(2) && Pow256(2) == 256 * Pow256(1)
           && Pow256(1) == 256 * Pow256(0);
    if Iv(boots, time, salt).Success? {
      ToBytesInverse(boots, 4);
      ToBytesInverse(time, 4);
      var iv := Iv(boots, time, salt).value;
      assert iv[..4] == ToBytes(boots, 4) && iv[4..8] == ToBytes(time, 4) && iv[8..] == salt;
    }
  }

  // Seal and open

  lemma ProtectedIsElement(c: Crypto, user: User, engine: Engine, flags: Octet, body: Bytes, salt: Salt)
    returns (content: Bytes)
    requires Protected(c, user, engine, flags, EncodeTlv(SEQUENCE, body), salt).Success?
    ensures Protected(c, user, engine, flags, EncodeTlv(SEQUENCE, body), salt).value.1
            == EncodeTlv(DataTag(flags), content)
  {
    hide EncodeTlv, PrivKey, Iv;
    if PrivFlag(flags) {
      var key, iv := PrivKey(c, user, engine.engineId).value, Iv(engine.boots, engine.time, salt).value;
      content := Encrypt(c, key, iv, EncodeTlv(SEQUENCE, body));
    } else {
      content := body;
    }
  }

  /** The message before it is stamped. */
  function Framed(user: User, engine: Engine, flags: Octet, msgId: int, protected: (Bytes, Bytes)): Bytes {
    EncodeV3(msgId, MAX_MSG_SIZE, flags, SecurityParams(user, engine, flags, protected.0), protected.1)
  }

  lemma SealedSize(c: Crypto, user: User, engine: Engine, flags: Octet, msgId: int, scoped: Bytes, salt: Salt)
    requires Sound(c)
    requires SealScoped(c, user, engine, flags, msgId, scoped, salt).Success?
    ensures Protected(c, user, engine, flags, scoped, salt).Success?
    ensures var sealed := SealScoped(c, user, engine, flags, msgId, scoped, salt).value;
            var protected := Protected(c, user, engine, flags, scoped, salt).value;
            |sealed| >= |Framed(user, engine, flags, msgId, protected)| >= |protected.1| >= |scoped|
  {
    hide DecodeV3, EncodeV3, EncodeTlv, Stamp, PrivKey, Iv;
    var p := Protected(c, user, engine, flags, scoped, salt).value;
    ProtectedSize(c, user, engine, flags, scoped, salt);
    var raw := Framed(user, engine, flags, msgId, p);
    V3Size(msgId, MAX_MSG_SIZE, flags, SecurityParams(user, engine, flags, p.0), p.1);
    if AuthFlag(flags) {
      StampedSize(c, user, raw, engine.engineId);
    }
  }

  /** Key and vector have the sizes AES-128 needs. */
  lemma KeyAndVector(c: Crypto, user: User, engine: Engine, salt: Salt)
    requires Sound(c)
    ensures PrivKey(c, user, engine.engineId).Success? ==> |PrivKey(c, user, engine.engineId).value| == AES_BLOCK
    ensures Iv(engine.boots, engine.time, salt).Success? ==> |Iv(engine.boots, engine.time, salt).value| == AES_BLOCK
  {
    hide Iv;
    IvLayout(engine.boots, engine.time, salt);
  }

  lemma ProtectedSize(c: Crypto, user: User, engine: Engine, flags: Octet, scoped: Bytes, salt: Salt)
    requires Sound(c)
    requires Protected(c, user, engine, flags, scoped, salt).Success?
    ensures |Protected(c, user, engine, flags, scoped, salt).value.1| >= |scoped|
  {
    hide PrivKey, Iv;
    KeyAndVector(c, user, engine, salt);
    if PrivFlag(flags) {
      var key, iv := PrivKey(c, user, engine.engineId).value, Iv(engine.boots, engine.time, salt).value;
      assert |Encrypt(c, key, iv, scoped)| == |scoped|;
    }
  }

  lemma StampedSize(c: Crypto, user: User, raw: Bytes, engineId: Bytes)
    requires Sound(c) && Stamp(c, user, raw, engineId).Success?
    ensures |Stamp(c, user, raw, engineId).value| >= |raw|
  {
    hide DecodeV3, HmacKey;
    var tag := ComputeTag(c, user, raw, engineId).value;
    assert |tag| == AUTH_TAG_LEN;
  }

  /** How a sealed message is read: every header field as sealed, the ScopedPDU recoverable, and the
      authentication check passing. */
  lemma SealedIsRead(c: Crypto, user: User, engine: Engine, flags: Octet, msgId: int, body: Bytes, salt: Salt)
    requires Sound(c) && LevelMatches(flags, user)
    requires SealScoped(c, user, engine, flags, msgId, EncodeTlv(SEQUENCE, body), salt).Success?
    requires Fits(|SealScoped(c, user, engine, flags, msgId, EncodeTlv(SEQUENCE, body), salt).value|)
    ensures var sealed := SealScoped(c, user, engine, flags, msgId, EncodeTlv(SEQUENCE, body), salt).value;
            && DecodeV3(sealed).Success?
            && var v := DecodeV3(sealed).value;
            && v.msgId == msgId && v.msgMaxSize == 65507 && v.flags == flags
            && v.usm.engineId == engine.engineId && v.usm.engineBoots == engine.boots && v.usm.engineTime == engine.time
            && v.usm.username == user.username
            && (AuthEnabled(user) ==>
                  && |v.usm.authParams| == AUTH_TAG_LEN
                  && VerifyTag(c, user, sealed, v.authOffset, v.usm.authParams, engine.engineId) == Success(Unit))
            && (!AuthEnabled(user) ==> v.usm.authParams == [])
            && v.usm.privParams == (if PrivEnabled(user) then salt else [])
            && (PrivEnabled(user) ==> DecryptScoped(c, user, v.msgData, v.usm) == Success(EncodeTlv(SEQUENCE, body)))
            && (!PrivEnabled(user) ==> v.msgData == EncodeTlv(SEQUENCE, body))
  {
    hide DecodeV3, EncodeV3, EncodeTlv, DecodeTlv, ComputeTag, VerifyTag, PrivKey, Iv, Fits, AuthFlag, PrivFlag;
    var scoped := EncodeTlv(SEQUENCE, body);
    SealedSize(c, user, engine, flags, msgId, scoped, salt);
    var content := ProtectedIsElement(c, user, engine, flags, body, salt);
    var p := Protected(c, user, engine, flags, scoped, salt).value;
    var raw := Framed(user, engine, flags, msgId, p);
    FitsMonotone(|raw|, |SealScoped(c, user, engine, flags, msgId, scoped, salt).value|);
    FitsMonotone(|p.1|, |raw|);
    V3RoundTrip(msgId, MAX_MSG_SIZE, flags, SecurityParams(user, engine, flags, p.0), content);
    if AuthFlag(flags) {
      StampVerifies(c, user, raw, engine.engineId);
    }
    if PrivFlag(flags) {
      DecryptUndoesEncrypt(c, user, engine, scoped, salt, DecodeV3(raw).value.usm);
    }
  }

  /** Whatever is sealed for a user with authentication is authentic, its field exactly as long as a tag. */
  lemma SealedIsAuthentic(c: Crypto, user: User, engine: Engine, flags: Octet, msgId: int, body: Bytes, salt: Salt)
    requires Sound(c) && LevelMatches(flags, user) && AuthEnabled(user)
    requires SealScoped(c, user, engine, flags, msgId, EncodeTlv(SEQUENCE, body), salt).Success?
    requires Fits(|SealScoped(c, user, engine, flags, msgId, EncodeTlv(SEQUENCE, body), salt).value|)
    ensures var sealed := SealScoped(c, user, engine, flags, msgId, EncodeTlv(SEQUENCE, body), salt).value;
            && DecodeV3(sealed).Success?
            && |DecodeV3(sealed).value.usm.authParams| == 12
            && Authentic(c, user, sealed, DecodeV3(sealed).value.authOffset, engine.engineId)
  {
    hide SealScoped, DecodeV3, VerifyTag, Authentic, Sound, EncodeTlv, DecryptScoped, LevelMatches, Fits;
    SealedIsRead(c, user, engine, flags, msgId, body, salt);
    CheckIsMac(c, user, SealScoped(c, user, engine, flags, msgId, EncodeTlv(SEQUENCE, body), salt).value);
  }

  /** The initialisation vector: boots, time and salt, most significant octet first. */
  predicate IsVector(iv: Bytes, boots: int, time: int, salt: Bytes) {
    |iv| == 16 && FromBytes(iv[..4]) == boots && FromBytes(iv[4..8]) == time && iv[8..] == salt
  }

  lemma OneVector(a: Bytes, b: Bytes, boots: int, time: int, salt: Bytes)
    requires IsVector(a, boots, time, salt) && IsVector(b, boots, time, salt)
    ensures a == b
  {
    hide FromBytes, ToBytes;
    FromBytesInverse(a[..4]);
    FromBytesInverse(b[..4]);
    FromBytesInverse(a[4..8]);
    FromBytesInverse(b[4..8]);
    assert a == a[..4] + a[4..8] + a[8..] && b == b[..4] + b[4..8] + b[8..];
  }

  /** Section 3.1.4 of RFC 3826, spelled out: `text` is what the message's data protects for the user. With
      privacy it is the decryption of the encryptedPDU under the user's localised privacy key cut to
      16 octets and the vector of the message's own boots, time and salt. */
  ghost predicate Protects(c: Crypto, user: User, v: View, text: Bytes) {
    if user.privProtocol == NoPriv then text == v.msgData
    else
      && user.privProtocol == Aes128 && user.privKey != [] && user.authProtocol != NoAuth
      && |v.usm.privParams| == 8
      && DecodeTlv(v.msgData, 0).Success? && DecodeTlv(v.msgData, 0).value.tag == 0x04
      && var key := c.localize(user.authProtocol, user.privKey, v.usm.engineId);
      && |key| >= 16
      && exists iv :: IsVector(iv, v.usm.engineBoots, v.usm.engineTime, v.usm.privParams)
                      && text == Decrypt(c, key[..16], iv, DecodeTlv(v.msgData, 0).value.content)
  }

  lemma DecryptsExactly(c: Crypto, user: User, v: View, text: Bytes)
    requires Sound(c)
    ensures var read := if PrivEnabled(user) then DecryptScoped(c, user, v.msgData, v.usm) else Success(v.msgData);
            read == Success(text) <==> Protects(c, user, v, text)
  {
    hide DecodeTlv;
    if user.privProtocol == Aes128 && user.privKey != [] && user.authProtocol != NoAuth && |v.usm.privParams| == 8 {
      var salt: Salt := v.usm.privParams;
      LocalizedIsLong(c, user.authProtocol, user.privKey, v.usm.engineId);
      IvLayout(v.usm.engineBoots, v.usm.engineTime, salt);
      var made := Iv(v.usm.engineBoots, v.usm.engineTime, salt);
      VectorRange(v.usm.engineBoots, v.usm.engineTime, salt);
      if made.Success? {
        forall iv | IsVector(iv, v.usm.engineBoots, v.usm.engineTime, salt)
          ensures iv == made.value
        {
          OneVector(iv, made.value, v.usm.engineBoots, v.usm.engineTime, salt);
        }
        assert IsVector(made.value, v.usm.engineBoots, v.usm.engineTime, salt);
      }
    }
  }

  /** Privacy fails with ProtocolError when it is not AES-128, or lacks a key or an authentication protocol, and
      otherwise with the error of `struct.pack`, for boots or time beyond 32 bits. */
  lemma EncryptErrors(c: Crypto, user: User, engine: Engine, scoped: Bytes, salt: Salt)
    ensures var r := EncryptScoped(c, user, engine, scoped, salt);
            r.Failure? ==>
              if user.privProtocol != Aes128 || user.privKey == [] || user.authProtocol == NoAuth
              then r.error == ProtocolError
              else r.error == StructError && !(0 <= engine.boots < 0x1_0000_0000 && 0 <= engine.time < 0x1_0000_0000)
  {
  }

  lemma VectorRange(boots: int, time: int, salt: Bytes)
    ensures (exists iv :: IsVector(iv, boots, time, salt)) ==> 0 <= boots < 0x1_0000_0000 && 0 <= time < 0x1_0000_0000
  {
    hide FromBytes;
    assert Pow256(4) == 256 * Pow256(3) && Pow256(3) == 256 * Pow256(2) && Pow256(2) == 256 * Pow256(1)
           && Pow256(1) == 256 * Pow256(0);
    forall iv | IsVector(iv, boots, time, salt)
      ensures 0 <= boots < 0x1_0000_0000 && 0 <= time < 0x1_0000_0000
    {
      FromBytesInverse(iv[..4]);
      FromBytesInverse(iv[4..8]);
    }
  }

  lemma LocalizedIsLong(c: Crypto, p: AuthProtocol, key: Bytes, engineId: Bytes)
    requires Sound(c)
    ensures |c.localize(p, key, engineId)| >= 16
  {
    assert |Localize(c, p, key, engineId)| >= AES_BLOCK;
  }

  /** Whatever is sealed with privacy is the encryption of the ScopedPDU under the user's localised privacy key
      cut to 16 octets, and the vector of the engine's boots and time and the salt that travels along. */
  lemma SealedIsEncrypted(c: Crypto, user: User, engine: Engine, flags: Octet, msgId: int, body: Bytes, salt: Salt)
    requires Sound(c) && LevelMatches(flags, user) && PrivEnabled(user)
    requires SealScoped(c, user, engine, flags, msgId, EncodeTlv(SEQUENCE, body), salt).Success?
    requires Fits(|SealScoped(c, user, engine, flags, msgId, EncodeTlv(SEQUENCE, body), salt).value|)
    ensures var sealed := SealScoped(c, user, engine, flags, msgId, EncodeTlv(SEQUENCE, body), salt).value;
            && DecodeV3(sealed).Success?
            && var v := DecodeV3(sealed).value;
            && v.usm.privParams == salt
            && var key := c.localize(user.authProtocol, user.privKey, engine.engineId);
            && |key| >= 16
            && exists iv :: IsVector(iv, engine.boots, engine.time, salt)
                 && v.msgData == EncodeTlv(0x04, Encrypt(c, key[..16], iv, EncodeTlv(SEQUENCE, body)))
  {
    hide DecodeV3, EncodeV3, EncodeTlv, DecodeTlv, ComputeTag, VerifyTag, Iv, Fits, AuthFlag, PrivFlag;
    var scoped := EncodeTlv(SEQUENCE, body);
    SealedSize(c, user, engine, flags, msgId, scoped, salt);
    var content := ProtectedIsElement(c, user, engine, flags, body, salt);
    var p := Protected(c, user, engine, flags, scoped, salt).value;
    var raw := Framed(user, engine, flags, msgId, p);
    FitsMonotone(|raw|, |SealScoped(c, user, engine, flags, msgId, scoped, salt).value|);
    V3RoundTrip(msgId, MAX_MSG_SIZE, flags, SecurityParams(user, engine, flags, p.0), content);
    if AuthFlag(flags) {
      StampVerifies(c, user, raw, engine.engineId);
    }
    LocalizedIsLong(c, user.authProtocol, user.privKey, engine.engineId);
    IvLayout(engine.boots, engine.time, salt);
    var iv := Iv(engine.boots, engine.time, salt).value;
    assert IsVector(iv, engine.boots, engine.time, salt);
  }

  /** The message is in the user's name, from the engine the receiver is bound to if any, and authentic if the
      user has authentication. */
  predicate MeantFor(c: Crypto, user: User, peerEngineId: Bytes, data: Bytes) {
    && DecodeV3(data).Success?
    && var v := DecodeV3(data).value;
    && v.usm.username == user.username
    && (peerEngineId != [] ==> v.usm.engineId == peerEngineId)
    && (user.authProtocol != NoAuth ==>
          |v.usm.authParams| >= 12 && Authentic(c, user, data, v.authOffset, v.usm.engineId))
  }

  /** The message is meant for the receiver and protects a ScopedPDU that holds the PDU. */
  ghost predicate Holds(c: Crypto, user: User, peerEngineId: Bytes, data: Bytes, pdu: Pdu) {
    && MeantFor(c, user, peerEngineId, data)
    && exists text :: Protects(c, user, DecodeV3(data).value, text)
                      && DecodeScopedPdu(text).Success? && DecodeScopedPdu(text).value.2 == pdu
  }

  /** A PDU is opened exactly if the message is meant for the receiver and protects a ScopedPDU that holds it;
      nothing is opened, and no error raised, exactly if it is malformed, in another name, from another
      engine, or protects no ScopedPDU; and authentication fails exactly if the rest is right but the MAC. */
  lemma OpenExactly(c: Crypto, user: User, peerEngineId: Bytes, data: Bytes, pdu: Pdu)
    requires Sound(c)
    ensures Open(c, user, peerEngineId, data) == Success(Some(pdu)) <==> Holds(c, user, peerEngineId, data, pdu)
    ensures Open(c, user, peerEngineId, data) == Success(None)
       <==> || DecodeV3(data).Failure?
            || DecodeV3(data).value.usm.username != user.username
            || (peerEngineId != [] && DecodeV3(data).value.usm.engineId != peerEngineId)
            || (MeantFor(c, user, peerEngineId, data)
                && exists text :: Protects(c, user, DecodeV3(data).value, text) && DecodeScopedPdu(text).Failure?)
    ensures Open(c, user, peerEngineId, data) == Failure(AuthenticationError)
       <==> && DecodeV3(data).Success?
            && DecodeV3(data).value.usm.username == user.username
            && (peerEngineId != [] ==> DecodeV3(data).value.usm.engineId == peerEngineId)
            && !MeantFor(c, user, peerEngineId, data)
  {
    hide DecodeV3, VerifyTag, DecryptScoped, DecodeScopedPdu, Authentic, Protects, Sound;
    if DecodeV3(data).Success? {
      var v := DecodeV3(data).value;
      if AuthEnabled(user) {
        CheckIsMac(c, user, data);
        CheckError(c, user, data, v.authOffset, v.usm.authParams, v.usm.engineId);
      }
      DecryptError(c, user, v);
      forall text
        ensures Protects(c, user, v, text)
           <==> (if PrivEnabled(user) then DecryptScoped(c, user, v.msgData, v.usm) else Success(v.msgData))
                == Success(text)
      {
        DecryptsExactly(c, user, v, text);
      }
    }
  }

  lemma CheckError(c: Crypto, user: User, data: Bytes, offset: nat, field: Bytes, engineId: Bytes)
    requires AuthEnabled(user)
    ensures var checked := VerifyTag(c, user, data, offset, field, engineId);
            checked.Failure? ==> checked.error == AuthenticationError
  {
  }

  lemma DecryptError(c: Crypto, user: User, v: View)
    ensures var read := DecryptScoped(c, user, v.msgData, v.usm);
            read.Failure? ==> read.error != AuthenticationError
  {
  }

  lemma DecryptUndoesEncrypt(c: Crypto, user: User, engine: Engine, scoped: Bytes, salt: Salt, usm: UsmParams)
    requires Sound(c)
    requires EncryptScoped(c, user, engine, scoped, salt).Success?
    requires usm.engineId == engine.engineId && usm.engineBoots == engine.boots && usm.engineTime == engine.time
    requires usm.privParams == salt
    ensures Fits(|EncryptScoped(c, user, engine, scoped, salt).value.1|) ==>
              DecryptScoped(c, user, EncryptScoped(c, user, engine, scoped, salt).value.1, usm) == Success(scoped)
  {
    hide DecodeTlv, EncodeTlv, PrivKey, Iv, Fits;
    var data := EncryptScoped(c, user, engine, scoped, salt).value.1;
    var key, iv := PrivKey(c, user, engine.engineId).value, Iv(engine.boots, engine.time, salt).value;
    KeyAndVector(c, user, engine, salt);
    if Fits(|data|) {
      FitsMonotone(|Encrypt(c, key, iv, scoped)|, |data|);
      WholeTlv(OCTET_STRING, Encrypt(c, key, iv, scoped));
    }
  }

  /** At every security level, what one side seals the other opens, whatever boots and time the receiver
      has cached: it returns the PDU in its normal form, which is the PDU itself exactly when every
      varbind is representable, unless the receiver is bound to another engine. */
  lemma OpenUndoesSeal(c: Crypto, user: User, engine: Engine, contextName: Bytes, msgId: int, pdu: Pdu, salt: Salt,
                       peerEngineId: Bytes)
    requires Sound(c)
    requires Seal(c, user, engine, contextName, msgId, pdu, salt).Success?
    requires Fits(|Seal(c, user, engine, contextName, msgId, pdu, salt).value|)
    ensures Open(c, user, peerEngineId, Seal(c, user, engine, contextName, msgId, pdu, salt).value)
            == Success(if peerEngineId != [] && peerEngineId != engine.engineId then None else Some(NormalPdu(pdu)))
    ensures NormalPdu(pdu) == pdu <==> RepresentableBody(pdu.body)
  {
    hide SealScoped, Open, EncodePdu, RepresentableBody, EncodableBody, NormalPdu;
    FlagsMatch(user, pdu.pduType);
    OpenUndoesSealScoped(c, user, engine, MsgFlags(user, pdu.pduType), engine.engineId, contextName, msgId, pdu, salt,
                         peerEngineId);
  }

  lemma FlagsMatch(user: User, t: PduType)
    ensures LevelMatches(MsgFlags(user, t), user)
    ensures ReportableFlag(MsgFlags(user, t)) <==> t != SnmpV2Trap && t != Response
    ensures MsgFlags(user, t) < 8
  {
  }

  lemma OpenUndoesSealScoped(c: Crypto, user: User, engine: Engine, flags: Octet, contextEngineId: Bytes,
                             contextName: Bytes, msgId: int, pdu: Pdu, salt: Salt, peerEngineId: Bytes)
    requires Sound(c) && LevelMatches(flags, user)
    requires EncodeScopedPdu(contextEngineId, contextName, pdu).Success?
    requires var scoped := EncodeScopedPdu(contextEngineId, contextName, pdu).value;
             && SealScoped(c, user, engine, flags, msgId, scoped, salt).Success?
             && Fits(|SealScoped(c, user, engine, flags, msgId, scoped, salt).value|)
    ensures var scoped := EncodeScopedPdu(contextEngineId, contextName, pdu).value;
            Open(c, user, peerEngineId, SealScoped(c, user, engine, flags, msgId, scoped, salt).value)
            == Success(if peerEngineId != [] && peerEngineId != engine.engineId then None else Some(NormalPdu(pdu)))
    ensures NormalPdu(pdu) == pdu <==> RepresentableBody(pdu.body)
  {
    hide DecodeV3, EncodeTlv, SealScoped, VerifyTag, DecryptScoped, DecodeScopedPdu, Fits, RepresentableBody,
      EncodableBody, NormalPdu, LevelMatches, EncodePdu;
    var scoped := EncodeScopedPdu(contextEngineId, contextName, pdu).value;
    var octets := EncodePdu(pdu).value;
    var body := EncodeTlv(OCTET_STRING, contextEngineId) + (EncodeTlv(OCTET_STRING, contextName) + octets);
    assert scoped == EncodeTlv(SEQUENCE, body);
    SealedIsRead(c, user, engine, flags, msgId, body, salt);
    SealedSize(c, user, engine, flags, msgId, scoped, salt);
    FitsMonotone(|scoped|, |SealScoped(c, user, engine, flags, msgId, scoped, salt).value|);
    ScopedPduRoundTrip(contextEngineId, contextName, pdu);
  }

  /** What encryption asks of the user and the engine. */
  predicate CanProtect(user: User, engine: Engine) {
    PrivEnabled(user) ==>
      && user.privProtocol == Aes128 && user.privKey != [] && AuthEnabled(user)
      && 0 <= engine.boots < 0x1_0000_0000 && 0 <= engine.time < 0x1_0000_0000
  }

  /** The frame of a protected ScopedPDU is short enough to be read back. */
  predicate FrameFits(c: Crypto, user: User, engine: Engine, flags: Octet, msgId: int, scoped: Bytes, salt: Salt) {
    var p := Protected(c, user, engine, flags, scoped, salt);
    p.Success? ==> Fits(|Framed(user, engine, flags, msgId, p.value)|)
  }

  lemma FramedLength(user: User, engine: Engine, f: Octet, g: Octet, msgId: int, x: (Bytes, Bytes), y: (Bytes, Bytes))
    requires AuthFlag(f) == AuthFlag(g) && |x.0| == |y.0| && |x.1| == |y.1|
    ensures |Framed(user, engine, f, msgId, x)| == |Framed(user, engine, g, msgId, y)|
  {
    hide EncodeV3, AuthFlag;
    V3Length(msgId, MAX_MSG_SIZE, f, g, SecurityParams(user, engine, f, x.0), SecurityParams(user, engine, g, y.0),
             x.1, y.1);
  }

  lemma ProtectedLength(c: Crypto, user: User, engine: Engine, f: Octet, g: Octet, x: Bytes, y: Bytes, salt: Salt,
                        other: Salt)
    requires Sound(c) && PrivFlag(f) == PrivFlag(g) && |x| == |y|
    requires Protected(c, user, engine, f, x, salt).Success?
    ensures var p, q := Protected(c, user, engine, f, x, salt), Protected(c, user, engine, g, y, other);
            q.Success? && |p.value.0| == |q.value.0| && |p.value.1| == |q.value.1|
  {
    hide EncodeTlv, PrivKey, Iv, PrivFlag;
    KeyAndVector(c, user, engine, salt);
    KeyAndVector(c, user, engine, other);
    IvLayout(engine.boots, engine.time, salt);
    IvLayout(engine.boots, engine.time, other);
    if PrivFlag(f) {
      var key := PrivKey(c, user, engine.engineId).value;
      var iv, jv := Iv(engine.boots, engine.time, salt).value, Iv(engine.boots, engine.time, other).value;
      assert |Encrypt(c, key, iv, x)| == |x| && |Encrypt(c, key, jv, y)| == |y|;
      TlvLength(OCTET_STRING, Encrypt(c, key, iv, x), OCTET_STRING, Encrypt(c, key, jv, y));
    }
  }

  /** Sealing succeeds exactly when every varbind is encodable and privacy is off, or AES-128 has a key, an
      authentication protocol to localise it with, and 32-bit boots and time for its vector. */
  lemma SealSucceedsExactly(c: Crypto, user: User, engine: Engine, flags: Octet, contextEngineId: Bytes,
                            contextName: Bytes, msgId: int, pdu: Pdu, salt: Salt)
    requires Sound(c) && LevelMatches(flags, user)
    ensures EncodeScopedPdu(contextEngineId, contextName, pdu).Success? <==> EncodableBody(pdu.body)
    ensures EncodableBody(pdu.body) ==>
              var scoped := EncodeScopedPdu(contextEngineId, contextName, pdu).value;
              FrameFits(c, user, engine, flags, msgId, scoped, salt) ==>
                && (SealScoped(c, user, engine, flags, msgId, scoped, salt).Success? <==> CanProtect(user, engine))
                && (CanProtect(user, engine) ==>
                      && Protected(c, user, engine, flags, scoped, salt).Success?
                      && |SealScoped(c, user, engine, flags, msgId, scoped, salt).value|
                         == |Framed(user, engine, flags, msgId, Protected(c, user, engine, flags, scoped, salt).value)|)
  {
    hide SealScoped, FrameFits, LevelMatches, Protected, Framed, CanProtect, EncodePdu, EncodableBody,
      RepresentableBody, DecodeScopedPdu, EncodeTlv;
    ScopedPduRoundTrip(contextEngineId, contextName, pdu);
    if EncodableBody(pdu.body)
       && FrameFits(c, user, engine, flags, msgId, EncodeScopedPdu(contextEngineId, contextName, pdu).value, salt) {
      var body := ScopedContent(contextEngineId, contextName, EncodePdu(pdu).value);
      ElementSealsExactly(c, user, engine, flags, msgId, body, salt);
    }
  }

  lemma ElementSealsExactly(c: Crypto, user: User, engine: Engine, flags: Octet, msgId: int, body: Bytes, salt: Salt)
    requires Sound(c) && LevelMatches(flags, user)
    requires FrameFits(c, user, engine, flags, msgId, EncodeTlv(SEQUENCE, body), salt)
    ensures var p := Protected(c, user, engine, flags, EncodeTlv(SEQUENCE, body), salt);
            var sealed := SealScoped(c, user, engine, flags, msgId, EncodeTlv(SEQUENCE, body), salt);
            && (p.Success? <==> CanProtect(user, engine)) && (sealed.Success? <==> CanProtect(user, engine))
            && (sealed.Success? ==> |sealed.value| == |Framed(user, engine, flags, msgId, p.value)|)
  {
    hide DecodeV3, EncodeV3, EncodeTlv, Fits, AuthFlag, PrivFlag, ToBytes, Stamp, ComputeTag, Sound;
    var p := Protected(c, user, engine, flags, EncodeTlv(SEQUENCE, body), salt);
    if p.Success? {
      var content := ProtectedIsElement(c, user, engine, flags, body, salt);
      V3RoundTrip(msgId, MAX_MSG_SIZE, flags, SecurityParams(user, engine, flags, p.value.0), content);
      if AuthFlag(flags) {
        StampVerifies(c, user, Framed(user, engine, flags, msgId, p.value), engine.engineId);
      }
    }
  }
}
