/** Building notifications and reading them back as events: trishul_snmp/notify/client.py and
    trishul_snmp/notify/events.py. */
module Notifications {
  import opened Wrappers
  import opened Octets
  import opened Ber
  import opened Oids
  import opened Asn1
  import opened Pdus
  import opened Messages
  import Text

  const SYS_UPTIME: Oid := [1, 3, 6, 1, 2, 1, 1, 3, 0]
  const SNMP_TRAP_OID: Oid := [1, 3, 6, 1, 6, 3, 1, 1, 4, 1, 0]

  predicate SetsUptime(vb: RawVarBind) {
    vb.oid == SYS_UPTIME && vb.value.TimeTicksValue?
  }

  predicate SetsTrapOid(vb: RawVarBind) {
    vb.oid == SNMP_TRAP_OID && vb.value.ObjectIdentifierValue?
  }

  predicate IsStandard(vb: RawVarBind) {
    vb.oid == SYS_UPTIME || vb.oid == SNMP_TRAP_OID
  }

  predicate IsOther(vb: RawVarBind) {
    vb.oid != SYS_UPTIME && vb.oid != SNMP_TRAP_OID
  }

  predicate IsExtra(vb: RawVarBind) {
    && !(vb.oid == SYS_UPTIME && vb.value.TimeTicksValue?)
    && !(vb.oid == SNMP_TRAP_OID && vb.value.ObjectIdentifierValue?)
  }

  /** How many of the first `k` varbinds are kept. */
  function Kept(vbs: seq<RawVarBind>, k: nat, keep: RawVarBind -> bool): (n: nat)
    requires k <= |vbs|
    ensures n <= k
  {
    if k == 0 then 0 else Kept(vbs, k - 1, keep) + if keep(vbs[k - 1]) then 1 else 0
  }

  lemma {:induction false} KeptOfPrefix(vbs: seq<RawVarBind>, m: nat, k: nat, keep: RawVarBind -> bool)
    requires k <= m <= |vbs|
    ensures Kept(vbs[..m], k, keep) == Kept(vbs, k, keep)
  {
    if k > 0 {
      KeptOfPrefix(vbs, m, k - 1, keep);
    }
  }

  // Building

  /** The last well-typed override, or else the argument. */
  function Uptime(explicit: seq<RawVarBind>, uptime: int): int {
    if explicit == [] then uptime
    else
      var last := explicit[|explicit| - 1];
      if SetsUptime(last) then last.value.ticks else Uptime(explicit[..|explicit| - 1], uptime)
  }

  function TrapOid(explicit: seq<RawVarBind>, oid: Oid): Oid {
    if explicit == [] then oid
    else
      var last := explicit[|explicit| - 1];
      if SetsTrapOid(last) then last.value.oid else TrapOid(explicit[..|explicit| - 1], oid)
  }

  function Extras(explicit: seq<RawVarBind>): seq<RawVarBind> {
    if explicit == [] then []
    else
      var last := explicit[|explicit| - 1];
      Extras(explicit[..|explicit| - 1]) + if SetsUptime(last) || SetsTrapOid(last) then [] else [last]
  }

  function BuildNotification(oid: Oid, explicit: seq<RawVarBind>, uptime: int): Outcome<seq<RawVarBind>> {
    if uptime < 0 then Failure(ValueError)
    else Success([RawVarBind(SYS_UPTIME, TimeTicksValue(Uptime(explicit, uptime))),
                  RawVarBind(SNMP_TRAP_OID, ObjectIdentifierValue(TrapOid(explicit, oid)))] + Extras(explicit))
  }

  /** The extras are the varbinds that are no well-typed override, each at the place that counts those before it. */
  lemma {:induction false} ExtrasAt(explicit: seq<RawVarBind>)
    ensures |Extras(explicit)| == Kept(explicit, |explicit|, IsExtra)
    ensures forall k :: 0 <= k < |explicit| && IsExtra(explicit[k]) ==>
              && Kept(explicit, k, IsExtra) < |Extras(explicit)|
              && Extras(explicit)[Kept(explicit, k, IsExtra)] == explicit[k]
  {
    if explicit != [] {
      var n := |explicit| - 1;
      var front := explicit[..n];
      ExtrasAt(front);
      KeptOfPrefix(explicit, n, n, IsExtra);
      forall k | 0 <= k < |explicit| && IsExtra(explicit[k])
        ensures Kept(explicit, k, IsExtra) < |Extras(explicit)|
        ensures Extras(explicit)[Kept(explicit, k, IsExtra)] == explicit[k]
      {
        if k < n {
          KeptOfPrefix(explicit, n, k, IsExtra);
          assert front[k] == explicit[k];
        }
      }
    }
  }

  /** What is built: the two standard varbinds, then every varbind that is no well-typed override, in order. */
  method BuildNotificationVarbinds(oid: Oid, explicit: seq<RawVarBind>, uptime: int)
    returns (r: Outcome<seq<RawVarBind>>)
    ensures r == BuildNotification(oid, explicit, uptime)
    ensures r.Failure? <==> uptime < 0
    ensures r.Success? ==>
              && |r.value| == 2 + Kept(explicit, |explicit|, IsExtra)
              && r.value[0] == RawVarBind(SYS_UPTIME, TimeTicksValue(Uptime(explicit, uptime)))
              && r.value[1] == RawVarBind(SNMP_TRAP_OID, ObjectIdentifierValue(TrapOid(explicit, oid)))
              && forall k :: 0 <= k < |explicit| && IsExtra(explicit[k]) ==>
                   && 2 + Kept(explicit, k, IsExtra) < |r.value|
                   && r.value[2 + Kept(explicit, k, IsExtra)] == explicit[k]
  {
    ExtrasAt(explicit);
    if uptime < 0 {
      return Failure(ValueError);
    }
    var sysUptime, trapOid := uptime, oid;
    var extras: seq<RawVarBind> := [];
    for i := 0 to |explicit|
      invariant sysUptime == Uptime(explicit[..i], uptime)
      invariant trapOid == TrapOid(explicit[..i], oid)
      invariant extras == Extras(explicit[..i])
    {
      var vb := explicit[i];
      assert explicit[..i + 1][..i] == explicit[..i];
      if vb.oid == SYS_UPTIME && vb.value.TimeTicksValue? {
        sysUptime := vb.value.ticks;
        continue;
      }
      if vb.oid == SNMP_TRAP_OID && vb.value.ObjectIdentifierValue? {
        trapOid := vb.value.oid;
        continue;
      }
      extras := extras + [vb];
    }
    assert explicit[..|explicit|] == explicit;
    return Success([RawVarBind(SYS_UPTIME, TimeTicksValue(sysUptime)),
                    RawVarBind(SNMP_TRAP_OID, ObjectIdentifierValue(trapOid))] + extras);
  }

  // Reading

  function ExtractUptime(vbs: seq<RawVarBind>): Option<int> {
    if vbs == [] then None
    else if SetsUptime(vbs[0]) then Some(vbs[0].value.ticks) else ExtractUptime(vbs[1..])
  }

  function ExtractNotificationOid(vbs: seq<RawVarBind>): Option<Oid> {
    if vbs == [] then None
    else if SetsTrapOid(vbs[0]) then Some(vbs[0].value.oid) else ExtractNotificationOid(vbs[1..])
  }

  /** The first well-typed varbind of its name decides; without one there is nothing. */
  lemma {:induction false} ExtractedIsFirst(vbs: seq<RawVarBind>)
    ensures ExtractUptime(vbs).None? <==> forall i :: 0 <= i < |vbs| ==> !SetsUptime(vbs[i])
    ensures forall i :: 0 <= i < |vbs| && SetsUptime(vbs[i]) && (forall j :: 0 <= j < i ==> !SetsUptime(vbs[j])) ==>
              ExtractUptime(vbs) == Some(vbs[i].value.ticks)
    ensures ExtractNotificationOid(vbs).None? <==> forall i :: 0 <= i < |vbs| ==> !SetsTrapOid(vbs[i])
    ensures forall i :: 0 <= i < |vbs| && SetsTrapOid(vbs[i]) && (forall j :: 0 <= j < i ==> !SetsTrapOid(vbs[j])) ==>
              ExtractNotificationOid(vbs) == Some(vbs[i].value.oid)
  {
    if vbs != [] {
      var rest := vbs[1..];
      ExtractedIsFirst(rest);
      assert forall i :: 0 <= i < |rest| ==> rest[i] == vbs[i + 1];
      assert forall i :: 0 < i < |vbs| ==> vbs[i] == rest[i - 1];
    }
  }

  /** The varbinds whose OID is neither of the two standard ones. */
  function Payload(vbs: seq<RawVarBind>): seq<RawVarBind> {
    if vbs == [] then []
    else
      var last := vbs[|vbs| - 1];
      Payload(vbs[..|vbs| - 1]) + if IsStandard(last) then [] else [last]
  }

  /** The payload is the varbinds of other names, each at the place that counts those before it. */
  lemma {:induction false} PayloadAt(vbs: seq<RawVarBind>)
    ensures |Payload(vbs)| == Kept(vbs, |vbs|, IsOther)
    ensures forall k :: 0 <= k < |vbs| && IsOther(vbs[k]) ==>
              Kept(vbs, k, IsOther) < |Payload(vbs)| && Payload(vbs)[Kept(vbs, k, IsOther)] == vbs[k]
  {
    if vbs != [] {
      var n := |vbs| - 1;
      var front := vbs[..n];
      PayloadAt(front);
      KeptOfPrefix(vbs, n, n, IsOther);
      forall k | 0 <= k < |vbs| && IsOther(vbs[k])
        ensures Kept(vbs, k, IsOther) < |Payload(vbs)| && Payload(vbs)[Kept(vbs, k, IsOther)] == vbs[k]
      {
        if k < n {
          KeptOfPrefix(vbs, n, k, IsOther);
          assert front[k] == vbs[k];
        }
      }
    }
  }

  datatype Binding<M> = Binding(declared: M, varbind: Option<RawVarBind>)

  function Bindings<M>(members: seq<M>, vbs: seq<RawVarBind>): (r: seq<Binding<M>>)
    ensures |r| == |members|
    ensures forall i :: 0 <= i < |members| ==>
              r[i] == Binding(members[i], if i < |Payload(vbs)| then Some(Payload(vbs)[i]) else None)
  {
    var payload := Payload(vbs);
    seq(|members|, i requires 0 <= i < |members| =>
          Binding(members[i], if i < |payload| then Some(payload[i]) else None))
  }

  /** Member `n` is bound to the varbind of another name that has `n` such before it; the members beyond their
      number are unbound. */
  ghost predicate Pairs<M>(members: seq<M>, vbs: seq<RawVarBind>, bindings: seq<Binding<M>>) {
    && |bindings| == |members|
    && (forall n :: 0 <= n < |members| ==> bindings[n].declared == members[n])
    && (forall k :: 0 <= k < |vbs| && IsOther(vbs[k]) && Kept(vbs, k, IsOther) < |members| ==>
          bindings[Kept(vbs, k, IsOther)].varbind == Some(vbs[k]))
    && (forall n :: Kept(vbs, |vbs|, IsOther) <= n < |members| ==> bindings[n].varbind == None)
  }

  lemma BindingsPair<M>(members: seq<M>, vbs: seq<RawVarBind>)
    ensures Pairs(members, vbs, Bindings(members, vbs))
  {
    PayloadAt(vbs);
  }

  method BuildMemberBindings<M>(members: seq<M>, vbs: seq<RawVarBind>) returns (bindings: seq<Binding<M>>)
    ensures bindings == Bindings(members, vbs)
    ensures Pairs(members, vbs, bindings)
  {
    BindingsPair(members, vbs);
    var payload := Payload(vbs);
    bindings := [];
    for index := 0 to |members|
      invariant |bindings| == index
      invariant forall i :: 0 <= i < index ==>
        bindings[i] == Binding(members[i], if i < |payload| then Some(payload[i]) else None)
    {
      var varbind := if index < |payload| then Some(payload[index]) else None;
      bindings := bindings + [Binding(members[index], varbind)];
    }
  }

  datatype Event = Event(requestId: int, varbinds: seq<RawVarBind>, notificationOid: Option<Oid>, uptime: Option<int>)

  /** Only traps and informs make events. */
  function EventOf(pdu: Pdu): Outcome<Event> {
    if pdu.pduType != SnmpV2Trap && pdu.pduType != InformRequest then Failure(ValueError)
    else
      var vbs := pdu.body.varbinds;
      Success(Event(pdu.body.requestId, vbs, ExtractNotificationOid(vbs), ExtractUptime(vbs)))
  }

  /** Exactly traps and informs make events, with their request id and all their varbinds. */
  lemma EventExactly(pdu: Pdu)
    ensures EventOf(pdu).Success? <==> pdu.pduType == SnmpV2Trap || pdu.pduType == InformRequest
    ensures EventOf(pdu).Success? ==>
              EventOf(pdu).value.requestId == pdu.body.requestId && EventOf(pdu).value.varbinds == pdu.body.varbinds
    ensures EventOf(pdu).Failure? ==> EventOf(pdu).error == ValueError
  {
  }

  function DecodeEvent(data: Bytes): Outcome<Event> {
    var m :- DecodeMessage(data);
    EventOf(m.pdu)
  }

  // Round trip

  lemma {:induction false} ExtrasPayload(explicit: seq<RawVarBind>)
    ensures Payload(Extras(explicit)) == Payload(explicit)
  {
    if explicit != [] {
      var n := |explicit| - 1;
      ExtrasPayload(explicit[..n]);
      var sofar, last := Extras(explicit[..n]), explicit[n];
      if !(SetsUptime(last) || SetsTrapOid(last)) {
        assert (sofar + [last])[..|sofar|] == sofar;
      } else {
        assert sofar + [] == sofar;
        assert Payload(explicit[..n]) + [] == Payload(explicit[..n]);
      }
    }
  }

  lemma {:induction false} PayloadBehind(standard: RawVarBind, vbs: seq<RawVarBind>)
    requires IsStandard(standard)
    ensures Payload([standard] + vbs) == Payload(vbs)
    decreases |vbs|
  {
    if vbs == [] {
      assert ([standard] + vbs)[..0] == [];
    } else {
      var n := |vbs| - 1;
      PayloadBehind(standard, vbs[..n]);
      assert ([standard] + vbs)[..n + 1] == [standard] + vbs[..n];
    }
  }

  /** The uptime of the override that no later override follows, if there is one. */
  lemma {:induction false} UptimeIsLastOverride(explicit: seq<RawVarBind>, uptime: int)
    ensures (forall j :: 0 <= j < |explicit| ==> !SetsUptime(explicit[j])) ==> Uptime(explicit, uptime) == uptime
    ensures forall i :: 0 <= i < |explicit| && SetsUptime(explicit[i])
                        && (forall j :: i < j < |explicit| ==> !SetsUptime(explicit[j])) ==>
              Uptime(explicit, uptime) == explicit[i].value.ticks
  {
    if explicit != [] {
      var n := |explicit| - 1;
      var front := explicit[..n];
      UptimeIsLastOverride(front, uptime);
      assert forall j :: 0 <= j < n ==> front[j] == explicit[j];
      if SetsUptime(explicit[n]) {
        assert Uptime(explicit, uptime) == explicit[n].value.ticks;
      } else {
        assert Uptime(explicit, uptime) == Uptime(front, uptime);
      }
    }
  }

  lemma {:induction false} TrapOidIsLastOverride(explicit: seq<RawVarBind>, oid: Oid)
    ensures (forall j :: 0 <= j < |explicit| ==> !SetsTrapOid(explicit[j])) ==> TrapOid(explicit, oid) == oid
    ensures forall i :: 0 <= i < |explicit| && SetsTrapOid(explicit[i])
                        && (forall j :: i < j < |explicit| ==> !SetsTrapOid(explicit[j])) ==>
              TrapOid(explicit, oid) == explicit[i].value.oid
  {
    if explicit != [] {
      var n := |explicit| - 1;
      var front := explicit[..n];
      TrapOidIsLastOverride(front, oid);
      assert forall j :: 0 <= j < n ==> front[j] == explicit[j];
      if SetsTrapOid(explicit[n]) {
        assert TrapOid(explicit, oid) == explicit[n].value.oid;
      } else {
        assert TrapOid(explicit, oid) == TrapOid(front, oid);
      }
    }
  }

  /** Section 4.2.6 of RFC 3416 and back: the first two varbinds are the standard ones, the event's
      uptime and notification OID are what was meant, and each declared member is paired with the explicit
      varbind of another name that has as many such before it as there are members before that one. */
  lemma NotificationIsReadBack<M>(oid: Oid, explicit: seq<RawVarBind>, uptime: int, members: seq<M>)
    requires uptime >= 0
    ensures var r := BuildNotification(oid, explicit, uptime);
            && r.Success? && |r.value| >= 2
            && var vbs := r.value;
            && vbs[0].oid == SYS_UPTIME && vbs[1].oid == SNMP_TRAP_OID
            && ExtractUptime(vbs) == Some(Uptime(explicit, uptime))
            && ExtractNotificationOid(vbs) == Some(TrapOid(explicit, oid))
            && Pairs(members, explicit, Bindings(members, vbs))
  {
    var vbs := BuildNotification(oid, explicit, uptime).value;
    var first, second, extras := vbs[0], vbs[1], Extras(explicit);
    assert vbs == [first] + ([second] + extras);
    assert vbs[1..] == [second] + extras;
    DifferentInstances();
    PayloadBehind(first, [second] + extras);
    PayloadBehind(second, extras);
    ExtrasPayload(explicit);
    BindingsPair(members, explicit);
    assert Bindings(members, vbs) == Bindings(members, explicit);
  }

  lemma DifferentInstances()
    ensures SYS_UPTIME != SNMP_TRAP_OID
  {
    assert |SYS_UPTIME| != |SNMP_TRAP_OID|;
  }

  lemma StandardNamesAreNormal()
    ensures NormalOid(SYS_UPTIME) == SYS_UPTIME && NormalOid(SNMP_TRAP_OID) == SNMP_TRAP_OID
  {
    NaturalOidSurvives(SYS_UPTIME);
    NaturalOidSurvives(SNMP_TRAP_OID);
  }

  /** Through the wire: the receiver's event has the notification's varbinds, uptime and OID in their normal
      form, and so is the sender's notification exactly when the wire can carry it. A notification that
      cannot be encoded is not sent. */
  lemma NotificationSurvivesTheWire(community: Bytes, pduType: PduType, requestId: int, oid: Oid,
                                    explicit: seq<RawVarBind>, uptime: int)
    requires uptime >= 0 && (pduType == SnmpV2Trap || pduType == InformRequest) && Text.IsUtf8(community)
    ensures var vbs := BuildNotification(oid, explicit, uptime).value;
            var body := Body(requestId, 0, 0, vbs);
            var encoded := WrapCommunity(community, Pdu(pduType, body));
            && (encoded.Success? <==> EncodableBody(body))
            && (encoded.Success? && Fits(|encoded.value|) ==>
                  && DecodeEvent(encoded.value)
                     == Success(Event(requestId, NormalVarbinds(vbs), Some(NormalOid(TrapOid(explicit, oid))),
                                      Some(Uptime(explicit, uptime))))
                  && (NormalVarbinds(vbs) == vbs <==> RepresentableBody(body)))
  {
    hide EncodeMessage, DecodeMessage, Fits, TrapOid, Uptime, EncodableBody, RepresentableBody, NormalOid, Text.IsUtf8;
    var vbs := BuildNotification(oid, explicit, uptime).value;
    NormalMessageIsRead(Message(V2C_VERSION, community, Pdu(pduType, Body(requestId, 0, 0, vbs))));
    StandardNamesAreNormal();
    DifferentInstances();
    var read := NormalVarbinds(vbs);
    assert read[0] == vbs[0];
    assert read[1] == RawVarBind(SNMP_TRAP_OID, ObjectIdentifierValue(NormalOid(TrapOid(explicit, oid))));
    assert read[1..][0] == read[1];
    assert ExtractUptime(read) == Some(Uptime(explicit, uptime));
    assert ExtractNotificationOid(read) == ExtractNotificationOid(read[1..]);
  }
}
